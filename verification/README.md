# Flashzilla review session and deck editor, in Dafny

This project models the logic of the Flashzilla flashcard app: the review
session on the main screen (`ContentView`) and the list operations of the
deck editor sheet (`EditCards`), both built on the `Card` record.

- `cards.dfy`, module `Cards`: the `Card` datatype (`id`, `prompt`,
  `answer`), identifier bookkeeping and removal of one position. The app gives
  each card a random UUID; the model uses a `nat` identifier taken from a
  counter `nextId` kept above every identifier in use (`WellNumbered`), so
  that "the new card's identifier is fresh" can be proved.
- `whitespace.dfy`, module `Whitespace`: `trimmingCharacters(in:
  .whitespaces)`, where `.whitespaces` is Unicode category Zs plus the tab.
  Line breaks are not in that set and are not trimmed.
- `review.dfy`, module `Review`: the session state (`cards`, `timeRemaining`,
  `isActive`, `nextId`) and its transitions as pure functions. These are
  judging a card, looking a card up, the one-second tick, scene-phase changes
  and restarting. The outside world drives them through an `Event` datatype
  and `Step`: timer firing, scene phase, a swipe on a card view, an
  accessibility button, a restart.
- `editor.dfy`, module `Editor`: adding a card (trim, validate, insert at the
  front, save, clear the fields), deleting a batch of rows, and loading.

## Behaviour as written

The model follows the code, including these points:

- The card under review is the last element of `cards`. Only that card view
  accepts touches, and the accessibility buttons judge `cards.count - 1`. A
  card judged wrong comes back at position 0, so it is seen again only after
  every other remaining card.
- A wrong judgment re-creates the card under a new identifier.
- `getIndex` scans `0...cards.count`, one step past the end. Its `-1` result
  is unreachable: for an absent identifier it reads past the end and traps.
  The model therefore requires the identifier to be present, and judging an
  absent card is outside the model's domain rather than a no-op.
- `removeCard` checks only `index >= 0`. A negative index is a no-op, and an
  index past the end is a precondition.
- The "no time left" gate covers only the card stack. The accessibility
  buttons still judge at time 0 (`TimeOutGatesOnlySwipes`).
- Restarting sets `isActive` even when the loaded deck is empty.
- A failed load leaves the card list as it was; it is not emptied. This holds
  in both the session and the editor.
- The session loads the user-defaults key "Cards", but the editor saves to
  `cards.txt` in the documents directory. Its user-defaults write is
  commented out (Flashzilla-documents-directory/EditCards.swift:68), so edits
  never reach the session. Storage is not modelled, so this is stated here
  and not proved.

## Model

| member | source | states |
|---|---|---|
| Cards.FreshBound | Flashzilla-documents-directory/Card.swift:10-11 | the least value above every identifier of the deck; a load moves the counter to at least this value |
| Cards.RemoveAt | Flashzilla-documents-directory/ContentView.swift:147-150 | `remove(at:)`: the list is one shorter, positions before the removed one are unchanged, and positions after it shift down by one |
| Cards.RemoveAtIds | Flashzilla-documents-directory/ContentView.swift:147 | removing one position from a well-numbered list drops exactly that card's identifier, keeps all the others, and keeps the list well numbered |
| Whitespace.IsSpace | Flashzilla-documents-directory/EditCards.swift:79-80 | membership in `.whitespaces` is exactly the listed code points (tab plus the Zs space separators); line feed, carriage return, vertical tab and form feed are not members |
| Whitespace.Trim | Flashzilla-documents-directory/EditCards.swift:79-80 | the trimmed text is a slice of the input; only whitespace is cut off on either side; the result does not start or end with whitespace |
| Whitespace.TrimUnique | Flashzilla-documents-directory/EditCards.swift:79-80 | any split into whitespace prefix, non-empty trimmed middle and whitespace suffix has the trimmed text as its middle |
| Whitespace.TrimEmptyIff | Flashzilla-documents-directory/EditCards.swift:79-81 | trimming yields the empty string exactly when every character is in `.whitespaces` (tab or a Zs space separator; both directions) |
| Whitespace.TrimIdempotent | Flashzilla-documents-directory/EditCards.swift:79-80 | trimming an already trimmed text changes nothing |
| Whitespace.TrimKeepsNonSpace | Flashzilla-documents-directory/EditCards.swift:79-80 | for every input, each character outside `.whitespaces` is kept in the trimmed text at its own place, shifted only by the leading whitespace |
| Whitespace.TrimKeepsNewlines | Flashzilla-documents-directory/EditCards.swift:79-80 | for every input, every line feed and carriage return survives trimming at its own place, shifted only by the leading whitespace |
| Whitespace.TrimExamples | Flashzilla-documents-directory/EditCards.swift:79-80 | two concrete inputs: spaces and tabs around a newline go, the newline stays |
| Review.RemoveCard | Flashzilla-documents-directory/ContentView.swift:143-156 | a negative index changes nothing. A correct card at a valid index is removed and the others keep their order. A wrong card is removed and a copy with the same prompt and answer and the next identifier goes to position 0, so the length is unchanged. An emptied queue stops the clock. Time is untouched |
| Review.CorrectJudgment | Flashzilla-documents-directory/ContentView.swift:146-147 | a correct judgment removes exactly the judged identifier and keeps identifiers unique and below the counter |
| Review.WrongJudgment | Flashzilla-documents-directory/ContentView.swift:148-151 | after a wrong judgment the judged identifier is gone and the front card's identifier is not any identifier of the old queue. The identifier set is the old one minus the judged card plus the new one, and it stays well numbered |
| Review.IndexOf | Flashzilla-documents-directory/ContentView.swift:158-163 | for a present identifier, the result is a valid position holding it, and no earlier position holds it |
| Review.GetIndex | Flashzilla-documents-directory/ContentView.swift:158-165 | the scan over `0...cards.count` never reaches the position past the end when the card is present, and it returns the first matching position (`IndexOf`) |
| Review.IndexOfUnique | Flashzilla-documents-directory/ContentView.swift:158-163 | with unique identifiers, looking up a card's identifier gives back that card's own position |
| Review.Judge | Flashzilla-documents-directory/ContentView.swift:51-55 | a card view's judgment applies to the first position holding the card. Correct: exactly that position is removed and the others keep their order. Wrong: the front card is a copy with the judged card's prompt and answer under the next identifier, followed by the others in order. A correct judgment leaves the counter alone. On a well-numbered queue the judged identifier is gone and numbering stays valid. The remaining time is unchanged, and the clock keeps its state while cards remain and stops when the queue empties |
| Review.Tick | Flashzilla-documents-directory/ContentView.swift:124-129 | a tick does nothing while paused or at zero, and otherwise takes exactly one second off |
| Review.SetPhase | Flashzilla-documents-directory/ContentView.swift:130-139 | leaving the foreground pauses the clock. Returning to it sets the flag only when cards remain and otherwise keeps the old flag. Cards, time and counter are untouched |
| Review.Reset | Flashzilla-documents-directory/ContentView.swift:167-179 | a restart gives 100 seconds with the clock running, whatever the deck. A failed load keeps the queue and counter; a successful one installs the stored deck. The counter never goes back and stays above every identifier |
| Review.Step | Flashzilla-documents-directory/ContentView.swift:50-141 | a timer event is a tick; a scene-phase event is `SetPhase`; a restart is `Reset` on the stored deck; a swipe with no time left changes nothing; an accessibility button judges the last position whatever the time; judgments never change the clock |
| Review.StepPreservesValid | Flashzilla-documents-directory/ContentView.swift:124-179 | every event keeps identifiers unique and the counter fresh, given restarts load decks with unique identifiers |
| Review.JudgmentsTakeTheTop | Flashzilla-documents-directory/ContentView.swift:53-108 | a swipe or button either leaves the queue alone or judges the last card. It removes that card, or moves a fresh copy to the front, and the rest keep their order |
| Review.SwipeOnTopJudges | Flashzilla-documents-directory/ContentView.swift:53-61 | with time left, a swipe on the top (last) card is applied and judges it exactly as `removeCard` at the last position |
| Review.SwipeBelowTopIgnored | Flashzilla-documents-directory/ContentView.swift:57 | a swipe on any card below the top is ignored, since only the top card view accepts touches |
| Review.TimeOutGatesOnlySwipes | Flashzilla-documents-directory/ContentView.swift:61-108 | at time 0 a swipe is ignored but an accessibility button still changes the queue |
| Review.EmptyQueueIgnoresJudgments | Flashzilla-documents-directory/ContentView.swift:94-144 | on an empty queue the buttons pass `-1` and change nothing, and no swipe is possible |
| Review.ExhaustedIsStable | Flashzilla-documents-directory/ContentView.swift:124-155 | a session with no cards and the clock stopped is unchanged by every event except a restart |
| Review.PauseIsIdempotent | Flashzilla-documents-directory/ContentView.swift:125-137 | pausing twice is pausing once, and a tick after a pause does nothing |
| Review.ResetIsIdempotent | Flashzilla-documents-directory/ContentView.swift:167-178 | restarting twice from the same stored deck is restarting once |
| Review.RestartWithEmptyDeckTicks | Flashzilla-documents-directory/ContentView.swift:167-171 | from any session, including a stopped and exhausted one, a restart event that loads an empty deck leaves no cards with the clock running, and the next tick takes a second off |
| Review.TicksCountDown | Flashzilla-documents-directory/ContentView.swift:124-129 | n ticks take n seconds off a running clock, stopping at zero, and nothing off a paused one; nothing else changes |
| Review.RunPreservesValid | Flashzilla-documents-directory/ContentView.swift:124-179 | over any event sequence whose restarts load uniquely numbered decks, identifiers stay unique and the counter fresh |
| Review.ClockOnlyRunsDown | Flashzilla-documents-directory/ContentView.swift:124-156 | without a restart, no event sequence increases the remaining time |
| Review.TwoCardWalkthrough | Flashzilla-documents-directory/ContentView.swift:50-156 | two cards driven by events, deck `[B, A]` with A on top: a swipe on B is ignored; A swiped correct; B swiped wrong comes back with the same texts and a new identifier; the "Correct" button on B's copy empties the queue and stops the clock |
| Editor.AddCard | Flashzilla-documents-directory/EditCards.swift:78-87 | if either field holds only `.whitespaces` characters, nothing changes: no insert, no save, fields kept. Otherwise the trimmed card is inserted at the front under the next identifier, the new list is saved and both fields are cleared |
| Editor.AddCardStoresTrimmedFreshCard | Flashzilla-documents-directory/EditCards.swift:79-83 | an added card has a fresh identifier and non-empty prompt and answer with no whitespace at either end. The old cards follow in order and the list stays well numbered |
| Editor.BlankFieldsAreRejected | Flashzilla-documents-directory/EditCards.swift:81 | an empty prompt, or an answer of only a space and a tab, leaves the editor unchanged |
| Editor.RemoveOffsets | Flashzilla-documents-directory/EditCards.swift:90 | the result has one element per position outside the offsets |
| Editor.KeptMonotone | Flashzilla-documents-directory/EditCards.swift:90 | surviving positions land at strictly increasing places, so relative order is kept |
| Editor.RemoveOffsetsKeeps | Flashzilla-documents-directory/EditCards.swift:90 | every element outside the offsets survives, at the position given by the number of survivors before it |
| Editor.RemoveOffsetsOnlyKeeps | Flashzilla-documents-directory/EditCards.swift:90 | every element of the result comes from a position outside the offsets |
| Editor.RemoveOffsetsLength | Flashzilla-documents-directory/EditCards.swift:90 | deleting a set of valid offsets shortens the list by the size of the set |
| Editor.RemoveOffsetsUnique | Flashzilla-documents-directory/EditCards.swift:90 | deleting rows keeps identifiers unique |
| Editor.RemoveOffsetsIds | Flashzilla-documents-directory/EditCards.swift:90 | the identifiers left are exactly those at positions outside the offsets |
| Editor.RemoveCards | Flashzilla-documents-directory/EditCards.swift:89-92 | the count drops by the number of offsets and each survivor sits at its order-preserving place. The new list is saved; fields and counter are unchanged |
| Editor.RemoveCardsIds | Flashzilla-documents-directory/EditCards.swift:89-92 | on a well-numbered list, deletion leaves exactly the identifiers of the rows not deleted, and the list stays well numbered |
| Editor.Load | Flashzilla-documents-directory/EditCards.swift:50-61 | a failed read or decode leaves the editor exactly as it was. A successful one installs the stored deck with the counter above its identifiers, and nothing is saved |

## Left out

- SwiftUI layout: the `stacked(at:in:)` offset (floating point) and all of
  `CardView.swift`. A drag ending beyond 100 points becomes a `Swipe` event
  carrying the card's identifier and the judgment.
- Accessibility toggles: the model offers `Button` events in every state.
  In the app the buttons exist only when "differentiate without color" or
  VoiceOver is on; the toggles only decide which path sends a judgment.
- `Timer.publish` and the `scenePhase` environment: these become the
  `Second` and `ScenePhase` events.
- Persistence and JSON: UserDefaults, file reads, atomic writes and the
  synthesized `Codable` are foreign library calls. A load is an
  `Option<seq<Card>>` input, with `None` when the data is missing or cannot
  be decoded. A save is an entry in `EditorState.writes`. Encoding and write
  failures are not modelled, so every save attempt is recorded. For the same
  reason the "save then load gives the same deck" round trip is not stated.
- Cards.FreshBound: UUID generation becomes the `nextId` counter. After a
  load the counter jumps past the loaded identifiers. Random UUIDs are fresh
  only with overwhelming probability; the counter makes freshness certain.
- Review.StepPreservesValid: loaded decks are assumed to have unique
  identifiers. Nothing checks the stored data.
- Review.Judge: the judged identifier is shown to be gone only for
  well-numbered queues. With duplicate identifiers the first occurrence is
  judged and a later duplicate survives.
- `print` logging, the `showingEditScreen` flag and `done()`: these have no
  effect on the card state.
- Whitespace.Trim: text is a sequence of Unicode scalar values. Swift's
  grapheme-cluster view of `String` is not modelled.
