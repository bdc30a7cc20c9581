/**
 * The review session of the main screen: the live card queue, the countdown
 * and the flag that says whether the countdown is ticking.
 *
 * The card under review is the LAST element of `cards` (it is drawn on top of
 * the stack and it is the only one that accepts a drag). A card judged wrong
 * is re-created with a fresh identifier and put at position 0, so it comes
 * back only after every other remaining card.
 *
 * The clock, the app's scene phase and the stored deck are outside the
 * model: they arrive as `Event`s (`Tick`, `ScenePhase`, `Restart` carrying
 * the result of reading the stored deck).
 */
module Review {
  import opened Cards

  /** Seconds on the clock when a session (re)starts. */
  const TimeBudget: nat := 100

  datatype Session = Session(
    cards: seq<Card>,
    timeRemaining: nat,
    isActive: bool,
    nextId: nat)

  /** The state before the screen first appears. */
  const Initial := Session([], TimeBudget, true, 0)

  predicate Valid(s: Session)
  {
    WellNumbered(s.cards, s.nextId)
  }

  /** Judge the card at `index`. A negative index (the accessibility buttons on
      an empty deck pass `-1`) changes nothing; there is no upper-bound check,
      so an index past the end is outside the operation's domain. A correct
      card leaves the queue; a wrong one is replaced by a copy with a fresh
      identifier at the front. Emptying the queue stops the clock. */
  function RemoveCard(s: Session, index: int, isCorrect: bool): (r: Session)
    requires index < |s.cards|
    ensures index < 0 ==> r == s
    ensures 0 <= index && isCorrect ==>
              && |r.cards| == |s.cards| - 1
              && r.cards == s.cards[..index] + s.cards[index + 1..]
              && r.nextId == s.nextId
    ensures 0 <= index && !isCorrect ==>
              && |r.cards| == |s.cards|
              && r.cards[0] == Card(s.nextId, s.cards[index].prompt, s.cards[index].answer)
              && r.cards[1..] == s.cards[..index] + s.cards[index + 1..]
              && r.nextId == s.nextId + 1
    ensures r.timeRemaining == s.timeRemaining
    ensures 0 <= index ==> (r.isActive <==> s.isActive && |r.cards| > 0)
  {
    if index < 0 then s
    else
      var judged := s.cards[index];
      var rest := RemoveAt(s.cards, index);
      assert rest == s.cards[..index] + s.cards[index + 1..];
      var s' :=
        if isCorrect then s.(cards := rest)
        else s.(cards := [Card(s.nextId, judged.prompt, judged.answer)] + rest,
                nextId := s.nextId + 1);
      if |s'.cards| == 0 then s'.(isActive := false) else s'
  }

  /** Position of the first card carrying `id`: the reference definition of
      the lookup. */
  function IndexOf(cards: seq<Card>, id: nat): (i: nat)
    requires id in Ids(cards)
    ensures i < |cards| && cards[i].id == id
    ensures forall k :: 0 <= k < i ==> cards[k].id != id
  {
    if cards[0].id == id then 0
    else
      assert id in Ids(cards[1..]) by {
        var c :| c in cards && c.id == id;
        assert c != cards[0];
      }
      1 + IndexOf(cards[1..], id)
  }

  /** The lookup as the screen performs it: a scan over `0...cards.count`
      (one step past the end). The position past the end is never read
      because the card is present; when it is absent the scan would read
      past the end, so presence is required. */
  method GetIndex(cards: seq<Card>, id: nat) returns (i: int)
    requires id in Ids(cards)
    ensures 0 <= i < |cards| && i == IndexOf(cards, id)
  {
    i := 0;
    while i <= |cards|
      invariant 0 <= i <= IndexOf(cards, id)
      decreases |cards| - i
    {
      if cards[i].id == id {
        return;
      }
      i := i + 1;
    }
    i := -1;
  }

  /** One second of the countdown: nothing while paused, otherwise one second
      off, never below zero. */
  function Tick(s: Session): (r: Session)
    ensures !s.isActive || s.timeRemaining == 0 ==> r == s
    ensures s.isActive && s.timeRemaining > 0 ==>
              r == s.(timeRemaining := s.timeRemaining - 1)
  {
    if !s.isActive then s
    else if s.timeRemaining > 0 then s.(timeRemaining := s.timeRemaining - 1)
    else s
  }

  /** The app moving to (`active`) or away from the foreground. Leaving the
      foreground pauses the clock; returning resumes it only when cards are
      left. */
  function SetPhase(s: Session, active: bool): (r: Session)
    ensures r.cards == s.cards && r.timeRemaining == s.timeRemaining && r.nextId == s.nextId
    ensures !active ==> !r.isActive
    ensures active ==> (r.isActive <==> s.isActive || |s.cards| > 0)
  {
    if active then
      if |s.cards| > 0 then s.(isActive := true) else s
    else s.(isActive := false)
  }

  /** Restart: full clock, clock running (even for an empty deck), and the
      stored deck when it could be read and decoded; otherwise the queue is
      left as it was. The counter moves past every loaded identifier. */
  function Reset(s: Session, stored: Option<seq<Card>>): (r: Session)
    ensures r.timeRemaining == TimeBudget && r.isActive
    ensures stored.None? ==> r.cards == s.cards && r.nextId == s.nextId
    ensures stored.Some? ==> r.cards == stored.value
    ensures s.nextId <= r.nextId
    ensures stored.Some? || IdsBelow(s.cards, s.nextId) ==> IdsBelow(r.cards, r.nextId)
  {
    match stored
    case None => s.(timeRemaining := TimeBudget, isActive := true)
    case Some(deck) =>
      Session(deck, TimeBudget, true, Max(s.nextId, FreshBound(deck)))
  }

  /** A correct judgment retires exactly the judged card: the queue keeps a
      valid numbering and loses exactly that identifier. */
  lemma CorrectJudgment(s: Session, i: nat)
    requires Valid(s) && i < |s.cards|
    ensures Valid(RemoveCard(s, i, true))
    ensures Ids(RemoveCard(s, i, true).cards) == Ids(s.cards) - {s.cards[i].id}
  {
    RemoveAtIds(s.cards, i, s.nextId);
    assert RemoveCard(s, i, true).cards == RemoveAt(s.cards, i);
  }

  /** A wrong judgment swaps the judged card for a copy under an identifier
      that no card of the queue carried, and keeps the numbering valid. */
  lemma WrongJudgment(s: Session, i: nat)
    requires Valid(s) && i < |s.cards|
    ensures var r := RemoveCard(s, i, false);
              && Valid(r)
              && r.cards[0].id !in Ids(s.cards)
              && s.cards[i].id !in Ids(r.cards)
              && Ids(r.cards) == Ids(s.cards) - {s.cards[i].id} + {r.cards[0].id}
  {
    var r := RemoveCard(s, i, false);
    var rest := RemoveAt(s.cards, i);
    RemoveAtIds(s.cards, i, s.nextId);
    assert r.cards == [r.cards[0]] + rest;
    assert Ids(r.cards) == {r.cards[0].id} + Ids(rest) by {
      forall c | c in r.cards ensures c == r.cards[0] || c in rest {
        var k :| 0 <= k < |r.cards| && r.cards[k] == c;
        if k > 0 { assert c == rest[k - 1]; }
      }
    }
    forall a, b | 0 <= a < b < |r.cards|
      ensures r.cards[a].id != r.cards[b].id
    {
      assert r.cards[b] == rest[b - 1];
      if a > 0 {
        assert r.cards[a] == rest[a - 1];
      } else {
        assert r.cards[b] in rest;
      }
    }
  }

  /** Under unique identifiers the lookup finds a card at its own position. */
  lemma IndexOfUnique(cards: seq<Card>, k: nat)
    requires UniqueIds(cards) && k < |cards|
    ensures cards[k].id in Ids(cards)
    ensures IndexOf(cards, cards[k].id) == k
  {
    assert cards[k] in cards;
  }

  /** The judgment a card view reports for its own card (the closure handed
      to each card view): look the card up, then judge it there. */
  function Judge(s: Session, id: nat, isCorrect: bool): (r: Session)
    requires id in Ids(s.cards)
    ensures isCorrect ==> |r.cards| == |s.cards| - 1
    ensures !isCorrect ==> |r.cards| == |s.cards| && r.nextId == s.nextId + 1
    ensures var i := IndexOf(s.cards, id);
            isCorrect ==> r.cards == RemoveAt(s.cards, i)
    ensures var i := IndexOf(s.cards, id);
            !isCorrect ==>
              && r.cards[0] == Card(s.nextId, s.cards[i].prompt, s.cards[i].answer)
              && r.cards[1..] == RemoveAt(s.cards, i)
    ensures isCorrect ==> r.nextId == s.nextId
    ensures Valid(s) ==> Valid(r) && id !in Ids(r.cards)
    ensures r.timeRemaining == s.timeRemaining
    ensures r.isActive <==> s.isActive && |r.cards| > 0
  {
    var i := IndexOf(s.cards, id);
    var r := RemoveCard(s, i, isCorrect);
    assert Valid(s) ==> Valid(r) && id !in Ids(r.cards) by {
      if Valid(s) {
        if isCorrect { CorrectJudgment(s, i); } else { WrongJudgment(s, i); }
      }
    }
    r
  }

  /** What the outside world can do to a session. */
  datatype Event =
    | Second                              // the one-second timer fired
    | ScenePhase(active: bool)            // the app entered or left the foreground
    | Swipe(id: nat, isCorrect: bool)     // a card view was dragged far enough
    | Button(isCorrect: bool)             // an accessibility "Wrong"/"Correct" button
    | Restart(stored: Option<seq<Card>>)  // first appearance, editor dismissed, "Start again"

  /** A swipe can only come from a card view, and card views exist only for
      cards in the queue. */
  predicate Possible(s: Session, e: Event)
  {
    e.Swipe? ==> e.id in Ids(s.cards)
  }

  /** One event. A swipe reaches `RemoveCard` only when the card stack
      accepts touches (time left) and the swiped card is the top one (last
      position). The buttons call `RemoveCard` on the last position with no
      time check. */
  function Step(s: Session, e: Event): (r: Session)
    requires Possible(s, e)
    ensures e.Second? ==> r == Tick(s)
    ensures e.Swipe? && s.timeRemaining == 0 ==> r == s
    ensures e.Swipe? || e.Button? ==> r.timeRemaining == s.timeRemaining
    ensures e.Button? ==> r == RemoveCard(s, |s.cards| - 1, e.isCorrect)
    ensures e.ScenePhase? ==> r == SetPhase(s, e.active)
    ensures e.Restart? ==> r == Reset(s, e.stored)
  {
    match e
    case Second => Tick(s)
    case ScenePhase(active) => SetPhase(s, active)
    case Swipe(id, isCorrect) =>
      if s.timeRemaining > 0 && IndexOf(s.cards, id) == |s.cards| - 1 then Judge(s, id, isCorrect) else s
    case Button(isCorrect) => RemoveCard(s, |s.cards| - 1, isCorrect)
    case Restart(stored) => Reset(s, stored)
  }

  /** A restart keeps the numbering valid when the stored deck has unique
      identifiers. */
  predicate SoundRestart(e: Event)
  {
    e.Restart? && e.stored.Some? ==> UniqueIds(e.stored.value)
  }

  /** Every event keeps identifiers unique and the counter fresh. */
  lemma StepPreservesValid(s: Session, e: Event)
    requires Valid(s) && Possible(s, e) && SoundRestart(e)
    ensures Valid(Step(s, e))
  {
    match e
    case Swipe(id, isCorrect) =>
      var i := IndexOf(s.cards, id);
      if isCorrect { CorrectJudgment(s, i); } else { WrongJudgment(s, i); }
    case Button(isCorrect) =>
      if |s.cards| > 0 {
        if isCorrect {
          CorrectJudgment(s, |s.cards| - 1);
        } else {
          WrongJudgment(s, |s.cards| - 1);
        }
      }
    case _ =>
  }

  /** Only the card on top is ever judged: any judgment event that changes
      the queue retires the last card (correct) or moves a fresh copy of it
      to the front (wrong); the rest keep their order. */
  lemma JudgmentsTakeTheTop(s: Session, e: Event)
    requires Valid(s) && Possible(s, e) && (e.Swipe? || e.Button?)
    ensures var r := Step(s, e);
            r.cards == s.cards || (
              var top := s.cards[|s.cards| - 1];
              var below := s.cards[..|s.cards| - 1];
              r.cards == below
              || r.cards == [Card(s.nextId, top.prompt, top.answer)] + below)
  {
    var n := |s.cards|;
    if n > 0 {
      assert s.cards[..n - 1] + s.cards[n..] == s.cards[..n - 1];
    }
  }

  /** With time left, a swipe on the top card judges it exactly as the
      accessibility button would. */
  lemma SwipeOnTopJudges(s: Session, isCorrect: bool)
    requires Valid(s) && |s.cards| > 0 && s.timeRemaining > 0
    ensures s.cards[|s.cards| - 1].id in Ids(s.cards)
    ensures Step(s, Swipe(s.cards[|s.cards| - 1].id, isCorrect))
            == RemoveCard(s, |s.cards| - 1, isCorrect)
  {
    IndexOfUnique(s.cards, |s.cards| - 1);
  }

  /** A swipe on any card below the top is ignored: those card views do not
      accept touches. */
  lemma SwipeBelowTopIgnored(s: Session, k: nat, isCorrect: bool)
    requires Valid(s) && k + 1 < |s.cards|
    ensures s.cards[k].id in Ids(s.cards)
    ensures Step(s, Swipe(s.cards[k].id, isCorrect)) == s
  {
    IndexOfUnique(s.cards, k);
  }

  /** The time-out gate covers only swipes: with no time left a swipe changes
      nothing, while an accessibility button still judges the top card. */
  lemma TimeOutGatesOnlySwipes(s: Session, id: nat, isCorrect: bool)
    requires Valid(s) && s.timeRemaining == 0 && id in Ids(s.cards)
    ensures Step(s, Swipe(id, isCorrect)) == s
    ensures Step(s, Button(isCorrect)).cards != s.cards
  {
    if !isCorrect {
      // The copy carries the counter, which no card of a valid queue does.
      assert s.cards[0] in s.cards;
    }
  }

  /** With no cards left the judgment paths do nothing: the buttons pass
      position -1, and there is no card view to swipe. */
  lemma EmptyQueueIgnoresJudgments(s: Session, isCorrect: bool)
    requires |s.cards| == 0
    ensures Step(s, Button(isCorrect)) == s
    ensures forall id :: !Possible(s, Swipe(id, isCorrect))
  {
  }

  /** An exhausted session (no cards, clock stopped) stays exactly as it is
      under every event except a restart: ticks are suppressed and coming
      back to the foreground does not restart the clock. */
  lemma ExhaustedIsStable(s: Session, e: Event)
    requires |s.cards| == 0 && !s.isActive
    requires Possible(s, e) && !e.Restart?
    ensures Step(s, e) == s
  {
  }

  /** Leaving the foreground is level-triggered: repeating it is harmless. */
  lemma PauseIsIdempotent(s: Session)
    ensures SetPhase(SetPhase(s, false), false) == SetPhase(s, false)
    ensures Tick(SetPhase(s, false)) == SetPhase(s, false)
  {
  }

  /** Restarting twice from the same stored deck is restarting once. */
  lemma ResetIsIdempotent(s: Session, stored: Option<seq<Card>>)
    ensures Reset(Reset(s, stored), stored) == Reset(s, stored)
  {
  }

  /** A restart event runs the clock even when the loaded deck is empty,
      whatever the session looked like before (a stopped, exhausted session
      included), so such a session counts down until a scene-phase change
      stops it. */
  lemma RestartWithEmptyDeckTicks(s: Session)
    ensures var r := Step(s, Restart(Some([])));
            r.cards == [] && r.isActive && Tick(r).timeRemaining == TimeBudget - 1
    ensures var first := Step(Initial, Restart(None));
            first.cards == [] && first.isActive && Tick(first).timeRemaining < TimeBudget
  {
  }

  /** `n` timer firings with no other event in between. */
  function Ticks(s: Session, n: nat): Session
    decreases n
  {
    if n == 0 then s else Ticks(Tick(s), n - 1)
  }

  /** `n` seconds take `n` off a running clock, saturating at zero, and
      nothing off a paused one; nothing else changes. */
  lemma {:induction false} TicksCountDown(s: Session, n: nat)
    ensures var r := Ticks(s, n);
            r == s.(timeRemaining := if !s.isActive then s.timeRemaining
                                     else if n <= s.timeRemaining then s.timeRemaining - n
                                     else 0)
    decreases n
  {
    if n > 0 {
      TicksCountDown(Tick(s), n - 1);
    }
  }

  /** Every event of the sequence is one the session could receive at the
      point where it arrives. */
  predicate Feasible(s: Session, events: seq<Event>)
    decreases |events|
  {
    |events| == 0 || (Possible(s, events[0]) && Feasible(Step(s, events[0]), events[1..]))
  }

  /** The session after a sequence of events, oldest first. */
  function Run(s: Session, events: seq<Event>): Session
    requires Feasible(s, events)
    decreases |events|
  {
    if |events| == 0 then s else Run(Step(s, events[0]), events[1..])
  }

  /** Over any run whose restarts load decks with unique identifiers, card
      identifiers stay unique and the counter stays fresh. */
  lemma {:induction false} RunPreservesValid(s: Session, events: seq<Event>)
    requires Valid(s) && Feasible(s, events)
    requires forall k :: 0 <= k < |events| ==> SoundRestart(events[k])
    ensures Valid(Run(s, events))
    decreases |events|
  {
    if |events| > 0 {
      StepPreservesValid(s, events[0]);
      assert forall k :: 0 <= k < |events[1..]| ==> events[1..][k] == events[k + 1];
      RunPreservesValid(Step(s, events[0]), events[1..]);
    }
  }

  /** Only a restart puts time back on the clock. */
  lemma {:induction false} ClockOnlyRunsDown(s: Session, events: seq<Event>)
    requires Feasible(s, events)
    requires forall k :: 0 <= k < |events| ==> !events[k].Restart?
    ensures Run(s, events).timeRemaining <= s.timeRemaining
    decreases |events|
  {
    if |events| > 0 {
      assert !events[0].Restart?;
      assert forall k :: 0 <= k < |events[1..]| ==> events[1..][k] == events[k + 1];
      ClockOnlyRunsDown(Step(s, events[0]), events[1..]);
    }
  }

  /** A two-card walk-through driven by events, in the order the screen
      allows: the deck is `[b, a]`, so `a` is on top. A swipe on `b` first is
      ignored; `a` is swiped correct; `b` is swiped wrong and comes back as
      `b'` with the same texts and a new identifier; the "Correct" button
      retires `b'`. The queue ends empty with the clock stopped. */
  lemma TwoCardWalkthrough()
    ensures var a := Card(0, "2+2", "4");
            var b := Card(1, "3+3", "6");
            var s0 := Session([b, a], TimeBudget, true, 2);
            && a.id in Ids(s0.cards) && b.id in Ids(s0.cards)
            && Step(s0, Swipe(b.id, true)) == s0
            && var s1 := Step(s0, Swipe(a.id, true));
               && s1.cards == [b]
               && b.id in Ids(s1.cards)
               && var s2 := Step(s1, Swipe(b.id, false));
                  && s2.cards == [Card(2, "3+3", "6")] && s2.nextId == 3
                  && var s3 := Step(s2, Button(true));
                     s3.cards == [] && !s3.isActive && s3.timeRemaining == TimeBudget
  {
    var a := Card(0, "2+2", "4");
    var b := Card(1, "3+3", "6");
    var s0 := Session([b, a], TimeBudget, true, 2);
    assert a == s0.cards[1] && b == s0.cards[0];
    SwipeBelowTopIgnored(s0, 0, true);
    SwipeOnTopJudges(s0, true);
    var s1 := Step(s0, Swipe(a.id, true));
    assert s1.cards == [b];
    SwipeOnTopJudges(s1, false);
    var s2 := Step(s1, Swipe(b.id, false));
    assert s2.cards == [Card(2, "3+3", "6")];
  }
}
