/**
 * The deck editor sheet: the list of cards being edited, the two text fields
 * for a new card, and the saves it performs.
 *
 * Reading and writing the deck file (and its JSON encoding) are outside the
 * model. A load arrives as `Option<seq<Card>>` (`None` when the file cannot
 * be read or decoded); a save is recorded in `writes`, the decks the editor
 * asked to be written, oldest first. The editor writes a documents-directory
 * file while the review session reads the "Cards" user-defaults key, so
 * nothing saved here reaches the session.
 */
module Editor {
  import opened Cards
  import opened Whitespace

  datatype EditorState = EditorState(
    cards: seq<Card>,
    newPrompt: string,
    newAnswer: string,
    nextId: nat,
    writes: seq<seq<Card>>)

  predicate Valid(e: EditorState)
  {
    WellNumbered(e.cards, e.nextId)
  }

  /** The "Add Card" button. Both fields are trimmed of `.whitespaces`; if
      either is then empty nothing happens (no insert, no save, the fields
      keep their text). Otherwise the card goes to the front, the list is
      saved and both fields are cleared. */
  function AddCard(e: EditorState): (r: EditorState)
    ensures var p, a := Trim(e.newPrompt), Trim(e.newAnswer);
            if AllSpace(e.newPrompt) || AllSpace(e.newAnswer) then r == e
            else
              && r.cards == [Card(e.nextId, p, a)] + e.cards
              && r.nextId == e.nextId + 1
              && r.writes == e.writes + [r.cards]
              && r.newPrompt == "" && r.newAnswer == ""
  {
    var p, a := Trim(e.newPrompt), Trim(e.newAnswer);
    TrimEmptyIff(e.newPrompt);
    TrimEmptyIff(e.newAnswer);
    if |p| == 0 || |a| == 0 then e
    else
      var cards := [Card(e.nextId, p, a)] + e.cards;
      EditorState(cards, "", "", e.nextId + 1, e.writes + [cards])
  }

  /** A successful add stores non-empty texts with no whitespace at either
      end, under an identifier no existing card carries, and keeps the list
      well numbered. */
  lemma AddCardStoresTrimmedFreshCard(e: EditorState)
    requires Valid(e)
    requires !AllSpace(e.newPrompt) && !AllSpace(e.newAnswer)
    ensures var r := AddCard(e);
            var c := r.cards[0];
            && Valid(r)
            && |r.cards| == |e.cards| + 1 && r.cards[1..] == e.cards
            && c.id !in Ids(e.cards)
            && |c.prompt| > 0 && Trimmed(c.prompt)
            && |c.answer| > 0 && Trimmed(c.answer)
  {
    TrimEmptyIff(e.newPrompt);
    TrimEmptyIff(e.newAnswer);
    var r := AddCard(e);
    assert r.cards[1..] == e.cards;
    forall i, j | 0 <= i < j < |r.cards|
      ensures r.cards[i].id != r.cards[j].id
    {
      assert r.cards[j] == e.cards[j - 1];
      if i > 0 {
        assert r.cards[i] == e.cards[i - 1];
      } else {
        assert e.cards[j - 1] in e.cards;
      }
    }
  }

  /** How many positions below `i` are NOT in `offsets`: where the element at
      position `i` lands once the offsets are deleted. */
  function Kept(offsets: set<nat>, i: nat): nat
  {
    if i == 0 then 0 else Kept(offsets, i - 1) + (if i - 1 in offsets then 0 else 1)
  }

  /** `xs` without the elements at the positions in `offsets` (Swift's
      `remove(atOffsets:)`). */
  function RemoveOffsets<T>(xs: seq<T>, offsets: set<nat>): (r: seq<T>)
    ensures |r| == Kept(offsets, |xs|)
    decreases |xs|
  {
    if |xs| == 0 then []
    else
      var last := |xs| - 1;
      RemoveOffsets(xs[..last], offsets) + (if last in offsets then [] else [xs[last]])
  }

  /** Kept positions move to distinct, order-preserving places. */
  lemma {:induction false} KeptMonotone(offsets: set<nat>, i: nat, j: nat)
    requires i < j && i !in offsets
    ensures Kept(offsets, i) < Kept(offsets, j)
    decreases j
  {
    if j > i + 1 {
      KeptMonotone(offsets, i, j - 1);
    }
  }

  /** Every surviving element sits at the place `Kept` assigns it. */
  lemma {:induction false} RemoveOffsetsKeeps<T>(xs: seq<T>, offsets: set<nat>, i: nat)
    requires i < |xs| && i !in offsets
    ensures Kept(offsets, i) < |RemoveOffsets(xs, offsets)|
    ensures RemoveOffsets(xs, offsets)[Kept(offsets, i)] == xs[i]
    decreases |xs|
  {
    var last := |xs| - 1;
    var front := RemoveOffsets(xs[..last], offsets);
    if i < last {
      RemoveOffsetsKeeps(xs[..last], offsets, i);
      KeptMonotone(offsets, i, last);
    }
  }

  /** Every element of the result is a survivor: some position outside
      `offsets` lands on it. */
  lemma {:induction false} RemoveOffsetsOnlyKeeps<T>(xs: seq<T>, offsets: set<nat>, k: nat)
    requires k < |RemoveOffsets(xs, offsets)|
    ensures exists i :: 0 <= i < |xs| && i !in offsets && Kept(offsets, i) == k
    decreases |xs|
  {
    var last := |xs| - 1;
    if k < |RemoveOffsets(xs[..last], offsets)| {
      RemoveOffsetsOnlyKeeps(xs[..last], offsets, k);
    } else {
      assert last !in offsets && Kept(offsets, last) == k;
    }
  }

  /** The positions below `n` that are in `offsets`. */
  function Below(offsets: set<nat>, n: nat): set<nat>
  {
    set o | o in offsets && o < n
  }

  /** Positions below `n` are either kept or deleted. */
  lemma {:induction false} KeptPlusDeleted(offsets: set<nat>, n: nat)
    ensures Kept(offsets, n) + |Below(offsets, n)| == n
    decreases n
  {
    if n > 0 {
      KeptPlusDeleted(offsets, n - 1);
      if n - 1 in offsets {
        assert Below(offsets, n) == Below(offsets, n - 1) + {n - 1};
      } else {
        assert Below(offsets, n) == Below(offsets, n - 1);
      }
    }
  }

  /** Deleting a batch of valid offsets removes exactly that many elements. */
  lemma RemoveOffsetsLength<T>(xs: seq<T>, offsets: set<nat>)
    requires forall o :: o in offsets ==> o < |xs|
    ensures |RemoveOffsets(xs, offsets)| == |xs| - |offsets|
  {
    KeptPlusDeleted(offsets, |xs|);
    assert Below(offsets, |xs|) == offsets;
  }

  /** Swipe-to-delete of a batch of rows. Offsets past the end are outside
      the operation's domain. Exactly the cards at the offsets are gone, the
      count drops by the number of offsets, the survivors keep their order,
      and the new list is saved. */
  function RemoveCards(e: EditorState, offsets: set<nat>): (r: EditorState)
    requires forall o :: o in offsets ==> o < |e.cards|
    ensures |r.cards| == |e.cards| - |offsets|
    ensures forall i :: 0 <= i < |e.cards| && i !in offsets ==>
              Kept(offsets, i) < |r.cards| && r.cards[Kept(offsets, i)] == e.cards[i]
    ensures r.writes == e.writes + [r.cards]
    ensures r.newPrompt == e.newPrompt && r.newAnswer == e.newAnswer && r.nextId == e.nextId
  {
    var cards := RemoveOffsets(e.cards, offsets);
    RemoveOffsetsLength(e.cards, offsets);
    assert forall i :: 0 <= i < |e.cards| && i !in offsets ==>
             Kept(offsets, i) < |cards| && cards[Kept(offsets, i)] == e.cards[i] by {
      forall i | 0 <= i < |e.cards| && i !in offsets
        ensures Kept(offsets, i) < |cards| && cards[Kept(offsets, i)] == e.cards[i]
      {
        RemoveOffsetsKeeps(e.cards, offsets, i);
      }
    }
    e.(cards := cards, writes := e.writes + [cards])
  }

  /** The position a given element of the result came from. */
  lemma SurvivorOf<T>(xs: seq<T>, offsets: set<nat>, k: nat) returns (i: nat)
    requires k < |RemoveOffsets(xs, offsets)|
    ensures i < |xs| && i !in offsets && Kept(offsets, i) == k
    ensures RemoveOffsets(xs, offsets)[k] == xs[i]
  {
    RemoveOffsetsOnlyKeeps(xs, offsets, k);
    i :| 0 <= i < |xs| && i !in offsets && Kept(offsets, i) == k;
    RemoveOffsetsKeeps(xs, offsets, i);
  }

  /** Deleting rows keeps identifiers unique. */
  lemma RemoveOffsetsUnique(cards: seq<Card>, offsets: set<nat>)
    requires UniqueIds(cards)
    ensures UniqueIds(RemoveOffsets(cards, offsets))
  {
    var r := RemoveOffsets(cards, offsets);
    forall a, b | 0 <= a < b < |r|
      ensures r[a].id != r[b].id
    {
      var i := SurvivorOf(cards, offsets, a);
      var j := SurvivorOf(cards, offsets, b);
      if j < i { KeptMonotone(offsets, j, i); }
    }
  }

  /** The identifiers left are exactly those of the rows not deleted. */
  lemma RemoveOffsetsIds(cards: seq<Card>, offsets: set<nat>)
    ensures Ids(RemoveOffsets(cards, offsets))
            == set i | 0 <= i < |cards| && i !in offsets :: cards[i].id
  {
    var r := RemoveOffsets(cards, offsets);
    var kept := set i | 0 <= i < |cards| && i !in offsets :: cards[i].id;
    forall c | c in r
      ensures c.id in kept
    {
      var k :| 0 <= k < |r| && r[k] == c;
      var i := SurvivorOf(cards, offsets, k);
    }
    forall i | 0 <= i < |cards| && i !in offsets
      ensures cards[i].id in Ids(r)
    {
      RemoveOffsetsKeeps(cards, offsets, i);
      assert r[Kept(offsets, i)] in r;
    }
  }

  /** Under unique identifiers the identifiers left are exactly those of the
      rows not deleted, and the list stays well numbered. */
  lemma RemoveCardsIds(e: EditorState, offsets: set<nat>)
    requires Valid(e)
    requires forall o :: o in offsets ==> o < |e.cards|
    ensures var r := RemoveCards(e, offsets);
            && Valid(r)
            && Ids(r.cards) == set i | 0 <= i < |e.cards| && i !in offsets :: e.cards[i].id
  {
    var r := RemoveCards(e, offsets);
    RemoveOffsetsUnique(e.cards, offsets);
    RemoveOffsetsIds(e.cards, offsets);
    forall c | c in r.cards
      ensures c.id < r.nextId
    {
      var k :| 0 <= k < |r.cards| && r.cards[k] == c;
      var i := SurvivorOf(e.cards, offsets, k);
      assert e.cards[i] in e.cards;
    }
  }

  /** The sheet appearing: the stored deck replaces the list when it can be
      read and decoded; otherwise the list stays as it was. The counter
      moves past every loaded identifier. */
  function Load(e: EditorState, stored: Option<seq<Card>>): (r: EditorState)
    ensures stored.None? ==> r == e
    ensures stored.Some? ==> r.cards == stored.value && IdsBelow(r.cards, r.nextId)
    ensures stored.Some? && UniqueIds(stored.value) ==> Valid(r)
    ensures r.nextId >= e.nextId && r.writes == e.writes
    ensures r.newPrompt == e.newPrompt && r.newAnswer == e.newAnswer
  {
    match stored
    case None => e
    case Some(deck) => e.(cards := deck, nextId := Max(e.nextId, FreshBound(deck)))
  }

  /** Blank fields, or fields holding only spaces and tabs, are rejected. */
  lemma BlankFieldsAreRejected(e: EditorState)
    requires e.newPrompt == "" || e.newAnswer == " \t"
    ensures AddCard(e) == e
  {
  }
}
