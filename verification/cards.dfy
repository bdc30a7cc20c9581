/**
 * The flashcard record shared by the review session and the deck editor,
 * together with the identifier bookkeeping both of them rely on.
 *
 * The application gives every card a random UUID when it is created. Here an
 * identifier is a natural number taken from a counter (`nextId`) that is kept
 * strictly above every identifier in use, so that "the new card's identifier
 * is fresh" is a checkable invariant (`WellNumbered`) rather than a
 * probabilistic hope.
 */
module Cards {

  /** A flashcard: an identifier plus the prompt and answer texts. */
  datatype Card = Card(id: nat, prompt: string, answer: string)

  /** The outcome of reading and decoding a stored deck: `None` when there is
      no stored data or it cannot be decoded. */
  datatype Option<+T> = None | Some(value: T)

  /** The identifiers carried by a sequence of cards. */
  function Ids(cards: seq<Card>): set<nat>
  {
    set c | c in cards :: c.id
  }

  /** No two positions of the sequence carry the same identifier. */
  predicate UniqueIds(cards: seq<Card>)
  {
    forall i, j :: 0 <= i < j < |cards| ==> cards[i].id != cards[j].id
  }

  /** Every identifier in the sequence is below `bound`, so `bound` (and any
      larger number) is free to be handed out. */
  predicate IdsBelow(cards: seq<Card>, bound: nat)
  {
    forall c :: c in cards ==> c.id < bound
  }

  /** The invariant of every card list the application keeps: identifiers are
      unique and the counter is ahead of all of them. */
  predicate WellNumbered(cards: seq<Card>, nextId: nat)
  {
    UniqueIds(cards) && IdsBelow(cards, nextId)
  }

  function Max(a: nat, b: nat): nat
  {
    if a < b then b else a
  }

  /** The least counter value that is fresh for `cards`: one more than the
      largest identifier, or 0 for an empty deck. Used to resume numbering
      after a deck is loaded from storage. */
  function FreshBound(cards: seq<Card>): (b: nat)
    ensures IdsBelow(cards, b)
    ensures b == 0 || b - 1 in Ids(cards)
  {
    if |cards| == 0 then 0
    else
      var rest := FreshBound(cards[1..]);
      assert forall c :: c in cards[1..] ==> c in cards;
      assert forall c :: c in cards ==> c == cards[0] || c in cards[1..];
      Max(cards[0].id + 1, rest)
  }

  /** `xs` with the element at position `i` taken out (Swift's
      `remove(at:)`). */
  function RemoveAt<T>(xs: seq<T>, i: nat): (r: seq<T>)
    requires i < |xs|
    ensures |r| == |xs| - 1
    ensures forall k :: 0 <= k < i ==> r[k] == xs[k]
    ensures forall k :: i <= k < |r| ==> r[k] == xs[k + 1]
  {
    xs[..i] + xs[i + 1..]
  }

  /** Taking a card out keeps the other identifiers, drops exactly the
      removed one when identifiers are unique, and keeps the deck
      well numbered. */
  lemma RemoveAtIds(cards: seq<Card>, i: nat, nextId: nat)
    requires i < |cards|
    requires WellNumbered(cards, nextId)
    ensures Ids(RemoveAt(cards, i)) == Ids(cards) - {cards[i].id}
    ensures WellNumbered(RemoveAt(cards, i), nextId)
  {
    var r := RemoveAt(cards, i);
    forall c | c in r
      ensures c in cards && c.id != cards[i].id
    {
      var k :| 0 <= k < |r| && r[k] == c;
      if k < i {
        assert r[k] == cards[k];
      } else {
        assert r[k] == cards[k + 1];
      }
    }
    forall c | c in cards && c.id != cards[i].id
      ensures c.id in Ids(r)
    {
      var k :| 0 <= k < |cards| && cards[k] == c;
      if k < i {
        assert r[k] == c;
      } else {
        assert k != i;
        assert r[k - 1] == c;
      }
    }
    forall a, b | 0 <= a < b < |r|
      ensures r[a].id != r[b].id
    {
      var a' := if a < i then a else a + 1;
      var b' := if b < i then b else b + 1;
      assert r[a] == cards[a'] && r[b] == cards[b'];
    }
  }
}
