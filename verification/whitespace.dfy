/**
 * Trimming as the deck editor does it: `trimmingCharacters(in: .whitespaces)`.
 *
 * Foundation's `.whitespaces` set is Unicode general category Zs (space
 * separators) plus the horizontal tab. Line breaks (U+000A, U+000D, ...) are
 * NOT members, so trimming leaves them in place. Characters are taken as
 * Unicode scalar values.
 */
module Whitespace {

  /** The code points of `.whitespaces`, listed one by one: the horizontal
      tab and the seventeen space separators of category Zs. */
  const WhitespaceCodePoints: set<int> := {
    0x09, 0x20, 0xA0, 0x1680,
    0x2000, 0x2001, 0x2002, 0x2003, 0x2004, 0x2005,
    0x2006, 0x2007, 0x2008, 0x2009, 0x200A,
    0x202F, 0x205F, 0x3000 }

  /** Membership in `.whitespaces`: U+0009 and the Zs code points. Line
      feed, carriage return and the other line breaks are not members. */
  function IsSpace(c: char): (b: bool)
    ensures b <==> c as int in WhitespaceCodePoints
    ensures c == '\n' || c == '\r' || c as int == 0x0B || c as int == 0x0C ==> !b
  {
    var n := c as int;
    || n == 0x09
    || n == 0x20
    || n == 0xA0
    || n == 0x1680
    || 0x2000 <= n <= 0x200A
    || n == 0x202F
    || n == 0x205F
    || n == 0x3000
  }

  predicate AllSpace(s: string)
  {
    forall i :: 0 <= i < |s| ==> IsSpace(s[i])
  }

  /** Neither end of `s` is a whitespace character. */
  predicate Trimmed(s: string)
  {
    |s| == 0 || (!IsSpace(s[0]) && !IsSpace(s[|s| - 1]))
  }

  /** The first position at or after `i` that does not hold whitespace
      (`|s|` when there is none). */
  function SkipSpaces(s: string, i: nat): (k: nat)
    requires i <= |s|
    ensures i <= k <= |s|
    ensures forall j :: i <= j < k ==> IsSpace(s[j])
    ensures k == |s| || !IsSpace(s[k])
    decreases |s| - i
  {
    if i < |s| && IsSpace(s[i]) then SkipSpaces(s, i + 1) else i
  }

  /** The position just after the last non-whitespace character in
      `s[lo..j]` (`lo` when there is none). */
  function SkipSpacesBack(s: string, lo: nat, j: nat): (k: nat)
    requires lo <= j <= |s|
    ensures lo <= k <= j
    ensures forall i :: k <= i < j ==> IsSpace(s[i])
    ensures k == lo || !IsSpace(s[k - 1])
    decreases j - lo
  {
    if lo < j && IsSpace(s[j - 1]) then SkipSpacesBack(s, lo, j - 1) else j
  }

  /** `s` without leading and trailing whitespace: a slice of `s` that starts
      at the first non-whitespace character, everything cut off on either
      side is whitespace, and the slice itself neither starts nor ends with
      whitespace. */
  function Trim(s: string): (r: string)
    ensures Trimmed(r)
    ensures var a := SkipSpaces(s, 0);
              a + |r| <= |s| && r == s[a..a + |r|]
              && AllSpace(s[..a]) && AllSpace(s[a + |r|..])
  {
    var a := SkipSpaces(s, 0);
    var b := SkipSpacesBack(s, a, |s|);
    s[a..b]
  }

  /** The trimmed text is uniquely determined: any split of `s` into a
      whitespace prefix, a trimmed middle and a whitespace suffix, whose
      middle is non-empty, has `Trim(s)` as its middle. */
  lemma TrimUnique(s: string, p: string, m: string, q: string)
    requires s == p + m + q
    requires AllSpace(p) && AllSpace(q) && Trimmed(m) && |m| > 0
    ensures Trim(s) == m
  {
    var a := SkipSpaces(s, 0);
    assert s[|p|] == m[0];
    assert forall j :: 0 <= j < |p| ==> s[j] == p[j];
    assert a == |p|;
    var b := SkipSpacesBack(s, a, |s|);
    var e := |p| + |m|;
    assert s[e - 1] == m[|m| - 1];
    assert forall j :: e <= j < |s| ==> s[j] == q[j - e];
    assert b == e;
    assert s[a..b] == m;
  }

  /** Trimming leaves nothing exactly when every character is whitespace. */
  lemma TrimEmptyIff(s: string)
    ensures |Trim(s)| == 0 <==> AllSpace(s)
  {
    var a := SkipSpaces(s, 0);
    if AllSpace(s) {
      assert a == |s|;
    } else {
      var i :| 0 <= i < |s| && !IsSpace(s[i]);
      assert a <= i;
      assert a < |s| && !IsSpace(s[a]);
      var b := SkipSpacesBack(s, a, |s|);
      assert a < b;
    }
  }

  /** Trimming twice is trimming once. */
  lemma TrimIdempotent(s: string)
    ensures Trim(Trim(s)) == Trim(s)
  {
    var r := Trim(s);
    if |r| > 0 {
      assert r == [] + r + [];
      TrimUnique(r, [], r, []);
    } else {
      TrimEmptyIff(r);
    }
  }

  /** Every character outside `.whitespaces` is inside the trimmed text, at
      its own place: trimming removes only whitespace from the two ends. */
  lemma TrimKeepsNonSpace(s: string, i: nat)
    requires i < |s| && !IsSpace(s[i])
    ensures var a := SkipSpaces(s, 0);
            a <= i < a + |Trim(s)| && Trim(s)[i - a] == s[i]
  {
    var a := SkipSpaces(s, 0);
    assert s[i] == s[a..][i - a];
  }

  /** Line breaks are not in `.whitespaces`, so every line break of the
      input is kept, at its own place shifted by the leading whitespace. */
  lemma TrimKeepsNewlines(s: string, i: nat)
    requires i < |s| && (s[i] == '\n' || s[i] == '\r')
    ensures var a := SkipSpaces(s, 0);
            a <= i < a + |Trim(s)| && Trim(s)[i - a] == s[i]
  {
    TrimKeepsNonSpace(s, i);
  }

  /** Two concrete inputs: spaces and tabs around a line break go, the line
      break stays. */
  lemma TrimExamples()
    ensures Trim(" \n\t") == "\n"
    ensures Trim("\tab\n ") == "ab\n"
  {
    assert " \n\t" == " " + "\n" + "\t";
    TrimUnique(" \n\t", " ", "\n", "\t");
    assert "\tab\n " == "\t" + "ab\n" + " ";
    TrimUnique("\tab\n ", "\t", "ab\n", " ");
  }
}
