/**
  Case-insensitive substring search as Kotlin's `String.contains(other,
  ignoreCase = true)` performs it: try every start position in order and
  compare the region character by character with `Char.equals(ignoreCase)`.
  Case mapping is modelled for ASCII letters only.
 */
module Text {

  function LowerAscii(c: char): char {
    if 'A' <= c <= 'Z' then (c as int + 32) as char else c
  }

  function UpperAscii(c: char): char {
    if 'a' <= c <= 'z' then (c as int - 32) as char else c
  }

  /** `Char.equals(other, ignoreCase = true)`: equal as they are, after upper-casing,
      or after upper- then lower-casing. */
  predicate CharEqualsIgnoreCase(a: char, b: char) {
    || a == b
    || UpperAscii(a) == UpperAscii(b)
    || LowerAscii(UpperAscii(a)) == LowerAscii(UpperAscii(b))
  }

  /** The string with every ASCII capital replaced by its small letter. */
  function FoldCase(s: string): string {
    seq(|s|, i requires 0 <= i < |s| => LowerAscii(s[i]))
  }

  /** `needle` appears in `hay` starting at position `i`. */
  ghost predicate OccursAt(needle: string, hay: string, i: int) {
    0 <= i && i + |needle| <= |hay| && hay[i..i + |needle|] == needle
  }

  ghost predicate OccursIn(needle: string, hay: string) {
    exists i :: OccursAt(needle, hay, i)
  }

  /** `other.regionMatches(0, this, at, other.length, ignoreCase = true)`. */
  predicate RegionMatches(hay: string, at: int, needle: string) {
    && 0 <= at
    && at + |needle| <= |hay|
    && forall k :: 0 <= k < |needle| ==> CharEqualsIgnoreCase(hay[at + k], needle[k])
  }

  /** `indexOf(needle, from, ignoreCase = true)`: the first position at or after
      `from` where the needle matches, or -1. */
  function IndexOfIgnoreCase(hay: string, needle: string, from: nat): (r: int)
    ensures r == -1 || (from <= r && RegionMatches(hay, r, needle))
    ensures forall j :: from <= j && (r == -1 || j < r) ==> !RegionMatches(hay, j, needle)
    decreases |hay| - from
  {
    if from + |needle| > |hay| then -1
    else if RegionMatches(hay, from, needle) then from
    else IndexOfIgnoreCase(hay, needle, from + 1)
  }

  /** `hay.contains(needle, ignoreCase = true)`. */
  predicate ContainsIgnoreCase(hay: string, needle: string) {
    IndexOfIgnoreCase(hay, needle, 0) >= 0
  }

  /** Kotlin's character comparison ignoring case is equality of ASCII-folded characters. */
  lemma CharEqualsIgnoreCaseIsFolding(a: char, b: char)
    ensures CharEqualsIgnoreCase(a, b) <==> LowerAscii(a) == LowerAscii(b)
  {
  }

  /** A region matches exactly when the folded needle occurs in the folded hay there. */
  lemma RegionMatchesIsFoldedOccurrence(hay: string, at: int, needle: string)
    ensures RegionMatches(hay, at, needle) <==> OccursAt(FoldCase(needle), FoldCase(hay), at)
  {
    var fh, fn := FoldCase(hay), FoldCase(needle);
    if 0 <= at && at + |needle| <= |hay| {
      forall k | 0 <= k < |needle|
        ensures CharEqualsIgnoreCase(hay[at + k], needle[k]) <==> fh[at..at + |needle|][k] == fn[k]
      {
        CharEqualsIgnoreCaseIsFolding(hay[at + k], needle[k]);
      }
      if RegionMatches(hay, at, needle) {
        assert fh[at..at + |needle|] == fn;
      }
    }
  }

  /** Searching ignoring case finds the needle exactly when its folded form is a
      substring of the folded hay. */
  lemma ContainsIgnoreCaseIsFoldedSubstring(hay: string, needle: string)
    ensures ContainsIgnoreCase(hay, needle) <==> OccursIn(FoldCase(needle), FoldCase(hay))
  {
    var r := IndexOfIgnoreCase(hay, needle, 0);
    if r >= 0 {
      RegionMatchesIsFoldedOccurrence(hay, r, needle);
    } else {
      forall i | OccursAt(FoldCase(needle), FoldCase(hay), i)
        ensures false
      {
        RegionMatchesIsFoldedOccurrence(hay, i, needle);
      }
    }
  }

  /** The search depends on the needle only through its folded form. */
  lemma ContainsIgnoresNeedleCase(hay: string, n1: string, n2: string)
    requires FoldCase(n1) == FoldCase(n2)
    ensures ContainsIgnoreCase(hay, n1) <==> ContainsIgnoreCase(hay, n2)
  {
    ContainsIgnoreCaseIsFoldedSubstring(hay, n1);
    ContainsIgnoreCaseIsFoldedSubstring(hay, n2);
  }

  /** Every string contains the empty string. */
  lemma ContainsEmpty(hay: string)
    ensures ContainsIgnoreCase(hay, "")
  {
    assert RegionMatches(hay, 0, "");
  }
}
