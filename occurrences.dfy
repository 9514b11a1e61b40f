/** The common specification of the three exact string matchers: the
    ascending list of every offset at which a pattern occurs in a text,
    overlapping occurrences included. */
module OccurrenceSpec {

  /** The pattern occurs in the text starting at offset `s`. */
  predicate MatchesAt(text: seq<char>, pattern: seq<char>, s: int)
  {
    0 <= s && s + |pattern| <= |text| &&
    forall k :: 0 <= k < |pattern| ==> text[s + k] == pattern[k]
  }

  /** Every element is smaller than the next one. */
  predicate StrictlyIncreasing(xs: seq<int>)
  {
    forall a, b :: 0 <= a < b < |xs| ==> xs[a] < xs[b]
  }

  /** The occurrence offsets below `bound`, in ascending order. */
  ghost function OccurrencesBelow(text: seq<char>, pattern: seq<char>, bound: nat): seq<int>
  {
    if bound == 0 then []
    else OccurrencesBelow(text, pattern, bound - 1)
         + (if MatchesAt(text, pattern, bound - 1) then [bound - 1] else [])
  }

  /** All occurrence offsets of `pattern` in `text`, in ascending order.
      No offset above |text| can be an occurrence, not even of the empty pattern. */
  ghost function Occurrences(text: seq<char>, pattern: seq<char>): seq<int>
  {
    OccurrencesBelow(text, pattern, |text| + 1)
  }

  /** MatchesAt is the comparison of the window text[s..s+|pattern|] with
      the pattern. */
  lemma MatchesAtIsWindowEquality(text: seq<char>, pattern: seq<char>, s: int)
    requires 0 <= s && s + |pattern| <= |text|
    ensures MatchesAt(text, pattern, s) <==> text[s..s + |pattern|] == pattern
  {
  }

  /** Appending a value above every element keeps a list strictly increasing. */
  lemma AppendAbove(xs: seq<int>, v: int)
    requires StrictlyIncreasing(xs)
    requires forall x :: x in xs ==> x < v
    ensures StrictlyIncreasing(xs + [v])
  {
    forall a, b | 0 <= a < b < |xs + [v]| ensures (xs + [v])[a] < (xs + [v])[b] {
      assert xs[a] in xs;
    }
  }

  /** OccurrencesBelow lists, in ascending order, exactly the offsets below
      `bound` at which the pattern occurs. */
  lemma {:induction false} OccurrencesBelowMeaning(text: seq<char>, pattern: seq<char>, bound: nat)
    ensures StrictlyIncreasing(OccurrencesBelow(text, pattern, bound))
    ensures forall s :: s in OccurrencesBelow(text, pattern, bound) <==>
              0 <= s < bound && MatchesAt(text, pattern, s)
  {
    if bound > 0 {
      OccurrencesBelowMeaning(text, pattern, bound - 1);
      var prev := OccurrencesBelow(text, pattern, bound - 1);
      var last := if MatchesAt(text, pattern, bound - 1) then [bound - 1] else [];
      assert OccurrencesBelow(text, pattern, bound) == prev + last;
      forall s ensures s in prev + last <==> 0 <= s < bound && MatchesAt(text, pattern, s) {
        assert s in prev + last <==> s in prev || s in last;
      }
      forall a, b | 0 <= a < b < |prev + last|
        ensures (prev + last)[a] < (prev + last)[b]
      {
        if b >= |prev| {
          assert prev[a] in prev;
        }
      }
    }
  }

  /** The centrepiece: Occurrences is strictly ascending and holds exactly the
      offsets at which the pattern occurs. */
  lemma OccurrencesMeaning(text: seq<char>, pattern: seq<char>)
    ensures StrictlyIncreasing(Occurrences(text, pattern))
    ensures forall s :: s in Occurrences(text, pattern) <==> MatchesAt(text, pattern, s)
  {
    OccurrencesBelowMeaning(text, pattern, |text| + 1);
  }

  /** Two strictly ascending lists with the same elements are equal, so the
      property of OccurrencesMeaning pins Occurrences down. */
  lemma {:induction false} AscendingListsWithSameElementsAreEqual(xs: seq<int>, ys: seq<int>)
    requires StrictlyIncreasing(xs) && StrictlyIncreasing(ys)
    requires forall v :: v in xs <==> v in ys
    ensures xs == ys
  {
    if xs != [] {
      assert xs[0] in xs;
    }
    if ys != [] {
      assert ys[0] in ys;
    }
    if xs != [] {
      // both heads are the minimum of the same set of elements
      assert xs[0] in ys && ys[0] in xs;
      var i :| 0 <= i < |xs| && xs[i] == ys[0];
      var j :| 0 <= j < |ys| && ys[j] == xs[0];
      assert xs[0] <= xs[i] && ys[0] <= ys[j];
      forall v ensures v in xs[1..] <==> v in ys[1..] {
        if v in xs[1..] {
          var i :| 1 <= i < |xs| && xs[i] == v;
          assert xs[0] < v && v in xs;
        }
        if v in ys[1..] {
          var j :| 1 <= j < |ys| && ys[j] == v;
          assert ys[0] < v && v in ys;
        }
      }
      AscendingListsWithSameElementsAreEqual(xs[1..], ys[1..]);
      assert xs == [xs[0]] + xs[1..];
      assert ys == [ys[0]] + ys[1..];
    }
  }

  /** A range of offsets holding no occurrence adds nothing to the list: the
      fact every skip of a matcher relies on. */
  lemma {:induction false} OccurrencesBelowSkip(text: seq<char>, pattern: seq<char>, lo: nat, hi: nat)
    requires lo <= hi
    requires forall s :: lo <= s < hi ==> !MatchesAt(text, pattern, s)
    ensures OccurrencesBelow(text, pattern, hi) == OccurrencesBelow(text, pattern, lo)
  {
    if lo < hi {
      OccurrencesBelowSkip(text, pattern, lo, hi - 1);
    }
  }

  /** Offsets past |text| - |pattern| are never occurrences, so the list is
      complete as soon as the bound passes that offset. */
  lemma OccurrencesBelowComplete(text: seq<char>, pattern: seq<char>, bound: nat)
    requires |text| - |pattern| < bound <= |text| + 1
    ensures OccurrencesBelow(text, pattern, bound) == Occurrences(text, pattern)
  {
    OccurrencesBelowSkip(text, pattern, bound, |text| + 1);
  }

  /** A pattern longer than the text occurs nowhere. */
  lemma NoOccurrencesOfLongerPattern(text: seq<char>, pattern: seq<char>)
    requires |pattern| > |text|
    ensures Occurrences(text, pattern) == []
  {
    OccurrencesBelowSkip(text, pattern, 0, |text| + 1);
  }

  /** A pattern equal to the text occurs exactly once, at offset 0. */
  lemma OccurrencesOfWholeText(text: seq<char>)
    ensures Occurrences(text, text) == [0]
  {
    assert MatchesAt(text, text, 0);
    OccurrencesBelowSkip(text, text, 1, |text| + 1);
    assert OccurrencesBelow(text, text, 1) == [0];
  }
}
