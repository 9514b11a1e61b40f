/** Boyer-Moore search with the bad-character rule (Task_3.py). */
module BoyerMoore {
  import opened OccurrenceSpec

  /** `table` maps exactly the symbols of `pattern`, each to the last index
      at which it occurs there. */
  ghost predicate IsLastOccurrenceTable(pattern: seq<char>, table: map<char, int>)
  {
    (forall c :: c in table <==> c in pattern) &&
    forall c :: c in table ==>
      0 <= table[c] < |pattern| && pattern[table[c]] == c &&
      forall k :: table[c] < k < |pattern| ==> pattern[k] != c
  }

  /** The table's entry for `c`, or -1 when `c` is not a key: the last index
      of `c` in the pattern the table was built from, -1 when `c` does not
      occur there. */
  function Lookup(pattern: seq<char>, table: map<char, int>, c: char): (r: int)
    requires IsLastOccurrenceTable(pattern, table)
    ensures -1 <= r < |pattern|
    ensures r == -1 <==> c !in pattern
    ensures r >= 0 ==> pattern[r] == c
    ensures forall k :: r < k < |pattern| ==> pattern[k] != c
  {
    if c in table then table[c] else -1
  }

  /** Builds the last-occurrence table; a later index of a symbol overwrites
      an earlier one. */
  method BadCharacterTable(pattern: seq<char>) returns (table: map<char, int>)
    ensures IsLastOccurrenceTable(pattern, table)
  {
    table := map[];
    for i := 0 to |pattern|
      invariant IsLastOccurrenceTable(pattern[..i], table)
    {
      table := table[pattern[i] := i];
      assert pattern[..i + 1] == pattern[..i] + [pattern[i]];
    }
    assert pattern[..|pattern|] == pattern;
  }

  /** The shift after a full match at `shift`: keyed on the text symbol just
      past the window when there is one, else 1. */
  function SkipAfterMatch(text: seq<char>, pattern: seq<char>, table: map<char, int>, shift: nat): (r: int)
    requires IsLastOccurrenceTable(pattern, table)
    requires shift + |pattern| <= |text|
    ensures 1 <= r <= |pattern| + 1
    ensures shift + |pattern| < |text| && text[shift + |pattern|] !in pattern ==> r == |pattern| + 1
  {
    if shift + |pattern| < |text| then |pattern| - Lookup(pattern, table, text[shift + |pattern|]) else 1
  }

  /** The shift after a mismatch at pattern index `j`, never less than 1. */
  function SkipAfterMismatch(text: seq<char>, pattern: seq<char>, table: map<char, int>, shift: nat, j: nat): (r: int)
    requires IsLastOccurrenceTable(pattern, table)
    requires j < |pattern| && shift + |pattern| <= |text|
    ensures 1 <= r <= j + 1
    ensures text[shift + j] !in pattern ==> r == j + 1
  {
    var skip := j - Lookup(pattern, table, text[shift + j]);
    if 1 < skip then skip else 1
  }

  /** The shift after a match is positive and jumps over no occurrence. */
  lemma SkipAfterMatchIsSafe(text: seq<char>, pattern: seq<char>, table: map<char, int>, shift: nat)
    requires IsLastOccurrenceTable(pattern, table)
    requires shift + |pattern| <= |text|
    ensures SkipAfterMatch(text, pattern, table, shift) >= 1
    ensures forall s :: shift < s < shift + SkipAfterMatch(text, pattern, table, shift) ==>
              !MatchesAt(text, pattern, s)
  {
    var m := |pattern|;
    var skip := SkipAfterMatch(text, pattern, table, shift);
    forall s | shift < s < shift + skip
      ensures !MatchesAt(text, pattern, s)
    {
      // an occurrence at s would cover the text symbol just past the window,
      // at a pattern index after the last one holding that symbol
      var k := shift + m - s;
      var c := text[shift + m];
      assert pattern[k] != c by {
        if c in table {
          assert table[c] < k;
        } else {
          assert c !in pattern;
        }
      }
      assert text[s + k] == c;
    }
  }

  /** The shift after a mismatch is positive and jumps over no occurrence;
      the current alignment itself is not an occurrence. */
  lemma SkipAfterMismatchIsSafe(text: seq<char>, pattern: seq<char>, table: map<char, int>, shift: nat, j: nat)
    requires IsLastOccurrenceTable(pattern, table)
    requires j < |pattern| && shift + |pattern| <= |text|
    requires pattern[j] != text[shift + j]
    ensures SkipAfterMismatch(text, pattern, table, shift, j) >= 1
    ensures forall s :: shift <= s < shift + SkipAfterMismatch(text, pattern, table, shift, j) ==>
              !MatchesAt(text, pattern, s)
  {
    var skip := SkipAfterMismatch(text, pattern, table, shift, j);
    forall s | shift <= s < shift + skip
      ensures !MatchesAt(text, pattern, s)
    {
      // an occurrence at s would put the mismatched text symbol at a pattern
      // index after the last one holding that symbol
      var k := shift + j - s;
      var c := text[shift + j];
      assert pattern[k] != c by {
        if c in table {
          assert table[c] < k || s == shift;
        } else {
          assert c !in pattern;
        }
      }
      assert text[s + k] == c;
    }
  }

  /** Reports every offset of `pattern` in `text`, in ascending order. */
  method BoyerMooreSearch(text: seq<char>, pattern: seq<char>) returns (matches: seq<int>)
    ensures matches == Occurrences(text, pattern)
  {
    var badChar := BadCharacterTable(pattern);
    matches := [];
    var m := |pattern|;
    var n := |text|;
    var shift := 0;
    while shift <= n - m
      invariant 0 <= shift <= n + 1
      invariant matches == OccurrencesBelow(text, pattern, shift)
    {
      var j := m - 1;
      while j >= 0 && pattern[j] == text[shift + j]
        invariant -1 <= j < m
        invariant forall k :: j < k < m ==> pattern[k] == text[shift + k]
      {
        j := j - 1;
      }
      if j < 0 {
        assert MatchesAt(text, pattern, shift);
        matches := matches + [shift];
        SkipAfterMatchIsSafe(text, pattern, badChar, shift);
        var skip := SkipAfterMatch(text, pattern, badChar, shift);
        OccurrencesBelowSkip(text, pattern, shift + 1, shift + skip);
        shift := shift + skip;
      } else {
        SkipAfterMismatchIsSafe(text, pattern, badChar, shift, j);
        var skip := SkipAfterMismatch(text, pattern, badChar, shift, j);
        OccurrencesBelowSkip(text, pattern, shift, shift + skip);
        shift := shift + skip;
      }
    }
    OccurrencesBelowComplete(text, pattern, shift);
  }
}
