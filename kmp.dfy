/** Knuth-Morris-Pratt search and its prefix (failure) table (Task_3.py). */
module Kmp {
  import opened OccurrenceSpec

  /** `len` is the length of a proper border of the prefix pattern[..q]:
      a proper prefix of pattern[..q] that is also a suffix of it. */
  ghost predicate IsBorder(pattern: seq<char>, q: int, len: int)
  {
    0 <= len < q <= |pattern| &&
    forall k :: 0 <= k < len ==> pattern[k] == pattern[q - len + k]
  }

  /** `len` is the length of the longest proper border of pattern[..q]. */
  ghost predicate IsLongestBorder(pattern: seq<char>, q: int, len: int)
  {
    IsBorder(pattern, q, len) &&
    forall l :: len < l < q ==> !IsBorder(pattern, q, l)
  }

  /** `lps[i]` is the length of the longest proper border of pattern[..i+1]. */
  ghost predicate IsPrefixTable(pattern: seq<char>, lps: seq<int>)
  {
    |lps| == |pattern| &&
    forall i :: 0 <= i < |pattern| ==> IsLongestBorder(pattern, i + 1, lps[i])
  }

  /** A border of pattern[..q+1] one symbol longer than `len` is a border of
      pattern[..q] of length `len` followed by a matching symbol. */
  lemma BorderExtension(pattern: seq<char>, q: int, len: int)
    requires 0 <= len < q < |pattern|
    ensures IsBorder(pattern, q + 1, len + 1) <==>
            IsBorder(pattern, q, len) && pattern[len] == pattern[q]
  {
  }

  /** A border of a border is a border. */
  lemma BorderOfBorder(pattern: seq<char>, q: int, outer: int, inner: int)
    requires IsBorder(pattern, q, outer) && IsBorder(pattern, outer, inner)
    ensures IsBorder(pattern, q, inner)
  {
    forall k | 0 <= k < inner ensures pattern[k] == pattern[q - inner + k] {
      assert pattern[k] == pattern[outer - inner + k];
      assert pattern[outer - inner + k] == pattern[q - outer + (outer - inner + k)];
    }
  }

  /** Of two borders of the same prefix, the shorter is a border of the longer. */
  lemma ShorterBorderIsBorderOfLonger(pattern: seq<char>, q: int, longer: int, shorter: int)
    requires IsBorder(pattern, q, longer) && 0 <= shorter < longer
    ensures IsBorder(pattern, q, shorter) ==> IsBorder(pattern, longer, shorter)
  {
    if IsBorder(pattern, q, shorter) {
      forall k | 0 <= k < shorter ensures pattern[k] == pattern[longer - shorter + k] {
        assert pattern[k] == pattern[q - shorter + k];
        assert pattern[longer - shorter + k] == pattern[q - longer + (longer - shorter + k)];
      }
    }
  }

  /** Builds the prefix table with the cursors `i` (the prefix being
      extended) and `length` (the border being tried). */
  method ComputeLps(pattern: seq<char>) returns (lps: seq<int>)
    ensures IsPrefixTable(pattern, lps)
    ensures |pattern| > 0 ==> lps[0] == 0
    ensures forall i :: 0 <= i < |lps| ==> 0 <= lps[i] <= i
  {
    lps := seq(|pattern|, _ => 0);
    var length := 0;
    var i := 1;
    while i < |pattern|
      invariant 1 <= i && (|pattern| == 0 || i <= |pattern|)
      invariant |lps| == |pattern|
      invariant forall k :: 0 <= k < i && k < |pattern| ==> IsLongestBorder(pattern, k + 1, lps[k])
      invariant 0 <= length < i
      invariant i <= |pattern| ==> IsBorder(pattern, i, length)
      // every border longer than `length` was tried and rejected
      invariant i < |pattern| ==>
        forall l :: length < l < i && IsBorder(pattern, i, l) ==> pattern[l] != pattern[i]
      decreases |pattern| - i, length
    {
      if pattern[i] == pattern[length] {
        BorderExtension(pattern, i, length);
        var q := i + 1;
        forall l | length + 1 < l < q ensures !IsBorder(pattern, q, l) {
          BorderExtension(pattern, i, l - 1);
        }
        length := length + 1;
        lps := lps[i := length];
        i := i + 1;
      } else {
        if length != 0 {
          var shorter := lps[length - 1];
          BorderOfBorder(pattern, i, length, shorter);
          forall l | shorter < l < length ensures !IsBorder(pattern, i, l) {
            ShorterBorderIsBorderOfLonger(pattern, i, length, l);
          }
          forall l | shorter < l < i && IsBorder(pattern, i, l) ensures pattern[l] != pattern[i] {
            assert length <= l;
          }
          length := shorter;
        } else {
          var q := i + 1;
          forall l | 0 < l < q ensures !IsBorder(pattern, q, l) {
            BorderExtension(pattern, i, l - 1);
          }
          lps := lps[i := 0];
          i := i + 1;
        }
      }
    }
  }

  /** The first `j` symbols of the pattern match the text just before
      offset `i`. */
  ghost predicate MatchedBefore(text: seq<char>, pattern: seq<char>, i: int, j: int)
  {
    0 <= j <= i <= |text| && j <= |pattern| &&
    forall k :: 0 <= k < j ==> pattern[k] == text[i - j + k]
  }

  /** Falling back from the matched pattern[..j] to its longest border `b`
      keeps a match ending at `i` and skips no occurrence: every alignment
      strictly between i - j and i - b is not an occurrence. */
  lemma FallbackIsSafe(text: seq<char>, pattern: seq<char>, i: int, j: int, b: int)
    requires MatchedBefore(text, pattern, i, j) && j > 0
    requires IsLongestBorder(pattern, j, b)
    ensures MatchedBefore(text, pattern, i, b)
    ensures OccurrencesBelow(text, pattern, i - b) == OccurrencesBelow(text, pattern, i - j + 1)
  {
    forall s | i - j < s < i - b ensures !MatchesAt(text, pattern, s) {
      var l := i - s;
      // an occurrence at s would make pattern[..l] a border of pattern[..j]
      // longer than the longest one
      assert !IsBorder(pattern, j, l);
      if MatchesAt(text, pattern, s) {
        forall k | 0 <= k < l ensures pattern[k] == pattern[j - l + k] {
          assert pattern[k] == text[s + k];
          assert pattern[j - l + k] == text[i - j + (j - l + k)];
        }
        assert IsBorder(pattern, j, l);
      }
    }
    OccurrencesBelowSkip(text, pattern, i - j + 1, i - b);
    forall k | 0 <= k < b ensures pattern[k] == text[i - b + k] {
      assert pattern[k] == pattern[j - b + k];
      assert pattern[j - b + k] == text[i - j + (j - b + k)];
    }
  }

  /** Reports every offset of a non-empty `pattern` in `text`, overlapping
      ones included, in ascending order. The empty pattern is indexed at
      position 0 as soon as the text is non-empty. */
  method KmpSearch(text: seq<char>, pattern: seq<char>) returns (matches: seq<int>)
    requires |pattern| > 0 || |text| == 0
    ensures |pattern| > 0 ==> matches == Occurrences(text, pattern)
    ensures |pattern| == 0 ==> matches == []
  {
    var lps := ComputeLps(pattern);
    matches := [];
    var i := 0;
    var j := 0;
    while i < |text|
      invariant MatchedBefore(text, pattern, i, j)
      invariant |pattern| > 0 ==> j < |pattern|
      invariant matches == OccurrencesBelow(text, pattern, i - j)
      decreases |text| - i, j
    {
      if pattern[j] == text[i] {
        i := i + 1;
        j := j + 1;
      }
      if j == |pattern| {
        assert MatchesAt(text, pattern, i - j);
        matches := matches + [i - j];
        FallbackIsSafe(text, pattern, i, j, lps[j - 1]);
        j := lps[j - 1];
      } else if i < |text| && pattern[j] != text[i] {
        if j != 0 {
          assert !MatchesAt(text, pattern, i - j) by {
            assert text[i - j + j] != pattern[j];
          }
          FallbackIsSafe(text, pattern, i, j, lps[j - 1]);
          j := lps[j - 1];
        } else {
          assert !MatchesAt(text, pattern, i) by {
            assert text[i + 0] != pattern[0];
          }
          i := i + 1;
        }
      }
    }
    if |pattern| > 0 {
      OccurrencesBelowComplete(text, pattern, i - j);
    }
  }
}
