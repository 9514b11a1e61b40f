/** The three matchers of Task_3.py, run on the same text and pattern, report
    the same offsets, except on an empty text searched for the empty pattern. */
module Agreement {
  import opened OccurrenceSpec
  import BoyerMoore
  import Kmp
  import RabinKarp

  /** Runs the three searches that are compared against each other, on every
      input all three accept. For a non-empty pattern all three report exactly
      the occurrences, so they agree. The only other such input is the empty
      text with the empty pattern: Boyer-Moore and Rabin-Karp report the one
      occurrence at 0, while KMP never enters its loop and reports nothing. */
  method SearchAll(text: seq<char>, pattern: seq<char>) returns (bm: seq<int>, kmp: seq<int>, rk: seq<int>)
    requires |pattern| <= |text|
    requires |pattern| > 0 || |text| == 0
    ensures bm == rk
    ensures forall s :: s in bm <==> MatchesAt(text, pattern, s)
    ensures StrictlyIncreasing(bm)
    ensures |pattern| > 0 ==> kmp == bm
    ensures |pattern| == 0 ==> bm == [0] && kmp == []
  {
    bm := BoyerMoore.BoyerMooreSearch(text, pattern);
    kmp := Kmp.KmpSearch(text, pattern);
    rk := RabinKarp.RabinKarpSearch(text, pattern);
    OccurrencesMeaning(text, pattern);
    if |pattern| == 0 {
      // text and pattern are both empty: the only occurrence is at 0
      OccurrencesOfWholeText(text);
      assert forall v :: v in rk <==> v in bm;
      AscendingListsWithSameElementsAreEqual(rk, bm);
    }
  }
}
