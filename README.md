# Exact string matching and upper-bound binary search

This project models two small algorithm files and proves them correct.

- `Task_3.py` has three exact string matchers:
  - Boyer-Moore with the bad-character rule (`bad_character_table`, `boyer_moore_search`);
  - Knuth-Morris-Pratt (`compute_lps`, `kmp_search`);
  - Rabin-Karp with a radix-256 rolling hash modulo `prime` (`rabin_karp_search`).
- `Task_2.py` has `binary_search_upper_bound`. It returns the smallest element at least
  `x` in an ascending list, together with the number of halving steps taken.

The source code is imperative, so each operation is a Dafny `method` with its loops.
Each method is proved against pure specification functions.

The matchers share one specification, in `occurrences.dfy`:
- `MatchesAt(text, pattern, s)` says the pattern occurs at offset `s`.
- `Occurrences(text, pattern)` is the ascending list of every such offset, overlapping
  occurrences included.

For a non-empty pattern each matcher proves that it returns `Occurrences`, and each gets
there differently:
- Boyer-Moore: both shift rules are safe, so no shift jumps over an occurrence.
- KMP: `ComputeLps` builds exactly the table of longest proper borders, so falling back
  along it skips no occurrence.
- Rabin-Karp:
  - the reduced hashes it maintains are the base-256 polynomial hashes of the current
    windows modulo `prime`;
  - equal windows therefore have equal hashes;
  - every candidate is confirmed by comparing the whole window.

Boyer-Moore returns `Occurrences` for the empty pattern too. KMP accepts the empty pattern
only on an empty text, where it returns the empty list. Rabin-Karp, given the empty pattern,
reports only occurrences and always includes offset 0.

`Agreement.SearchAll` runs all three matchers on the same input, the way the benchmark
does, on every input all three accept:
- for a non-empty pattern it concludes that they return the same list;
- for the empty text with the empty pattern, Boyer-Moore and Rabin-Karp return `[0]`
  while KMP returns `[]`.

`binary_search_upper_bound` is proved against a linear reference, `FirstAtLeast`:
- on a sorted list the method returns exactly what `FirstAtLeast` returns;
- `FirstAtLeastIsLeast` proves that this is the least element at least `x`, and `None`
  exactly when every element is below `x`;
- the iteration counter never exceeds the bit length of the list's length, which is
  floor(log2 n) + 1.

Modelling choices:
- Text and pattern are `seq<char>`, and Python's `ord` is `c as int`.
- The bad-character dictionary is a `map<char, int>`.
- The list elements of `Task_2.py` are `int`.
- Python's `%` with a positive modulus is Dafny's `%`.
- Python's `//` on the non-negative cursors is Dafny's `/`.

## Model

| member | source | states |
|---|---|---|
| OccurrenceSpec.MatchesAtIsWindowEquality | Task_3.py:84 | the slice comparison `text[i:i+m] == pattern` holds exactly when the pattern occurs at `i` |
| OccurrenceSpec.OccurrencesBelowMeaning | Task_3.py:10-26 | the occurrences below a bound are strictly ascending and hold exactly the offsets below the bound where the pattern occurs |
| OccurrenceSpec.OccurrencesMeaning | Task_3.py:10-26 | the list every matcher must return is strictly ascending and holds exactly the occurrence offsets |
| OccurrenceSpec.AscendingListsWithSameElementsAreEqual | Task_3.py:10-26 | two strictly ascending lists with the same elements are equal, so ascending order plus membership pins the matchers' result down |
| OccurrenceSpec.OccurrencesBelowSkip | Task_3.py:22-25 | skipping a range of offsets that holds no occurrence loses nothing from the list |
| OccurrenceSpec.OccurrencesBelowComplete | Task_3.py:16 | once the cursor passes n - m, no further occurrence can exist, so the list is complete |
| OccurrenceSpec.NoOccurrencesOfLongerPattern | Task_3.py:16 | a pattern longer than the text has no occurrence, so the empty result the loop guard gives is correct |
| OccurrenceSpec.OccurrencesOfWholeText | Task_3.py:10-26 | a pattern equal to the text occurs exactly once, at offset 0 |
| BoyerMoore.BadCharacterTable | Task_3.py:4-8 | the keys are exactly the symbols of the pattern; each maps to the last index holding it, in `[0, m)`, because later indices overwrite earlier ones |
| BoyerMoore.Lookup | Task_3.py:22-24 | `bad_char.get(c, -1)` on the last-occurrence table is the last index of `c` in the pattern, in `[-1, m)`, and -1 exactly when `c` does not occur |
| BoyerMoore.SkipAfterMatch | Task_3.py:22 | the shift after a full match lies in `[1, m + 1]`; it is m + 1 when the text symbol just past the window does not occur in the pattern |
| BoyerMoore.SkipAfterMismatch | Task_3.py:24 | the clamped shift after a mismatch at index `j` lies in `[1, j + 1]`; it is j + 1 when the mismatched text symbol does not occur in the pattern |
| BoyerMoore.SkipAfterMatchIsSafe | Task_3.py:20-22 | after a full match the shift, keyed on `text[shift+m]` or 1 at the end of the text, is at least 1 and no offset it jumps over is an occurrence |
| BoyerMoore.SkipAfterMismatchIsSafe | Task_3.py:23-25 | after a mismatch at pattern index `j`, the shift `max(1, j - last(text[shift+j]))` is at least 1; neither the current alignment nor any offset it jumps over is an occurrence |
| BoyerMoore.BoyerMooreSearch | Task_3.py:10-26 | returns exactly the ascending list of all occurrences, for every pattern, including the empty pattern and patterns longer than the text |
| Kmp.ComputeLps | Task_3.py:29-44 | `lps` has length m; `lps[0] == 0`; each `lps[i]` is the length of the longest proper border of `pattern[..i+1]`, so `0 <= lps[i] <= i`; the loop terminates by the measure (m - i, length) |
| Kmp.FallbackIsSafe | Task_3.py:55-60 | resetting `j` to `lps[j-1]` keeps the matched prefix aligned with the text and skips no occurrence |
| Kmp.KmpSearch | Task_3.py:46-63 | for a non-empty pattern, returns exactly the ascending list of all occurrences, overlapping ones included; an empty pattern is only allowed with an empty text, where the result is empty |
| RabinKarp.HashMod | Task_3.py:78-80 | the hash computed by reducing after every Horner step lies in `[0, prime)` |
| RabinKarp.Roll | Task_3.py:87-89 | the rolled hash lies in `[0, prime)`, so the `t < 0` correction never applies |
| RabinKarp.PowMod | Task_3.py:75-76 | the weight `h` the loop computes stays 1 when the loop does not run, and lies in `[0, prime)` after at least one step |
| RabinKarp.HashModIsReducedHash | Task_3.py:78-80 | the step-by-step reduced hash equals the base-256 polynomial value of the symbols modulo `prime` |
| RabinKarp.PowModIsReducedPow | Task_3.py:75-76 | the weight `h` is congruent to 256^(m-1) modulo `prime`, and equals it reduced when m >= 2 |
| RabinKarp.HashOfNextWindow | Task_3.py:87 | dropping the first symbol's weighted term, shifting by the radix and adding the next symbol turns one window's polynomial value into the next's |
| RabinKarp.RollIsWindowHash | Task_3.py:86-87 | the rolling update maps the hash of the window at `i` to the hash of the window at i + 1 |
| RabinKarp.WindowWeight | Task_3.py:72-76 | computes the weight `h` = 256^(m-1) reduced step by step modulo `prime`; it stays 1 for the empty pattern |
| RabinKarp.InitialHashes | Task_3.py:70-80 | computes the hashes of the pattern and of the first m symbols of the text |
| RabinKarp.CandidateTest | Task_3.py:83-85 | a window passing both the hash test and the comparison is an occurrence; for a non-empty pattern, every occurrence passes both tests |
| RabinKarp.ScanStep | Task_3.py:82-85 | deciding one window keeps the reported list ascending and made of occurrences, and for a non-empty pattern equal to the occurrences below the next window, provided the decision accepts only occurrences and, for a non-empty pattern, every one |
| RabinKarp.RabinKarpSearch | Task_3.py:66-90 | every reported offset is an occurrence and the list is strictly ascending; for a non-empty pattern, the list is exactly the occurrences; for the empty pattern, offset 0 is reported |
| Agreement.SearchAll | Task_3.py:98-101 | on every input the three matchers accept, Boyer-Moore and Rabin-Karp return the same list, the ascending occurrence offsets; KMP returns it too for a non-empty pattern; on the empty text with the empty pattern it returns `[]` where the others return `[0]` |
| UpperBound.FirstAtLeastIsLeast | Task_2.py:6-24 | on a sorted list the reference result is the least element at least `x`, and `None` exactly when every element is below `x` |
| UpperBound.FirstAtLeastAtSplit | Task_2.py:18-24 | when a sorted list splits into elements below `x` and elements at least `x`, the reference result is the first element after the split, or `None` when there is none |
| UpperBound.BinarySearchUpperBound | Task_2.py:1-26 | on a sorted list returns the reference result; any result is an element at least `x`; an empty list gives 0 iterations; a non-empty list gives at least one; the count never exceeds floor(log2 n) + 1; the fallback after the loop never assigns |

## Left out

- `load_text` (Task_3.py:93-95): file input and UTF-8 decoding.
- `benchmark_search_algorithms` (Task_3.py:98-109): wall-clock timing, floating-point durations and console output. Only its three calls are modelled, by `Agreement.SearchAll`.
- The `__main__` block of Task_3.py: orchestration over file contents and timings.
- The example call and print at Task_2.py:28-30: floating-point literals and console output.
- `ord` of arbitrary Unicode code points: a symbol's code is `c as int`. Correctness never depends on the radix.
- RabinKarpSearch: for the empty pattern the contract states only that every reported offset is an occurrence, that the list is ascending and that it contains 0. With m = 0 the weight `h` stays 1, so a rolled hash is not the empty window's hash, and which offsets get reported depends on the text's symbol codes.
- RabinKarpSearch: requires `|pattern| <= |text|`, because the code reads `text[i]` for every `i < m`. It also requires `prime > 0`, because a zero modulus fails and a negative one gives Python remainders with the divisor's sign, which are not modelled.
- KmpSearch: requires a non-empty pattern unless the text is empty, because the code reads `pattern[0]` as soon as the text is non-empty.
- Agreement.SearchAll: the matchers do not all agree on the empty text with the empty pattern. KMP returns `[]`, because its loop never runs, while Boyer-Moore and Rabin-Karp return `[0]`. The contract states this disagreement; it is not a property of the other inputs.
- BinarySearchUpperBound: elements are `int`. Any totally ordered element type behaves the same. Floating-point NaN, which is not totally ordered, is not modelled. For an unsorted list the result is only stated to be an element at least `x`.
- Python lists that grow by `append` and are updated by index assignment are modelled as sequences that the methods reassign.
