/** Rabin-Karp search with a radix-256 rolling hash modulo `prime`
    (Task_3.py). */
module RabinKarp {
  import opened OccurrenceSpec

  /** The radix `d` of the polynomial hash. */
  const Radix: int := 256

  function Pow(base: int, e: nat): int
  {
    if e == 0 then 1 else base * Pow(base, e - 1)
  }

  /** The base-256 value of the symbols' code points, first symbol most
      significant: the hash before reduction. */
  function Hash(s: seq<char>): int
  {
    if s == [] then 0 else Hash(s[..|s| - 1]) * Radix + (s[|s| - 1] as int)
  }

  /** The hash the code computes: Horner's rule in radix 256, reduced
      modulo `prime` after every step. */
  function HashMod(s: seq<char>, prime: int): (r: int)
    requires prime > 0
    ensures 0 <= r < prime
  {
    if s == [] then 0 else (Radix * HashMod(s[..|s| - 1], prime) + (s[|s| - 1] as int)) % prime
  }

  /** The weight of a window's first symbol as the code computes it: 1,
      multiplied by the radix `e` times with a reduction after each step. */
  function PowMod(e: nat, prime: int): (r: int)
    requires prime > 0
    ensures e == 0 ==> r == 1
    ensures e > 0 ==> 0 <= r < prime
  {
    if e == 0 then 1 else (PowMod(e - 1, prime) * Radix) % prime
  }

  /** The rolling update: drop the symbol code `outgoing`, whose weight is
      `h`, from the front of the window and append the code `incoming`. */
  function Roll(t: int, outgoing: int, h: int, incoming: int, prime: int): (r: int)
    requires prime > 0
    ensures 0 <= r < prime
  {
    (Radix * (t - outgoing * h) + incoming) % prime
  }

  /** Removing the first symbol of a window removes its weighted term. */
  lemma {:induction false} HashOfCons(c: char, s: seq<char>)
    ensures Hash([c] + s) == (c as int) * Pow(Radix, |s|) + Hash(s)
  {
    if s != [] {
      var init := s[..|s| - 1];
      assert ([c] + s)[..|s|] == [c] + init;
      HashOfCons(c, init);
      calc {
        Hash([c] + s);
        Hash([c] + init) * Radix + (s[|s| - 1] as int);
        ((c as int) * Pow(Radix, |init|) + Hash(init)) * Radix + (s[|s| - 1] as int);
        (c as int) * (Pow(Radix, |init|) * Radix) + (Hash(init) * Radix + (s[|s| - 1] as int));
        (c as int) * Pow(Radix, |s|) + Hash(s);
      }
    } else {
      assert [c] + s == [c];
      assert [c][..0] == [];
    }
  }

  /** A non-zero multiple of a positive number is at least that number in
      absolute value. */
  lemma NonZeroMultiple(a: int, p: int)
    requires p > 0
    ensures a >= 1 ==> a * p >= p
    ensures a <= -1 ==> a * p <= -p
  {
  }

  /** Euclidean division is unique. */
  lemma ModUnique(x: int, q: int, r: int, p: int)
    requires p > 0 && 0 <= r < p && x == q * p + r
    ensures x % p == r
  {
    var q' := x / p;
    assert (q - q') * p == x % p - r;
    NonZeroMultiple(q - q', p);
  }

  /** Adding a multiple of the modulus does not change the remainder. */
  lemma ModAddMultiple(x: int, q: int, p: int)
    requires p > 0
    ensures (x + q * p) % p == x % p
  {
    assert x == (x / p) * p + x % p;
    assert x + q * p == (x / p + q) * p + x % p;
    ModUnique(x + q * p, x / p + q, x % p, p);
  }

  /** Multiplying by the radix and adding a code preserves congruence. */
  lemma HornerCongruent(a: int, b: int, c: int, p: int)
    requires p > 0 && a % p == b % p
    ensures (Radix * a + c) % p == (Radix * b + c) % p
  {
    assert a == (a / p) * p + a % p;
    assert b == (b / p) * p + b % p;
    assert Radix * a + c == (Radix * b + c) + (Radix * (a / p - b / p)) * p;
    ModAddMultiple(Radix * b + c, Radix * (a / p - b / p), p);
  }

  /** A reduced value is its own remainder. */
  lemma ModOfReduced(x: int, p: int)
    requires p > 0 && 0 <= x < p
    ensures x % p == x
  {
  }

  /** The code's reduced hash is the polynomial hash modulo `prime`. */
  lemma {:induction false} HashModIsReducedHash(s: seq<char>, prime: int)
    requires prime > 0
    ensures HashMod(s, prime) == Hash(s) % prime
  {
    if s != [] {
      var init := s[..|s| - 1];
      HashModIsReducedHash(init, prime);
      ModOfReduced(HashMod(init, prime), prime);
      HornerCongruent(HashMod(init, prime), Hash(init), s[|s| - 1] as int, prime);
    }
  }

  /** The code's weight is congruent to 256^e modulo `prime`; it is the
      reduced power except for e == 0, where it stays 1. */
  lemma {:induction false} PowModIsReducedPow(e: nat, prime: int)
    requires prime > 0
    ensures PowMod(e, prime) % prime == Pow(Radix, e) % prime
    ensures e > 0 ==> PowMod(e, prime) == Pow(Radix, e) % prime
  {
    if e > 0 {
      PowModIsReducedPow(e - 1, prime);
      HornerCongruent(PowMod(e - 1, prime), Pow(Radix, e - 1), 0, prime);
      ModOfReduced(PowMod(e, prime), prime);
    }
  }

  /** Congruent numbers differ by a multiple of the modulus. */
  lemma CongruentDifference(a: int, b: int, p: int)
    requires p > 0 && a % p == b % p
    ensures a - b == (a / p - b / p) * p
  {
  }

  /** Scaling a difference that is a multiple of p keeps it a multiple of p. */
  lemma ScaledDifference(c: int, a: int, b: int, q: int, p: int)
    requires a - b == q * p
    ensures c * a - c * b == (c * q) * p
  {
  }

  /** One roll of the window hash commutes with reduction modulo p, when `t`
      is the reduction of the unreduced hash `x` and `h` is congruent to the
      weight `y`. */
  lemma RollMod(t: int, x: int, h: int, y: int, c: int, e: int, p: int)
    requires p > 0
    requires t == x % p && h % p == y % p
    ensures (Radix * (t - c * h) + e) % p == (Radix * (x - c * y) + e) % p
  {
    CongruentDifference(h, y, p);
    ScaledDifference(c, h, y, h / p - y / p, p);
    var k := c * (h / p - y / p);
    var qx := x / p;
    assert x == qx * p + t;
    assert c * h == c * y + k * p;
    var ch, cy, kp, qp := c * h, c * y, k * p, qx * p;
    assert Radix * (t - ch) + e == (Radix * (x - cy) + e) + (- Radix * qx - Radix * k) * p by {
      assert t == x - qp;
      assert ch == cy + kp;
    }
    ModAddMultiple(Radix * (x - c * y) + e, - Radix * qx - Radix * k, p);
  }

  /** Rolling the window at `i` one symbol right, from the unreduced hashes. */
  lemma HashOfNextWindow(text: seq<char>, i: nat, m: nat)
    requires m > 0 && i + m < |text|
    ensures Hash(text[i + 1..i + m + 1]) ==
            Radix * (Hash(text[i..i + m]) - (text[i] as int) * Pow(Radix, m - 1)) + (text[i + m] as int)
  {
    var middle := text[i + 1..i + m];
    assert text[i..i + m] == [text[i]] + middle;
    HashOfCons(text[i], middle);
    assert text[i + 1..i + m + 1][..m - 1] == middle;
  }

  /** The rolling update maps the code's hash of the window at `i` to its
      hash of the window at i + 1. */
  lemma RollIsWindowHash(text: seq<char>, i: nat, m: nat, t: int, h: int, prime: int)
    requires m > 0 && i + m < |text| && prime > 0
    requires t == HashMod(text[i..i + m], prime)
    requires h == PowMod(m - 1, prime)
    ensures Roll(t, text[i] as int, h, text[i + m] as int, prime) == HashMod(text[i + 1..i + m + 1], prime)
  {
    HashModIsReducedHash(text[i..i + m], prime);
    HashModIsReducedHash(text[i + 1..i + m + 1], prime);
    PowModIsReducedPow(m - 1, prime);
    HashOfNextWindow(text, i, m);
    RollMod(t, Hash(text[i..i + m]), h, Pow(Radix, m - 1), text[i] as int, text[i + m] as int, prime);
  }

  /** The weight of the first symbol of an m-symbol window: 256^(m-1)
      reduced modulo `prime` (1 when m <= 1). */
  method WindowWeight(m: nat, prime: int) returns (h: int)
    requires prime > 0
    ensures m > 0 ==> h == PowMod(m - 1, prime)
    ensures m == 0 ==> h == 1
  {
    h := 1;
    var k := 0;
    while k < m - 1
      invariant 0 <= k && (k <= m - 1 || k == 0)
      invariant h == PowMod(k, prime)
    {
      h := (h * Radix) % prime;
      k := k + 1;
    }
  }

  /** The hashes of the pattern and of the first window of the text. */
  method InitialHashes(text: seq<char>, pattern: seq<char>, prime: int) returns (p: int, t: int)
    requires |pattern| <= |text| && prime > 0
    ensures p == HashMod(pattern, prime)
    ensures t == HashMod(text[0..|pattern|], prime)
  {
    p, t := 0, 0;
    var m := |pattern|;
    for i := 0 to m
      invariant p == HashMod(pattern[..i], prime)
      invariant t == HashMod(text[..i], prime)
    {
      assert pattern[..i + 1][..i] == pattern[..i];
      assert text[..i + 1][..i] == text[..i];
      p := (Radix * p + (pattern[i] as int)) % prime;
      t := (Radix * t + (text[i] as int)) % prime;
    }
    assert pattern[..m] == pattern;
    assert text[..m] == text[0..m];
  }

  /** The test applied to the window at `i` (equal hashes, then equal
      symbols) accepts exactly the occurrences: the symbol comparison rules
      out hash collisions, and for a non-empty pattern an occurrence always
      has the pattern's hash. */
  lemma CandidateTest(text: seq<char>, pattern: seq<char>, i: nat, p: int, t: int, prime: int)
    requires i + |pattern| <= |text| && prime > 0
    requires p == HashMod(pattern, prime)
    requires |pattern| > 0 ==> t == HashMod(text[i..i + |pattern|], prime)
    ensures p == t && text[i..i + |pattern|] == pattern ==> MatchesAt(text, pattern, i)
    ensures |pattern| > 0 && MatchesAt(text, pattern, i) ==> p == t && text[i..i + |pattern|] == pattern
  {
    MatchesAtIsWindowEquality(text, pattern, i);
  }

  /** What scanning the windows below `i` has established about `matches`:
      it is ascending and holds only occurrences below `i`, and for a
      non-empty pattern it holds every one of them; for the empty pattern
      the window at 0, once scanned, has been reported. */
  ghost predicate Scanned(text: seq<char>, pattern: seq<char>, i: nat, matches: seq<int>)
  {
    StrictlyIncreasing(matches) &&
    (forall s :: s in matches ==> s < i && MatchesAt(text, pattern, s)) &&
    (|pattern| > 0 ==> matches == OccurrencesBelow(text, pattern, i)) &&
    (|pattern| == 0 && i > 0 ==> 0 in matches)
  }

  /** Deciding the window at `i` extends what the scan has established to
      i + 1, when the decision accepts only occurrences, accepts every
      occurrence of a non-empty pattern, and accepts the empty pattern at 0. */
  lemma ScanStep(text: seq<char>, pattern: seq<char>, i: nat, matches: seq<int>, found: bool)
    requires Scanned(text, pattern, i, matches)
    requires found ==> MatchesAt(text, pattern, i)
    requires |pattern| > 0 && MatchesAt(text, pattern, i) ==> found
    requires |pattern| == 0 && i == 0 ==> found
    ensures Scanned(text, pattern, i + 1, if found then matches + [i] else matches)
  {
    if found {
      AppendAbove(matches, i);
    }
  }

  /** Reports the offsets of `pattern` in `text` in ascending order. Each
      candidate whose hash equals the pattern's is confirmed by comparing the
      whole window, so every reported offset is an occurrence; for a
      non-empty pattern, equal windows have equal hashes, so none is missed.
      The text must be at least as long as the pattern, whose first
      |pattern| symbols are read from the text. */
  method RabinKarpSearch(text: seq<char>, pattern: seq<char>, prime: int := 101) returns (matches: seq<int>)
    requires |pattern| <= |text|
    requires prime > 0
    ensures StrictlyIncreasing(matches)
    ensures forall s :: s in matches ==> MatchesAt(text, pattern, s)
    ensures |pattern| > 0 ==> matches == Occurrences(text, pattern)
    ensures |pattern| == 0 ==> 0 in matches
  {
    var m := |pattern|;
    var n := |text|;
    var p, t, h;
    matches := [];

    h := WindowWeight(m, prime);
    p, t := InitialHashes(text, pattern, prime);

    for i := 0 to n - m + 1
      invariant p == HashMod(pattern, prime)
      invariant m > 0 && i <= n - m ==> t == HashMod(text[i..i + m], prime)
      invariant Scanned(text, pattern, i, matches)
      // the empty pattern and the empty first window both hash to 0
      invariant m == 0 && i == 0 ==> t == 0
    {
      CandidateTest(text, pattern, i, p, t, prime);
      ScanStep(text, pattern, i, matches, p == t && text[i..i + m] == pattern);
      if p == t {
        if text[i..i + m] == pattern {
          matches := matches + [i];
        }
      }
      if i < n - m {
        if m > 0 {
          RollIsWindowHash(text, i, m, t, h, prime);
        }
        t := Roll(t, text[i] as int, h, text[i + m] as int, prime);
        if t < 0 {
          // the remainder modulo a positive number is never negative
          assert false;
          t := t + prime;
        }
      }
    }
    if m > 0 {
      OccurrencesBelowComplete(text, pattern, n - m + 1);
    }
  }
}
