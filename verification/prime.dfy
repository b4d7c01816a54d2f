/** Prime utilities: primality by trial division, the nearest prime at or
    below a number, and the primes of a range by the sieve of Eratosthenes.
    Arguments are whole numbers; the fractional-part handling of the
    library (`floor`, `ceil`, the fractional test) is not modelled. */
module Prime {
  import opened Errors

  /** The definition of a prime: at least 2 and without a divisor strictly
      between 1 and itself. */
  predicate IsPrimeDef(x: int)
  {
    x >= 2 && forall m :: 2 <= m < x ==> x % m != 0
  }

  /** No divisor of `x` in [2, bound) other than `x` itself: what trial
      division up to `bound` and the sieve after crossing out the multiples
      of every number below `bound` both know about `x`. */
  predicate NoSmallDivisor(x: int, bound: int)
  {
    forall m :: 2 <= m < bound && m < x ==> x % m != 0
  }

  /** `p` is the prime the downward search from `x` stops at. */
  predicate IsNearestPrime(x: int, p: int)
  {
    if x < 2 then p == 2
    else IsPrimeDef(p) && p <= x && forall q :: p < q <= x ==> !IsPrimeDef(q)
  }

  /** `r` lists exactly the primes of [lo, hi], strictly ascending. */
  predicate ExactlyPrimesIn(r: seq<int>, lo: int, hi: int)
  {
    && (forall t :: 0 <= t < |r| ==> lo <= r[t] <= hi && IsPrimeDef(r[t]))
    && (forall p :: lo <= p <= hi && IsPrimeDef(p) ==> p in r)
    && Ascending(r)
  }

  /** Trial division by 2, 3, ... while the square of the divisor does not
      exceed `x`. Numbers below 2 are not prime, by `IsPrimeDef`. */
  method IsPrime(x: int) returns (b: bool)
    ensures b <==> IsPrimeDef(x)
  {
    if x <= 1 {
      return false;
    }
    var i := 2;
    while i * i <= x
      invariant 2 <= i
      invariant NoSmallDivisor(x, i)
      decreases x - i
    {
      SquareAtLeastDouble(i);
      if x % i == 0 {
        return false;
      }
      i := i + 1;
    }
    SquareBoundSuffices(x, i);
    return true;
  }

  /** Searches downward from `x` for a prime; below 2 the answer is 2. The
      search cannot run past 2, because 2 is prime. */
  method NearestPrime(x: int) returns (p: int)
    ensures IsNearestPrime(x, p)
  {
    if x < 2 {
      return 2;
    }
    var num := x;
    var found := IsPrime(num);
    while !found
      invariant 2 <= num <= x
      invariant found <==> IsPrimeDef(num)
      invariant forall q :: num < q <= x ==> !IsPrimeDef(q)
      decreases num
    {
      assert IsPrimeDef(2);
      num := num - 1;
      found := IsPrime(num);
    }
    p := num;
  }

  /** The primes of [lo, hi] in ascending order, read off a sieve of
      Eratosthenes over [0, hi]. A negative bound or an empty range is out
      of range. */
  method PrimesInRange(lo: int, hi: int) returns (r: Result<seq<int>>)
    ensures r.Err? <==> lo < 0 || hi < 0 || hi < lo
    ensures r.Err? ==> r.error == OutOfRange
    ensures r.Ok? ==> ExactlyPrimesIn(r.value, lo, hi)
  {
    if lo < 0 || hi < 0 {
      return Err(OutOfRange);
    }
    if hi < lo {
      return Err(OutOfRange);
    }
    var table := Sieve(hi);
    var out: seq<int> := [];
    var k := lo;
    while k <= hi
      invariant lo <= k <= hi + 1
      invariant forall t :: 0 <= t < |out| ==> lo <= out[t] < k && IsPrimeDef(out[t])
      invariant forall p :: lo <= p < k && IsPrimeDef(p) ==> p in out
      invariant Ascending(out)
    {
      if table[k] {
        out := out + [k];
      }
      k := k + 1;
    }
    return Ok(out);
  }

  /** The sieve of Eratosthenes: a table over [0, hi] that is true exactly
      at the primes. For each i with i * i <= hi that is still marked, the
      multiples i*2, i*3, ... up to hi are crossed out. The library writes
      entry 1 even when `hi` is 0, past the end of its one-entry table; here
      that write is skipped, which changes nothing in the result. */
  method Sieve(hi: int) returns (table: seq<bool>)
    requires hi >= 0
    ensures |table| == hi + 1
    ensures forall k :: 0 <= k <= hi ==> (table[k] <==> IsPrimeDef(k))
  {
    var primes := new bool[hi + 1](k => true);
    primes[0] := false;
    if hi >= 1 {
      primes[1] := false;
    }
    var i := 2;
    while i * i <= hi
      invariant 2 <= i <= hi + 2
      invariant forall k :: 0 <= k <= hi ==> (primes[k] <==> k >= 2 && NoSmallDivisor(k, i))
      decreases hi + 2 - i
    {
      SquareAtLeastDouble(i);
      if primes[i] {
        CrossOutMultiples(primes, i, hi);
      } else {
        forall k | 0 <= k <= hi
          ensures primes[k] <==> k >= 2 && NoSmallDivisor(k, i + 1)
        {
          CompositeCrossesNothing(k, i);
        }
      }
      i := i + 1;
    }
    forall k | 0 <= k <= hi
      ensures primes[k] <==> IsPrimeDef(k)
    {
      if k >= 2 && NoSmallDivisor(k, i) {
        SquareBoundSuffices(k, i);
      }
    }
    table := primes[..];
  }

  /** One round of the sieve: crosses out i*2, i*3, ... up to `hi`, after
      which the entries left are the numbers without a divisor in [2, i]
      other than themselves. */
  method CrossOutMultiples(primes: array<bool>, i: int, hi: int)
    requires 2 <= i <= hi && primes.Length == hi + 1
    requires forall k :: 0 <= k <= hi ==> (primes[k] <==> k >= 2 && NoSmallDivisor(k, i))
    modifies primes
    ensures forall k :: 0 <= k <= hi ==> (primes[k] <==> k >= 2 && NoSmallDivisor(k, i + 1))
  {
    var j := 2;
    while i * j <= hi
      invariant 2 <= j
      invariant forall k :: 0 <= k <= hi ==>
                  (primes[k] <==> k >= 2 && NoSmallDivisor(k, i) && !CrossedOut(k, i, j))
      decreases hi - i * j
    {
      forall k | 0 <= k <= hi
        ensures CrossedOut(k, i, j + 1) <==> CrossedOut(k, i, j) || k == i * j
      {
        CrossedOutStep(k, i, j);
      }
      primes[i * j] := false;
      j := j + 1;
    }
    forall k | 0 <= k <= hi
      ensures primes[k] <==> k >= 2 && NoSmallDivisor(k, i + 1)
    {
      RoundFinished(k, i, j, hi);
    }
  }

  /** The contract of `PrimesInRange` fixes its result: two sequences that
      both list exactly the primes of [lo, hi] in ascending order are equal. */
  lemma {:induction false} ExactlyPrimesInIsUnique(r1: seq<int>, r2: seq<int>, lo: int, hi: int)
    requires ExactlyPrimesIn(r1, lo, hi) && ExactlyPrimesIn(r2, lo, hi)
    ensures r1 == r2
  {
    AscendingSameElements(r1, r2);
  }

  predicate Ascending(r: seq<int>)
  {
    forall s, t :: 0 <= s < t < |r| ==> r[s] < r[t]
  }

  /** Strictly ascending sequences with the same elements are equal. */
  lemma {:induction false} AscendingSameElements(r1: seq<int>, r2: seq<int>)
    requires Ascending(r1) && Ascending(r2)
    requires forall p :: p in r1 <==> p in r2
    ensures r1 == r2
    decreases |r1| + |r2|
  {
    if |r1| > 0 {
      assert r1[0] in r1;
    }
    if |r2| > 0 {
      assert r2[0] in r2;
    }
    if |r1| != 0 {
      HeadsEqual(r1, r2);
      TailsSameElements(r1, r2);
      AscendingSameElements(r1[1..], r2[1..]);
      assert r1 == [r1[0]] + r1[1..];
      assert r2 == [r2[0]] + r2[1..];
    }
  }

  /** The head of a non-empty ascending sequence is its least element. */
  lemma HeadIsLeast(r: seq<int>, p: int)
    requires Ascending(r) && p in r
    ensures r[0] <= p
  {
    var t :| 0 <= t < |r| && r[t] == p;
  }

  lemma HeadsEqual(r1: seq<int>, r2: seq<int>)
    requires Ascending(r1) && Ascending(r2)
    requires forall p :: p in r1 <==> p in r2
    requires |r1| > 0 && |r2| > 0
    ensures r1[0] == r2[0]
  {
    assert r1[0] in r1 && r2[0] in r2;
    HeadIsLeast(r1, r2[0]);
    HeadIsLeast(r2, r1[0]);
  }

  /** Removing an equal head from both leaves the same elements: by
      strict ascent the head occurs nowhere else. */
  lemma TailsSameElements(r1: seq<int>, r2: seq<int>)
    requires Ascending(r1) && Ascending(r2)
    requires forall p :: p in r1 <==> p in r2
    requires |r1| > 0 && |r2| > 0 && r1[0] == r2[0]
    ensures Ascending(r1[1..]) && Ascending(r2[1..])
    ensures forall p :: p in r1[1..] <==> p in r2[1..]
  {
    forall p | p in r1[1..]
      ensures p in r2[1..]
    {
      var t :| 1 <= t < |r1| && r1[t] == p;
      assert p in r2;
      var s :| 0 <= s < |r2| && r2[s] == p;
      assert s != 0;
    }
    forall p | p in r2[1..]
      ensures p in r1[1..]
    {
      var t :| 1 <= t < |r2| && r2[t] == p;
      assert p in r1;
      var s :| 0 <= s < |r1| && r1[s] == p;
      assert s != 0;
    }
  }

  /** The primes from 5 to 25. */
  lemma PrimesFromFiveToTwentyFive(r: seq<int>)
    requires ExactlyPrimesIn(r, 5, 25)
    ensures r == [5, 7, 11, 13, 17, 19, 23]
  {
    PrimesFromFiveToTwentyFiveListed();
    ExactlyPrimesInIsUnique(r, [5, 7, 11, 13, 17, 19, 23], 5, 25);
  }

  lemma PrimesFromFiveToTwentyFiveListed()
    ensures ExactlyPrimesIn([5, 7, 11, 13, 17, 19, 23], 5, 25)
  {
    var expected := [5, 7, 11, 13, 17, 19, 23];
    ListedArePrime();
    forall p | 5 <= p <= 25 && IsPrimeDef(p)
      ensures p in expected
    {
      if p !in expected {
        NotListedIsComposite(p);
      }
    }
  }

  lemma ListedArePrime()
    ensures IsPrimeDef(5) && IsPrimeDef(7) && IsPrimeDef(11) && IsPrimeDef(13)
    ensures IsPrimeDef(17) && IsPrimeDef(19) && IsPrimeDef(23)
  {
    var listed := [5, 7, 11, 13, 17, 19, 23];
    forall t | 0 <= t < |listed|
      ensures IsPrimeDef(listed[t])
    {
      var x := listed[t];
      assert x % 2 != 0 && x % 3 != 0 && x % 4 != 0;
      assert NoSmallDivisor(x, 5) by {
        forall m | 2 <= m < 5 && m < x
          ensures x % m != 0
        {
          assert m == 2 || m == 3 || m == 4;
        }
      }
      if x < 9 {
        SquareBoundSuffices(x, 3);
      } else {
        SquareBoundSuffices(x, 5);
      }
    }
    assert listed[0] == 5 && listed[1] == 7 && listed[2] == 11 && listed[3] == 13;
    assert listed[4] == 17 && listed[5] == 19 && listed[6] == 23;
  }

  lemma NotListedIsComposite(p: int)
    requires 5 <= p <= 25 && p !in [5, 7, 11, 13, 17, 19, 23]
    ensures !IsPrimeDef(p)
  {
    if p % 2 == 0 {
      assert p % 2 == 0;
    } else if p == 9 || p == 15 || p == 21 {
      assert p % 3 == 0;
    } else {
      assert p == 25;
      assert p % 5 == 0;
    }
  }

  /** The prime nearest to 10 from below is 7; at 2 and below it is 2. */
  lemma NearestPrimeExamples(p10: int, p2: int, p1: int)
    requires IsNearestPrime(10, p10) && IsNearestPrime(2, p2) && IsNearestPrime(1, p1)
    ensures p10 == 7 && p2 == 2 && p1 == 2
  {
    assert IsPrimeDef(7);
    assert 8 % 2 == 0 && 9 % 3 == 0 && 10 % 2 == 0;
  }

  /** `k` is one of i*2, ..., i*(j-1), the multiples crossed out so far. */
  predicate CrossedOut(k: int, i: int, j: int)
    requires i > 0
  {
    k % i == 0 && 2 <= k / i < j
  }

  lemma CrossedOutStep(k: int, i: int, j: int)
    requires i > 0 && j >= 2
    ensures CrossedOut(k, i, j + 1) <==> CrossedOut(k, i, j) || k == i * j
  {
    MultipleDivMod(i, j);
    assert k == i * (k / i) + k % i;
  }

  lemma SquareAtLeastDouble(i: int)
    requires i >= 2
    ensures i * i >= 2 * i
  {
  }

  /** A multiple of `i` is divisible by `i`, with the multiplier as quotient. */
  lemma MultipleDivMod(i: int, j: int)
    requires i > 0
    ensures (i * j) % i == 0 && (i * j) / i == j
  {
    DivModUnique(i * j, i, j, 0);
  }

  /** Quotient and remainder are the only pair that rebuilds `x`. */
  lemma DivModUnique(x: int, i: int, q: int, r: int)
    requires i > 0 && 0 <= r < i
    requires x == i * q + r
    ensures x / i == q && x % i == r
  {
    var q', r' := x / i, x % i;
    assert i * (q - q') == r' - r;
    if q - q' >= 1 {
      MulAtLeast(i, q - q');
    } else if q' - q >= 1 {
      MulAtLeast(i, q' - q);
    }
  }

  lemma MulAtLeast(i: int, t: int)
    requires i > 0 && t >= 1
    ensures i * t >= i
  {
  }

  /** A smaller product with the same positive factor has a smaller
      co-factor. */
  lemma CofactorLess(i: int, q: int, j: int)
    requires i > 0 && i * q < i * j
    ensures q < j
  {
  }

  /** Divisibility is transitive. */
  lemma DivisorOfDivisor(m: int, i: int, k: int)
    requires m > 0 && i > 0
    requires i % m == 0 && k % i == 0
    ensures k % m == 0
  {
    var u := i / m;
    var v := k / i;
    assert k == m * (u * v);
    MultipleDivMod(m, u * v);
  }

  /** If nothing below `i` divides `x` and `i * i > x`, then `x` is prime:
      a divisor at or above `i` would have a cofactor below `i`. */
  lemma SquareBoundSuffices(x: int, i: int)
    requires x >= 2 && i >= 2
    requires i * i > x
    requires NoSmallDivisor(x, i)
    ensures IsPrimeDef(x)
  {
    forall m | 2 <= m < x
      ensures x % m != 0
    {
      if m >= i {
        CofactorBelowBound(x, m, i);
      }
    }
  }

  /** A divisor `m` of `x` at or above `i`, with `i * i > x`, leaves a
      co-factor in [2, i) that also divides `x`. */
  lemma CofactorBelowBound(x: int, m: int, i: int)
    requires 2 <= i <= m < x
    requires i * i > x
    ensures x % m == 0 ==> 2 <= x / m < i && x % (x / m) == 0
  {
    if x % m == 0 {
      var q := x / m;
      assert x == m * q;
      PositiveFactor(m, q);
      assert q != 1;
      CofactorSmall(x, m, q, i);
      MultipleDivMod(m, q);
      assert x == q * m;
      MultipleDivMod(q, m);
    }
  }

  lemma CofactorSmall(x: int, m: int, q: int, i: int)
    requires 0 <= i <= m && q >= 0 && x == m * q && i * i > x
    ensures q < i
  {
    if q >= i {
      MulBoth(i, m, i, q);
    }
  }

  lemma MulBoth(a: int, b: int, c: int, d: int)
    requires 0 <= a <= b && 0 <= c <= d
    ensures a * c <= b * d
  {
    MulMonoRight(a, c, d);
    MulMonoRight(d, a, b);
  }

  lemma PositiveFactor(m: int, q: int)
    requires m > 0 && m * q > 0
    ensures q > 0
  {
  }

  lemma MulMonoRight(a: int, b: int, c: int)
    requires a >= 0 && b <= c
    ensures a * b <= a * c
  {
  }

  /** After crossing out i*2, i*3, ... up to `hi`, the numbers left are
      those without a divisor in [2, i + 1) other than themselves. */
  lemma RoundFinished(k: int, i: int, j: int, hi: int)
    requires 2 <= i && 0 <= k <= hi < i * j
    ensures (k >= 2 && NoSmallDivisor(k, i) && !CrossedOut(k, i, j))
            <==> (k >= 2 && NoSmallDivisor(k, i + 1))
  {
    var q := k / i;
    assert k == i * q + k % i;
    if k % i == 0 {
      CofactorLess(i, q, j);
      assert i < k <==> q >= 2;
    }
  }

  /** When `i` itself has been crossed out, its multiples already were:
      crossing out multiples of `i` would change nothing. */
  lemma CompositeCrossesNothing(k: int, i: int)
    requires 2 <= i && 0 <= k
    requires !NoSmallDivisor(i, i)
    ensures NoSmallDivisor(k, i) <==> NoSmallDivisor(k, i + 1)
  {
    if NoSmallDivisor(k, i) && i < k && k % i == 0 {
      var m :| 2 <= m < i && m < i && i % m == 0;
      DivisorOfDivisor(m, i, k);
      assert false;
    }
  }
}
