/** A finite arithmetic progression: first term `a`, common difference `d`
    and `n` terms, the terms being a, a + d, ..., a + (n-1)*d.

    The datatype constructor plays the part of the three-argument
    constructor, and the fields `a`, `d` and `n` the parts of the getters. */
module ArithmeticProgression {
  import opened Errors

  datatype AP = AP(a: int, d: int, n: nat)

  /** The 1-based `k`-th term. An index past the last term is out of range,
      and index 0 (the only index an unsigned integer allows that is not
      positive) is a domain error. The range check comes first, as in the
      library. */
  function NthTerm(ap: AP, k: nat): (r: Result<int>)
    ensures r.Ok? <==> 1 <= k <= ap.n
    ensures k > ap.n ==> r == Err(OutOfRange)
    ensures k == 0 ==> r == Err(DomainError)
    ensures r.Ok? ==> r.value == ap.a + (k - 1) * ap.d
  {
    if k > ap.n then Err(OutOfRange)
    else if k == 0 then Err(DomainError)
    else Ok(ap.a + (k - 1) * ap.d)
  }

  /** The `k`-th term counted from the last one: the last term stepped back
      `k - 1` times. It fails exactly when `NthTerm(ap, k)` fails, and
      otherwise it is the term at position `n - k + 1` from the front. */
  function NthTermFromLast(ap: AP, k: nat): (r: Result<int>)
    ensures r.Err? <==> NthTerm(ap, k).Err?
    ensures r.Err? ==> r == NthTerm(ap, k)
    ensures r.Ok? ==> r == NthTerm(ap, ap.n - k + 1)
  {
    if k > ap.n then Err(OutOfRange)
    else if k == 0 then Err(DomainError)
    else Ok(NthTerm(ap, ap.n).value - (k - 1) * ap.d)
  }

  /** All the terms, in index order, built one term at a time as the
      library's loop pushes them. */
  function AllTerms(ap: AP): (r: seq<int>)
    ensures |r| == ap.n
    ensures forall i :: 0 <= i < |r| ==> r[i] == ap.a + i * ap.d
    ensures forall i :: 0 <= i < |r| ==> NthTerm(ap, i + 1) == Ok(r[i])
    decreases ap.n
  {
    if ap.n == 0 then []
    else AllTerms(ap.(n := ap.n - 1)) + [ap.a + (ap.n - 1) * ap.d]
  }

  /** The sum of a sequence of integers. */
  function Sum(s: seq<int>): int
  {
    if |s| == 0 then 0 else Sum(s[..|s| - 1]) + s[|s| - 1]
  }

  /** The closed-form sum (n / 2) * (2a + (n - 1)d), with the halving done
      in exact arithmetic. It is the sum of the listed terms, so it is always
      a whole number. */
  function SumN(ap: AP): (r: real)
    ensures r == Sum(AllTerms(ap)) as real
  {
    var x := 2 * ap.a + (ap.n - 1) * ap.d;
    TwiceSumOfTerms(ap);
    HalfOfProduct(ap.n, x, Sum(AllTerms(ap)));
    (ap.n as real / 2.0) * (x as real)
  }

  /** The static sum from first term, last term and count: n(first + last) / 2.
      Whenever some progression with `n` terms runs from `first` to `last`,
      this is the sum of its terms. */
  function SumFirstLast(first: int, last: int, n: nat): (r: real)
    ensures forall d :: first + (n - 1) * d == last ==>
              r == Sum(AllTerms(AP(first, d, n))) as real
  {
    StaticSumIsSumOfTerms(first, last, n);
    (n * (first + last)) as real / 2.0
  }

  /** Replaces the common difference: the first term stays, and the k-th
      term moves by k - 1 times the change. */
  function SetCommonDiff(ap: AP, v: int): (r: AP)
    ensures r.d == v && r.a == ap.a && r.n == ap.n
    ensures forall k: nat :: 1 <= k <= ap.n ==>
              NthTerm(r, k).value == NthTerm(ap, k).value + (k - 1) * (v - ap.d)
  {
    ap.(d := v)
  }

  /** Replaces the first term: every term shifts by the same amount. */
  function SetFirstTerm(ap: AP, v: int): (r: AP)
    ensures r.a == v && r.d == ap.d && r.n == ap.n
    ensures forall i :: 0 <= i < ap.n ==> AllTerms(r)[i] == AllTerms(ap)[i] + (v - ap.a)
  {
    ap.(a := v)
  }

  /** Replaces the term count; see `SetNoOfTermsKeepsPrefix` for the terms. */
  function SetNoOfTerms(ap: AP, v: nat): (r: AP)
    ensures r.n == v && r.a == ap.a && r.d == ap.d
  {
    ap.(n := v)
  }

  /** Twice the sum of the terms is n(2a + (n - 1)d). */
  lemma {:induction false} TwiceSumOfTerms(ap: AP)
    ensures 2 * Sum(AllTerms(ap)) == ap.n * (2 * ap.a + (ap.n - 1) * ap.d)
    decreases ap.n
  {
    if ap.n > 0 {
      var prev := ap.(n := ap.n - 1);
      TwiceSumOfTerms(prev);
      var r := AllTerms(ap);
      assert r[..|r| - 1] == AllTerms(prev);
      assert Sum(r) == Sum(AllTerms(prev)) + (ap.a + prev.n * ap.d);
      GrowByOneTerm(prev.n, ap.a, ap.d);
    }
  }

  /** The step of the induction above: adding the term a + m*d to m terms. */
  lemma GrowByOneTerm(m: int, a: int, d: int)
    ensures m * (2 * a + (m - 1) * d) + 2 * (a + m * d) == (m + 1) * (2 * a + m * d)
  {
  }

  lemma CastMul(x: int, y: int)
    ensures (x * y) as real == x as real * y as real
  {
  }

  /** Halving n * x in the reals gives back the integer it is twice of. */
  lemma HalfOfProduct(n: int, x: int, total: int)
    requires 2 * total == n * x
    ensures (n as real / 2.0) * x as real == total as real
  {
    CastMul(n, x);
  }

  /** n(first + last) / 2 is the sum of every n-term progression from
      `first` to `last`. */
  lemma StaticSumIsSumOfTerms(first: int, last: int, n: nat)
    ensures forall d :: first + (n - 1) * d == last ==>
              (n * (first + last)) as real / 2.0 == Sum(AllTerms(AP(first, d, n))) as real
  {
    forall d | first + (n - 1) * d == last
      ensures (n * (first + last)) as real / 2.0 == Sum(AllTerms(AP(first, d, n))) as real
    {
      TwiceSumOfTerms(AP(first, d, n));
      assert n * (first + last) == 2 * Sum(AllTerms(AP(first, d, n)));
    }
  }

  /** For a non-empty progression the instance sum agrees with the static
      sum taken over the first and last terms. */
  lemma SumNMatchesFirstLast(ap: AP)
    requires ap.n >= 1
    ensures SumN(ap) == SumFirstLast(ap.a, NthTerm(ap, ap.n).value, ap.n)
  {
    var last := NthTerm(ap, ap.n).value;
    assert 2 * ap.a + (ap.n - 1) * ap.d == ap.a + last;
    CastMul(ap.n, ap.a + last);
  }

  /** Terms equally far from the two ends add up to the first plus the last
      term. */
  lemma PairedTermsSum(ap: AP, k: nat)
    requires 1 <= k <= ap.n
    ensures NthTerm(ap, k).value + NthTermFromLast(ap, k).value
            == NthTerm(ap, 1).value + NthTerm(ap, ap.n).value
  {
  }

  /** Changing the term count keeps the terms both progressions share. */
  lemma SetNoOfTermsKeepsPrefix(ap: AP, v: nat)
    ensures v <= ap.n ==> AllTerms(SetNoOfTerms(ap, v)) == AllTerms(ap)[..v]
    ensures v >= ap.n ==> AllTerms(SetNoOfTerms(ap, v))[..ap.n] == AllTerms(ap)
  {
    var short, long := AllTerms(SetNoOfTerms(ap, v)), AllTerms(ap);
    if v <= ap.n {
      assert forall i :: 0 <= i < v ==> short[i] == long[..v][i];
    } else {
      assert forall i :: 0 <= i < ap.n ==> short[..ap.n][i] == long[i];
    }
  }
}
