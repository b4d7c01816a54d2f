/** The quadratic equation a*x*x + b*x + c == 0 and the quantities the
    library derives from its coefficients, over exact reals. The real
    square root the library takes of the discriminant is passed in as a
    witness `s` with s >= 0 and s * s equal to the discriminant. */
module QuadraticEquation {

  datatype Quadratic = Quadratic(a: real, b: real, c: real)

  /** The value of the left-hand side at `x`. */
  function Eval(q: Quadratic, x: real): real
  {
    q.a * x * x + q.b * x + q.c
  }

  predicate IsRoot(q: Quadratic, x: real)
  {
    Eval(q, x) == 0.0
  }

  /** b*b - 4ac: four times the leading coefficient times the value at `x`
      is the square of (2ax + b) less the discriminant, so a real root
      exists only when the discriminant is not negative. */
  function Discriminant(q: Quadratic): (r: real)
    ensures forall x :: 4.0 * q.a * Eval(q, x) == (2.0 * q.a * x + q.b) * (2.0 * q.a * x + q.b) - r
  {
    q.b * q.b - 4.0 * q.a * q.c
  }

  /** -b / a, the sum of the two roots. */
  function SumOfRoots(q: Quadratic): (r: real)
    requires q.a != 0.0
    ensures q.a * r == -q.b
  {
    (-1.0 * q.b) / q.a
  }

  /** c / a, the product of the two roots. */
  function ProductOfRoots(q: Quadratic): (r: real)
    requires q.a != 0.0
    ensures q.a * r == q.c
  {
    q.c / q.a
  }

  /** The two roots (-b + s) / 2a and (-b - s) / 2a, in that order, where `s`
      is the square root of the discriminant. Both solve the equation, and they satisfy
      Vieta's relations with the sum and product of roots. */
  function RealRoots(q: Quadratic, s: real): (r: (real, real))
    requires q.a != 0.0
    requires s >= 0.0 && s * s == Discriminant(q)
    ensures 2.0 * q.a * r.0 == -q.b + s && 2.0 * q.a * r.1 == -q.b - s
    ensures IsRoot(q, r.0) && IsRoot(q, r.1)
    ensures r.0 + r.1 == SumOfRoots(q)
    ensures r.0 * r.1 == ProductOfRoots(q)
  {
    ((-1.0 * q.b + s) / (2.0 * q.a), (-1.0 * q.b - s) / (2.0 * q.a))
  }

  /** A real root exists only when the discriminant is not negative. */
  lemma RootNeedsNonNegativeDiscriminant(q: Quadratic, x: real)
    requires q.a != 0.0 && IsRoot(q, x)
    ensures Discriminant(q) >= 0.0
  {
    var t := 2.0 * q.a * x + q.b;
    assert Discriminant(q) == t * t;
    SquareNonNegative(t);
  }

  lemma SquareNonNegative(t: real)
    ensures t * t >= 0.0
  {
    if t < 0.0 {
      assert t * t == (-t) * (-t);
    }
  }

  /** The two roots returned are all the roots: any root is one of them. */
  lemma RealRootsAreAllRoots(q: Quadratic, s: real, x: real)
    requires q.a != 0.0
    requires s >= 0.0 && s * s == Discriminant(q)
    ensures IsRoot(q, x) <==> x == RealRoots(q, s).0 || x == RealRoots(q, s).1
  {
    var (r0, r1) := RealRoots(q, s);
    Factorization(q, r0, r1, x);
    ZeroProduct(q.a, x - r0, x - r1);
  }

  /** With a(r0 + r1) == -b and a*r0*r1 == c the left-hand side factors as
      a(x - r0)(x - r1). */
  lemma Factorization(q: Quadratic, r0: real, r1: real, x: real)
    requires q.a * (r0 + r1) == -q.b && q.a * (r0 * r1) == q.c
    ensures Eval(q, x) == q.a * ((x - r0) * (x - r1))
  {
    assert (x - r0) * (x - r1) == x * x - (r0 + r1) * x + r0 * r1;
    assert q.a * ((x - r0) * (x - r1)) == q.a * x * x - q.a * (r0 + r1) * x + q.a * (r0 * r1);
  }

  lemma ZeroProduct(a: real, u: real, v: real)
    requires a != 0.0
    ensures a * (u * v) == 0.0 <==> u == 0.0 || v == 0.0
  {
    if u != 0.0 && v != 0.0 {
      assert u * v != 0.0;
    }
  }

  /** x*x - 3x + 2 == 0 has discriminant 1, roots 2 and 1 in the order the
      formula gives them, root sum 3 and root product 2. */
  lemma RootsOfOneMinusThreeTwo()
    ensures Discriminant(Quadratic(1.0, -3.0, 2.0)) == 1.0
    ensures RealRoots(Quadratic(1.0, -3.0, 2.0), 1.0) == (2.0, 1.0)
    ensures SumOfRoots(Quadratic(1.0, -3.0, 2.0)) == 3.0
    ensures ProductOfRoots(Quadratic(1.0, -3.0, 2.0)) == 2.0
  {
  }
}
