/**
  Complex numbers as pairs of exact reals and the Mandelbrot recurrence
  z0 = 0, z(k+1) = z(k)^2 + c, together with the escape-time specification
  that every generator in the program is measured against.
 */
module Orbits {

  datatype Option<T> = None | Some(value: T)

  /** A complex number re + im*i; the float pair of a complex128 taken as exact. */
  datatype Complex = Complex(re: real, im: real)

  const Zero := Complex(0.0, 0.0)

  /** One application of the recurrence, `Z * Z + C`: (a + bi)^2 + c = (a^2 - b^2 + c.re) + (2ab + c.im)i. */
  function Step(z: Complex, c: Complex): Complex
  {
    Complex(z.re * z.re - z.im * z.im + c.re, 2.0 * z.re * z.im + c.im)
  }

  /** |z|^2; comparing it with 4 is comparing |z| with 2 without a square root. */
  function AbsSquared(z: Complex): real
  {
    z.re * z.re + z.im * z.im
  }

  /** The escape test `|z| > 2`; strict, so a point exactly on the circle has not escaped. */
  predicate Escaped(z: Complex)
  {
    AbsSquared(z) > 4.0
  }

  /** z(k) for the sample c. */
  function Orbit(c: Complex, k: nat): Complex
  {
    if k == 0 then Zero else Step(Orbit(c, k - 1), c)
  }

  /** Round i (counting from 0) computes z(i+1) and tests it. */
  predicate EscapesInRound(c: Complex, i: nat)
  {
    Escaped(Orbit(c, i + 1))
  }

  /** The number of rounds `range(max_iter)` runs: none for a negative budget. */
  function Budget(maxIter: int): nat
  {
    if maxIter < 0 then 0 else maxIter
  }

  /** The first round among 0 .. n-1 whose test succeeds, if any. */
  function EscapeRound(c: Complex, n: nat): (r: Option<nat>)
    ensures r.Some? ==> r.value < n && EscapesInRound(c, r.value)
  {
    if n == 0 then None
    else match EscapeRound(c, n - 1)
      case Some(j) => Some(j)
      case None => if EscapesInRound(c, n - 1) then Some(n - 1) else None
  }

  /**
    The value a generator leaves in a cell whose sample is c: the first
    escaping round, or 0 when no round escapes (the initial value is kept).
   */
  function EscapeTime(c: Complex, maxIter: int): (t: nat)
    ensures maxIter > 0 ==> t < maxIter
    ensures maxIter <= 0 ==> t == 0
  {
    match EscapeRound(c, Budget(maxIter))
    case Some(j) => j
    case None => 0
  }

  /** EscapeRound finds a round exactly when one exists, and it finds the least one. */
  lemma {:induction false} EscapeRoundIsLeast(c: Complex, n: nat)
    ensures EscapeRound(c, n).Some? <==> exists i {:trigger EscapesInRound(c, i)} :: 0 <= i < n && EscapesInRound(c, i)
    ensures EscapeRound(c, n).Some? ==>
      forall i {:trigger EscapesInRound(c, i)} :: 0 <= i < EscapeRound(c, n).value ==> !EscapesInRound(c, i)
  {
    if n > 0 {
      EscapeRoundIsLeast(c, n - 1);
      if EscapeRound(c, n - 1).None? && !EscapesInRound(c, n - 1) {
        forall i | 0 <= i < n ensures !EscapesInRound(c, i) {
          if i < n - 1 {
            assert !EscapesInRound(c, i);
          }
        }
      }
    }
  }

  /**
    The escape-time specification: the result is the least round i < maxIter
    with |z(i+1)| > 2, and 0 when there is no such round.
   */
  lemma EscapeTimeIsLeast(c: Complex, maxIter: int)
    ensures (exists i {:trigger EscapesInRound(c, i)} :: 0 <= i < maxIter && EscapesInRound(c, i)) ==>
      && EscapesInRound(c, EscapeTime(c, maxIter))
      && forall i {:trigger EscapesInRound(c, i)} :: 0 <= i < EscapeTime(c, maxIter) ==> !EscapesInRound(c, i)
    ensures (forall i {:trigger EscapesInRound(c, i)} :: 0 <= i < maxIter ==> !EscapesInRound(c, i)) ==> EscapeTime(c, maxIter) == 0
  {
    var n := Budget(maxIter);
    EscapeRoundIsLeast(c, n);
    match EscapeRound(c, n)
    case Some(j) =>
      assert EscapeTime(c, maxIter) == j;
    case None =>
      assert EscapeTime(c, maxIter) == 0;
  }

  /**
    A 0 in the result is ambiguous: it is written both for a point that escapes
    in round 0 and for a point that never escapes within the budget.
   */
  lemma EscapeTimeZeroIff(c: Complex, maxIter: int)
    ensures EscapeTime(c, maxIter) == 0 <==>
      (maxIter > 0 && EscapesInRound(c, 0)) || (forall i {:trigger EscapesInRound(c, i)} :: 0 <= i < maxIter ==> !EscapesInRound(c, i))
  {
    EscapeRoundIsLeast(c, Budget(maxIter));
    if maxIter > 0 && EscapesInRound(c, 0) {
      assert EscapeRound(c, Budget(maxIter)).Some?;
    }
  }

  /** Once a round has escaped, running more rounds finds the same round. */
  lemma {:induction false} EscapeRoundStable(c: Complex, n1: nat, n2: nat)
    requires n1 <= n2 && EscapeRound(c, n1).Some?
    ensures EscapeRound(c, n2) == EscapeRound(c, n1)
  {
    if n1 < n2 {
      EscapeRoundStable(c, n1, n2 - 1);
    }
  }

  /**
    Raising the budget never changes the value of a point that already escaped
    under the smaller budget; in particular every non-zero value is kept.
   */
  lemma BudgetMonotone(c: Complex, m1: int, m2: int)
    requires m1 <= m2
    ensures (exists i {:trigger EscapesInRound(c, i)} :: 0 <= i < m1 && EscapesInRound(c, i)) ==> EscapeTime(c, m2) == EscapeTime(c, m1)
    ensures EscapeTime(c, m1) > 0 ==> EscapeTime(c, m2) == EscapeTime(c, m1)
  {
    EscapeRoundIsLeast(c, Budget(m1));
    if EscapeRound(c, Budget(m1)).Some? {
      EscapeRoundStable(c, Budget(m1), Budget(m2));
    }
  }

  /** z(0) = 0. */
  lemma OrbitZero(c: Complex)
    ensures Orbit(c, 0).re == 0.0 && Orbit(c, 0).im == 0.0
  {
  }

  /** z(1) = 0^2 + c = c. */
  lemma OrbitOne(c: Complex)
    ensures Orbit(c, 1) == c
  {
  }

  lemma OrbitNext(c: Complex, k: nat)
    ensures Orbit(c, k + 1) == Step(Orbit(c, k), c)
  {
  }

  /** On the real axis the recurrence is the real map x -> x^2 + c. */
  lemma StepOnRealAxis(z: Complex, c: Complex)
    requires z.im == 0.0 && c.im == 0.0
    ensures Step(z, c).re == z.re * z.re + c.re && Step(z, c).im == 0.0
  {
  }

  /** The real recurrence x0 = 0, x(k+1) = x(k)^2 + a. */
  function RealOrbit(a: real, k: nat): real
  {
    if k == 0 then 0.0 else RealOrbit(a, k - 1) * RealOrbit(a, k - 1) + a
  }

  /** A sample on the real axis has an orbit on the real axis, following the real recurrence. */
  lemma {:induction false} OrbitOnRealAxis(c: Complex, k: nat)
    requires c.im == 0.0
    ensures Orbit(c, k).re == RealOrbit(c.re, k) && Orbit(c, k).im == 0.0
  {
    if k == 0 {
      OrbitZero(c);
    } else {
      OrbitOnRealAxis(c, k - 1);
      OrbitNext(c, k - 1);
      StepOnRealAxis(Orbit(c, k - 1), c);
    }
  }

  /** For a real x, x^2 > 4 exactly when |x| > 2. */
  lemma SquareAboveFour(x: real)
    ensures x * x > 4.0 <==> x > 2.0 || x < -2.0
  {
  }

  /** On the real axis the escape test is |x| > 2. */
  lemma EscapesOnRealAxis(c: Complex, i: nat)
    requires c.im == 0.0
    ensures EscapesInRound(c, i) <==> RealOrbit(c.re, i + 1) > 2.0 || RealOrbit(c.re, i + 1) < -2.0
  {
    OrbitOnRealAxis(c, i + 1);
    var z := Orbit(c, i + 1);
    var x := RealOrbit(c.re, i + 1);
    assert z.re == x && z.im == 0.0;
    assert AbsSquared(z) == x * x;
    SquareAboveFour(x);
  }

  /** The real orbit of 0 stays at 0. */
  lemma {:induction false} RealOrbitOfZero(k: nat)
    ensures RealOrbit(0.0, k) == 0.0
  {
    if k > 0 {
      RealOrbitOfZero(k - 1);
    }
  }

  /** The real orbit of -2 is 0, -2, 2, 2, ...: from x(1) on it lies on the circle |x| = 2. */
  lemma {:induction false} RealOrbitOfMinusTwo(k: nat)
    requires k >= 1
    ensures RealOrbit(-2.0, k) == if k == 1 then -2.0 else 2.0
  {
    if k > 1 {
      RealOrbitOfMinusTwo(k - 1);
    }
  }

  /** The real orbit of 2 starts 0, 2, 6. */
  lemma RealOrbitOfTwo()
    ensures RealOrbit(2.0, 1) == 2.0 && RealOrbit(2.0, 2) == 6.0
  {
  }

  /** Hence the origin never escapes, whatever the budget. */
  lemma {:induction false} OriginNeverEscapes(c: Complex, n: nat)
    requires c.re == 0.0 && c.im == 0.0
    ensures EscapeRound(c, n) == None
  {
    if n > 0 {
      OriginNeverEscapes(c, n - 1);
      EscapesOnRealAxis(c, n - 1);
      RealOrbitOfZero(n);
    }
  }

  /** Under the strict test c = -2 never escapes either, although |z(k)| = 2 for every k >= 1. */
  lemma {:induction false} MinusTwoNeverEscapes(c: Complex, n: nat)
    requires c.re == -2.0 && c.im == 0.0
    ensures EscapeRound(c, n) == None
  {
    if n > 0 {
      MinusTwoNeverEscapes(c, n - 1);
      EscapesOnRealAxis(c, n - 1);
      RealOrbitOfMinusTwo(n);
    }
  }

  /** A round j below the budget that escapes after no earlier round did is the escape time. */
  lemma FirstEscapeIsEscapeTime(c: Complex, j: nat, maxIter: int)
    requires j < maxIter && EscapesInRound(c, j)
    requires forall i {:trigger EscapesInRound(c, i)} :: 0 <= i < j ==> !EscapesInRound(c, i)
    ensures EscapeTime(c, maxIter) == j
  {
    EscapeRoundIsLeast(c, Budget(maxIter));
  }

  /** c = 3 escapes in round 0, since |0^2 + 3| = 3 > 2, and so gets the same 0 as the origin. */
  lemma ThreeEscapesInRoundZero(c: Complex, maxIter: int)
    requires c.re == 3.0 && c.im == 0.0 && maxIter > 0
    ensures EscapesInRound(c, 0)
    ensures EscapeTime(c, maxIter) == 0
  {
    EscapesOnRealAxis(c, 0);
    assert RealOrbit(3.0, 1) == 3.0;
    FirstEscapeIsEscapeTime(c, 0, maxIter);
  }

  /** z(1) = 2 is not an escape under the strict test, z(2) = 6 is. */
  lemma TwoFirstRounds(c: Complex)
    requires c.re == 2.0 && c.im == 0.0
    ensures !EscapesInRound(c, 0) && EscapesInRound(c, 1)
  {
    RealOrbitOfTwo();
    EscapesOnRealAxis(c, 0);
    EscapesOnRealAxis(c, 1);
  }

  /**
    c = 2 reaches |z(1)| = 2 exactly, which is not an escape, and escapes in
    round 1 with z(2) = 6.
   */
  lemma TwoEscapesInRoundOne(c: Complex, maxIter: int)
    requires c.re == 2.0 && c.im == 0.0 && maxIter >= 2
    ensures !EscapesInRound(c, 0)
    ensures EscapeTime(c, maxIter) == 1
  {
    TwoFirstRounds(c);
    FirstEscapeIsEscapeTime(c, 1, maxIter);
  }
}
