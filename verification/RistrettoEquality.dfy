/** Equality of Ristretto points is equality up to the points of order dividing four. */
module RistrettoEquality {
  import opened Congruence
  import opened Primes
  import opened SquareRoots
  import opened Field
  import opened Edwards
  import opened EdwardsLaw
  import opened EdwardsGroup
  import opened CurveModels
  import opened ScalarMul

  /** The equality test: X1 Y2 = Y1 X2 or X1 X2 = Y1 Y2. */
  predicate RistrettoEq(p: EdwardsPoint, q: EdwardsPoint) {
    Eq(p.X * q.Y, p.Y * q.X) || Eq(p.X * q.X, p.Y * q.Y)
  }

  predicate AffineEq(a: Affine, b: Affine) {
    Eq(a.x * b.y, a.y * b.x) || Eq(a.x * b.x, a.y * b.y)
  }

  lemma CompareMultiples(p: int, k: int, x: int, y: int)
    requires IsPrime(p) && !Cong(p, k, 0)
    ensures Cong(p, x * k, y * k) <==> Cong(p, x, y)
  {
    if Cong(p, x, y) {
      Mul(p, x, y, k, k);
    } else if Cong(p, x * k, y * k) {
      CancelRight(p, k, x, y);
    }
  }

  lemma CompareProducts(p: int, A: int, a: int, B: int, b: int, C: int, c: int, D: int, d: int, z: int, w: int)
    requires IsPrime(p) && !Cong(p, z, 0) && !Cong(p, w, 0)
    requires Cong(p, A, a * z) && Cong(p, B, b * w) && Cong(p, C, c * z) && Cong(p, D, d * w)
    ensures Cong(p, A * B, C * D) <==> Cong(p, a * b, c * d)
  {
    Mul(p, A, a * z, B, b * w);
    Mul(p, C, c * z, D, d * w);
    Product(p, z, w);
    Interchange(a, z, b, w);
    Interchange(c, z, d, w);
    CompareMultiples(p, z * w, a * b, c * d);
  }

  /** The denominators have no effect on the test. */
  lemma RescaledEq(p: EdwardsPoint, a: CurvePoint, q: EdwardsPoint, b: CurvePoint)
    requires IsPrime(P) && Extends(p, a) && Extends(q, b)
    ensures RistrettoEq(p, q) <==> AffineEq(a, b)
  {
    ExtendsForm(p, a);
    ExtendsForm(q, b);
    CompareProducts(P, p.X, a.x, q.Y, b.y, p.Y, a.y, q.X, b.x, p.Z, q.Z);
    CompareProducts(P, p.X, a.x, q.X, b.x, p.Y, a.y, q.Y, b.y, p.Z, q.Z);
  }

  // Two points of the curve on one line through the origin are equal or opposite.

  lemma ParallelLeft(d: int, a: int, A: int, b: int)
    ensures (a - A) * (1 - d * (A * b)) == a - A - d * (A * (a * b)) + d * (A * (A * b))
  {
    var m := d * (A * b);
    assert (a - A) * (1 - m) == a - A - a * m + A * m;
    assert a * m == d * (A * (a * b)) && A * m == d * (A * (A * b));
  }

  lemma ParallelFirst(d: int, A: int, u: int, v: int)
    ensures (1 - d * A) * (u - v) == u - v - d * (A * u) + d * (A * v)
  {}

  lemma ParallelSecond(d: int, a: int, b: int, A: int)
    ensures A * ((b - a) - (1 + d * (a * b))) == b * A - a * A - A - d * (A * (a * b))
  {}

  lemma ParallelThird(d: int, a: int, A: int, B: int)
    ensures -a * ((B - A) - (1 + d * (A * B))) == -(a * B) + a * A + a + d * (a * (A * B))
  {}

  lemma ParallelForm(d: int, a: int, b: int, A: int, B: int, h1: int, h2: int, h3: int)
    requires h1 == a * B - b * A && h2 == (b - a) - (1 + d * (a * b)) && h3 == (B - A) - (1 + d * (A * B))
    ensures (a - A) * (1 - d * (A * b)) == (1 - d * A) * h1 + A * h2 + -a * h3
  {
    ParallelLeft(d, a, A, b);
    ParallelFirst(d, A, a * B, b * A);
    ParallelSecond(d, a, b, A);
    ParallelThird(d, a, A, B);
    assert A * (a * B) == a * (A * B) && A * (b * A) == A * (A * b);
  }

  lemma VanishingSum(p: int, e: int, c1: int, h1: int, c2: int, h2: int, c3: int, h3: int)
    requires p > 0 && Cong(p, h1, 0) && Cong(p, h2, 0) && Cong(p, h3, 0) && e == c1 * h1 + c2 * h2 + c3 * h3
    ensures Cong(p, e, 0)
  {
    Combine(p, c1, h1, c2, h2);
    Combine(p, 1, c1 * h1 + c2 * h2, c3, h3);
  }

  lemma ParallelX(p: int, d: int, a: int, b: int, A: int, B: int)
    requires p > 0 && Cong(p, a * B, b * A) && Cong(p, b - a, 1 + d * (a * b)) && Cong(p, B - A, 1 + d * (A * B))
    ensures Cong(p, (a - A) * (1 - d * (A * b)), 0)
  {
    var h1, h2, h3 := a * B - b * A, (b - a) - (1 + d * (a * b)), (B - A) - (1 + d * (A * B));
    Difference(p, a * B, b * A);
    Difference(p, b - a, 1 + d * (a * b));
    Difference(p, B - A, 1 + d * (A * B));
    ParallelForm(d, a, b, A, B, h1, h2, h3);
    VanishingSum(p, (a - A) * (1 - d * (A * b)), 1 - d * A, h1, A, h2, -a, h3);
  }

  /** The same with -b in the place of a, and so on, which exchanges the two coordinates. */
  lemma ParallelY(p: int, d: int, a: int, b: int, A: int, B: int)
    requires p > 0 && Cong(p, a * B, b * A) && Cong(p, b - a, 1 + d * (a * b)) && Cong(p, B - A, 1 + d * (A * B))
    ensures Cong(p, (b - B) * (1 - d * (a * B)), 0)
  {
    assert (-b) * (-A) == b * A && (-a) * (-B) == a * B && (-a) * (-b) == a * b && (-A) * (-B) == A * B;
    assert (-b) * (-a) == a * b && (-B) * (-A) == A * B && (-B) * (-a) == a * B;
    ParallelX(p, d, -b, -a, -B, -A);
    assert (-b - -B) * (1 - d * (a * B)) == -((b - B) * (1 - d * (a * B)));
    Add(p, 0, 0, -((b - B) * (1 - d * (a * B))), 0);
  }

  lemma ParallelFactors(p: int, d: int, x1: int, y1: int, x2: int, y2: int)
    requires p > 0 && Cong(p, x1 * y2, y1 * x2)
    requires Cong(p, y1 * y1 - x1 * x1, 1 + d * ((x1 * x1) * (y1 * y1)))
    requires Cong(p, y2 * y2 - x2 * x2, 1 + d * ((x2 * x2) * (y2 * y2)))
    ensures Cong(p, (x1 * x1 - x2 * x2) * (1 - d * ((x2 * y1) * (x2 * y1))), 0)
    ensures Cong(p, (y1 * y1 - y2 * y2) * (1 - d * ((x1 * y2) * (x1 * y2))), 0)
  {
    var a, b, A, B := x1 * x1, y1 * y1, x2 * x2, y2 * y2;
    Mul(p, x1 * y2, y1 * x2, x1 * y2, y1 * x2);
    Interchange(x1, y2, x1, y2);
    Interchange(y1, x2, y1, x2);
    Interchange(x2, y1, x2, y1);
    ParallelX(p, d, a, b, A, B);
    ParallelY(p, d, a, b, A, B);
  }

  lemma NotUnit(m: FieldElement)
    requires IsPrime(P)
    ensures !Eq(1 - EDWARDS_D * (m * m), 0)
  {
    if Eq(1 - EDWARDS_D * (m * m), 0) {
      Difference(P, 1, EDWARDS_D * (m * m));
      CurveHasLaw();
      SquareRatio(P, EDWARDS_D, 1, m);
      Product(P, m, m);
      Constants();
      Product(P, EDWARDS_D, m * m);
    }
  }

  lemma ZeroHasNoSign(p: int, x: int)
    requires p > 0
    ensures Cong(p, x, 0) ==> Cong(p, -x, x)
  {
    if Cong(p, x, 0) {
      Add(p, 0, 0, x, 0);
    }
  }

  lemma OppositeSigns(p: int, m: int, s: int, t: int, x: int, y: int)
    requires IsPrime(p) && p > 2 && m == x * y && (s == 1 || s == -1) && t == -s
    requires Cong(p, x * (t * y), y * (s * x))
    ensures Cong(p, m, 0)
  {
    assert x * (t * y) == t * m && y * (s * x) == s * m;
    Difference(p, t * m, s * m);
    assert t * m - s * m == (2 * t) * m;
    Product(p, 2 * t, m);
    SmallUnits(p);
  }

  lemma SignsAgree(p: int, x1: int, y1: int, x2: int, y2: int)
    requires IsPrime(p) && p > 2 && Cong(p, x1 * y2, y1 * x2)
    requires (Cong(p, x2, x1) || Cong(p, x2, -x1)) && (Cong(p, y2, y1) || Cong(p, y2, -y1))
    ensures (Cong(p, x2, x1) && Cong(p, y2, y1)) || (Cong(p, x2, -x1) && Cong(p, y2, -y1))
  {
    var s, t := if Cong(p, x2, x1) then 1 else -1, if Cong(p, y2, y1) then 1 else -1;
    assert Cong(p, x2, s * x1) && Cong(p, y2, t * y1);
    if s != t {
      Mul(p, x1, x1, y2, t * y1);
      Mul(p, y1, y1, x2, s * x1);
      OppositeSigns(p, x1 * y1, s, t, x1, y1);
      Product(p, x1, y1);
      ZeroHasNoSign(p, x1);
      ZeroHasNoSign(p, y1);
    }
  }

  lemma ParallelPoints(x1: FieldElement, y1: FieldElement, x2: FieldElement, y2: FieldElement)
    requires IsPrime(P) && OnCurve(x1, y1) && OnCurve(x2, y2) && Eq(x1 * y2, y1 * x2)
    ensures (Eq(x2, x1) && Eq(y2, y1)) || (Eq(x2, -x1) && Eq(y2, -y1))
  {
    CurveEquation(x1, y1);
    CurveEquation(x2, y2);
    ParallelFactors(P, EDWARDS_D, x1, y1, x2, y2);
    NotUnit(x2 * y1);
    NotUnit(x1 * y2);
    Product(P, x1 * x1 - x2 * x2, 1 - EDWARDS_D * ((x2 * y1) * (x2 * y1)));
    Product(P, y1 * y1 - y2 * y2, 1 - EDWARDS_D * ((x1 * y2) * (x1 * y2)));
    Difference(P, x1 * x1, x2 * x2);
    Difference(P, y1 * y1, y2 * y2);
    FactorDifference(P, x2, x1);
    FactorDifference(P, y2, y1);
    SignsAgree(P, x1, y1, x2, y2);
  }

  // The four shifts.

  function Opposite(a: Affine): Affine {
    EdwardsGroup.Affine(-a.x, -a.y)
  }

  function RotatedAt(a: Affine, k: nat): Affine
    decreases a, k
  {
    if k > 0 then RotatedAt(a, k - 1) else EdwardsGroup.Affine(SQRT_M1 * a.y, SQRT_M1 * a.x)
  }

  function Rotated(a: Affine): Affine {
    RotatedAt(a, 3)
  }

  lemma RotatedIs(a: Affine)
    ensures Rotated(a) == EdwardsGroup.Affine(SQRT_M1 * a.y, SQRT_M1 * a.x)
  {
    assert RotatedAt(a, 1) == RotatedAt(a, 0);
    assert RotatedAt(a, 2) == RotatedAt(a, 1);
  }

  predicate Same(a: Affine, b: Affine) {
    Eq(a.x, b.x) && Eq(a.y, b.y)
  }

  /** b is one of the points (x, y), (-x, -y), (i y, i x), (-i y, -i x). */
  predicate IsShift(a: Affine, b: Affine) {
    Same(b, a) || Same(b, Opposite(a)) || Same(b, Rotated(a)) || Same(b, Opposite(Rotated(a)))
  }

  lemma ParallelIfSame(p: int, x1: int, y1: int, x2: int, y2: int)
    requires p > 0
    ensures (Cong(p, x2, x1) && Cong(p, y2, y1)) || (Cong(p, x2, -x1) && Cong(p, y2, -y1)) ==> Cong(p, x1 * y2, y1 * x2)
  {
    if Cong(p, x2, x1) && Cong(p, y2, y1) {
      Mul(p, x1, x1, y2, y1);
      Mul(p, y1, y1, x2, x1);
    } else if Cong(p, x2, -x1) && Cong(p, y2, -y1) {
      Mul(p, x1, x1, y2, -y1);
      Mul(p, y1, y1, x2, -x1);
      assert x1 * -y1 == y1 * -x1;
    }
  }

  lemma ParallelIfRotated(p: int, i: int, x1: int, y1: int, x2: int, y2: int)
    requires p > 0
    ensures (Cong(p, x2, i * y1) && Cong(p, y2, i * x1)) || (Cong(p, x2, -(i * y1)) && Cong(p, y2, -(i * x1)))
            ==> Cong(p, x1 * x2, y1 * y2)
  {
    if Cong(p, x2, i * y1) && Cong(p, y2, i * x1) {
      Mul(p, x1, x1, x2, i * y1);
      Mul(p, y1, y1, y2, i * x1);
      assert x1 * (i * y1) == y1 * (i * x1);
    } else if Cong(p, x2, -(i * y1)) && Cong(p, y2, -(i * x1)) {
      Mul(p, x1, x1, x2, -(i * y1));
      Mul(p, y1, y1, y2, -(i * x1));
      assert x1 * -(i * y1) == y1 * -(i * x1);
    }
  }

  lemma ShiftIsEq(a: Affine, b: Affine)
    requires IsShift(a, b)
    ensures AffineEq(a, b)
  {
    var i := SQRT_M1;
    RotatedIs(a);
    ParallelIfSame(P, a.x, a.y, b.x, b.y);
    ParallelIfRotated(P, i, a.x, a.y, b.x, b.y);
  }

  lemma EqIsShift(a: Affine, b: Affine)
    requires IsPrime(P) && OnCurve(a.x, a.y) && OnCurve(b.x, b.y) && AffineEq(a, b)
    ensures IsShift(a, b)
  {
    if Eq(a.x * b.y, a.y * b.x) {
      ParallelPoints(a.x, a.y, b.x, b.y);
    } else {
      var i := SQRT_M1;
      RotatedIs(a);
      ShiftOnCurve(a.x, a.y);
      Mul(P, i, i, a.x * b.x, a.y * b.y);
      assert i * (a.x * b.x) == (i * a.x) * b.x && i * (a.y * b.y) == (i * a.y) * b.y;
      ParallelPoints(i * a.y, i * a.x, b.x, b.y);
    }
  }

  // The points of order dividing four.

  lemma MinusOneOnAxis()
    ensures OnCurve(0, P - 1) && IsReduced(0) && IsReduced(P - 1)
  {
    ReducedRange(0);
    ReducedRange(P - 1);
    CurveEquation(0, P - 1);
    CongIs(P, (P - 1) * (P - 1) - 0 * 0, 1);
    assert (0 * 0) * ((P - 1) * (P - 1)) == 0;
  }

  lemma OnAxis(x: FieldElement)
    requires x == SQRT_M1 || x == P - SQRT_M1
    ensures OnCurve(x, 0) && IsReduced(x) && IsReduced(0)
  {
    ReducedRange(x);
    ReducedRange(0);
    CurveEquation(x, 0);
    CongIs(P, 0 * 0 - x * x, 1);
    assert (x * x) * (0 * 0) == 0;
  }

  const TWO_TORSION: CurvePoint := (MinusOneOnAxis(); EdwardsGroup.Affine(0, P - 1))
  const QUARTER: CurvePoint := (OnAxis(P - SQRT_M1); EdwardsGroup.Affine(P - SQRT_M1, 0))
  const THREE_QUARTERS: CurvePoint := (OnAxis(SQRT_M1); EdwardsGroup.Affine(SQRT_M1, 0))

  predicate IsTorsion(t: CurvePoint) {
    t == ZERO || t == QUARTER || t == TWO_TORSION || t == THREE_QUARTERS
  }

  lemma TrivialDelta(p: int, d: int, m: int, x: int, y: int, u: int, v: int)
    requires x == 0 || y == 0
    ensures var dl := d * (m * (x * y)); u * (1 + dl) == u && v * (1 - dl) == v
  {
    assert x * y == 0;
    assert d * (m * 0) == 0;
  }

  lemma SumWithZero(a: CurvePoint, t: CurvePoint, x: FieldElement, y: FieldElement)
    requires IsPrime(P) && (t.x == 0 || t.y == 0) && Eq(x, a.x * t.y + t.x * a.y) && Eq(y, a.y * t.y + a.x * t.x)
    ensures Same(Sum(a, t), EdwardsGroup.Affine(x, y))
  {
    var s := Sum(a, t);
    SumEquations(a, t);
    TrivialDelta(P, EDWARDS_D, a.x * a.y, t.x, t.y, s.x, s.y);
  }

  lemma TimesMinusOne(x: FieldElement, k: FieldElement)
    ensures Eq(k * x, x * (P + k)) && Eq(k * x, (P + k) * x)
  {
    assert x * (P + k) == k * x + x * P && (P + k) * x == x * (P + k);
    MultipleIsZero(P, x);
    Difference(P, x * (P + k), k * x);
  }

  lemma HalfShift(a: CurvePoint)
    requires IsPrime(P)
    ensures Same(Sum(a, TWO_TORSION), Opposite(a))
  {
    TimesMinusOne(a.x, -1);
    TimesMinusOne(a.y, -1);
    SumWithZero(a, TWO_TORSION, -a.x, -a.y);
  }

  lemma ThreeQuartersShift(a: CurvePoint)
    requires IsPrime(P)
    ensures Same(Sum(a, THREE_QUARTERS), Rotated(a))
  {
    RotatedIs(a);
    SumWithZero(a, THREE_QUARTERS, SQRT_M1 * a.y, SQRT_M1 * a.x);
  }

  lemma QuarterShift(a: CurvePoint)
    requires IsPrime(P)
    ensures Same(Sum(a, QUARTER), Opposite(Rotated(a)))
  {
    var i := SQRT_M1;
    TimesMinusOne(a.x, -i);
    TimesMinusOne(a.y, -i);
    RotatedIs(a);
    SumWithZero(a, QUARTER, -(i * a.y), -(i * a.x));
  }

  /** Adding the four points of order dividing four gives the four shifts. */
  lemma TorsionShifts(a: CurvePoint)
    requires IsPrime(P)
    ensures Sum(a, ZERO) == a && Same(Sum(a, TWO_TORSION), Opposite(a))
    ensures Same(Sum(a, THREE_QUARTERS), Rotated(a)) && Same(Sum(a, QUARTER), Opposite(Rotated(a)))
  {
    SumZero(a);
    HalfShift(a);
    ThreeQuartersShift(a);
    QuarterShift(a);
  }

  lemma ShiftIsSum(a: CurvePoint, b: CurvePoint)
    requires IsPrime(P) && IsShift(a, b)
    ensures exists t: CurvePoint :: IsTorsion(t) && b == Sum(a, t)
  {
    TorsionShifts(a);
    var t :=
      if Same(b, a) then ZERO
      else if Same(b, Opposite(a)) then TWO_TORSION
      else if Same(b, Rotated(a)) then THREE_QUARTERS
      else QUARTER;
    SamePoint(b, Sum(a, t));
    assert IsTorsion(t);
  }

  /** Two representatives are equal Ristretto points exactly when their difference is one of the four torsion points. */
  lemma RistrettoEqIsCoset(p: EdwardsPoint, a: CurvePoint, q: EdwardsPoint, b: CurvePoint)
    requires IsPrime(P) && Extends(p, a) && Extends(q, b)
    ensures RistrettoEq(p, q) <==> exists t: CurvePoint :: IsTorsion(t) && b == Sum(a, t)
  {
    RescaledEq(p, a, q, b);
    TorsionShifts(a);
    if RistrettoEq(p, q) {
      EqIsShift(a, b);
      ShiftIsSum(a, b);
    }
    if t: CurvePoint :| IsTorsion(t) && b == Sum(a, t) {
      ShiftIsEq(a, b);
    }
  }

  // The coset of a point.

  const EIGHT_TORSION_2 := EdwardsPoint(P - SQRT_M1, 0, 1, 0)
  const EIGHT_TORSION_4 := EdwardsPoint(0, P - 1, 1, 0)
  const EIGHT_TORSION_6 := EdwardsPoint(SQRT_M1, 0, 1, 0)

  function Coset4(p: EdwardsPoint): seq<EdwardsPoint> {
    [p, AddExtended(p, EIGHT_TORSION_2), AddExtended(p, EIGHT_TORSION_4), AddExtended(p, EIGHT_TORSION_6)]
  }

  lemma TorsionRepresentatives()
    ensures Extends(EIGHT_TORSION_2, QUARTER) && Extends(EIGHT_TORSION_4, TWO_TORSION)
            && Extends(EIGHT_TORSION_6, THREE_QUARTERS)
  {
    WithUnitExtends(QUARTER);
    WithUnitExtends(TWO_TORSION);
    WithUnitExtends(THREE_QUARTERS);
  }

  lemma CosetPoints(p: EdwardsPoint, a: CurvePoint)
    requires IsPrime(P) && Extends(p, a)
    ensures var c := Coset4(p);
            && Extends(c[0], Sum(a, ZERO)) && Extends(c[1], Sum(a, QUARTER))
            && Extends(c[2], Sum(a, TWO_TORSION)) && Extends(c[3], Sum(a, THREE_QUARTERS))
  {
    TorsionRepresentatives();
    SumZero(a);
    AddExtendedCorrect(p, a, EIGHT_TORSION_2, QUARTER);
    AddExtendedCorrect(p, a, EIGHT_TORSION_4, TWO_TORSION);
    AddExtendedCorrect(p, a, EIGHT_TORSION_6, THREE_QUARTERS);
  }

  /** The equality test accepts exactly the members of the coset. */
  lemma RistrettoEqIsCoset4(p: EdwardsPoint, a: CurvePoint, q: EdwardsPoint, b: CurvePoint)
    requires IsPrime(P) && Extends(p, a) && Extends(q, b)
    ensures RistrettoEq(p, q) <==> exists k :: 0 <= k < 4 && CtEq(Coset4(p)[k], q)
  {
    var c := Coset4(p);
    RistrettoEqIsCoset(p, a, q, b);
    CosetPoints(p, a);
    CtEqIsEquality(c[0], Sum(a, ZERO), q, b);
    CtEqIsEquality(c[1], Sum(a, QUARTER), q, b);
    CtEqIsEquality(c[2], Sum(a, TWO_TORSION), q, b);
    CtEqIsEquality(c[3], Sum(a, THREE_QUARTERS), q, b);
    if RistrettoEq(p, q) {
      var t: CurvePoint :| IsTorsion(t) && b == Sum(a, t);
      var k := if t == ZERO then 0 else if t == QUARTER then 1 else if t == TWO_TORSION then 2 else 3;
      assert CtEq(c[k], q);
    }
  }

  // The four points are all the points of order dividing four.

  lemma Doubled(p: int, x: int, n: int)
    requires IsPrime(p) && p > 2 && Cong(p, n, -x) && Cong(p, x, n)
    ensures Cong(p, x, 0)
  {
    Add(p, x, -x, x, x);
    assert x + x == 2 * x;
    Product(p, 2, x);
    SmallUnits(p);
  }

  lemma ZeroXForcesY(p: int, d: int, x: int, y: int)
    requires IsPrime(p) && Cong(p, x, 0) && Cong(p, y * y - x * x, 1 + d * ((x * x) * (y * y)))
    ensures Cong(p, y, 1) || Cong(p, y, -1)
  {
    Mul(p, x, 0, x, 0);
    Mul(p, x * x, 0, y * y, y * y);
    Mul(p, d, d, (x * x) * (y * y), 0);
    Add(p, 1, 1, d * ((x * x) * (y * y)), 0);
    Add(p, y * y - x * x, 1, x * x, 0);
    FactorDifference(p, y, 1);
  }

  lemma XZero(a: CurvePoint)
    requires IsPrime(P) && Eq(a.x, 0)
    ensures a == ZERO || a == TWO_TORSION
  {
    CurveEquation(a.x, a.y);
    ZeroXForcesY(P, EDWARDS_D, a.x, a.y);
    Canonical(a.x, 0);
    if Eq(a.y, 1) {
      Canonical(a.y, 1);
    } else {
      Canonical(a.y, P - 1);
    }
  }

  /** A point that is its own negative is the identity or the point of order two. */
  lemma OrderDividesTwo(a: CurvePoint)
    requires IsPrime(P) && Sum(a, a) == ZERO
    ensures Eq(a.x, 0) && (a == ZERO || a == TWO_TORSION)
  {
    var n := Negate(a);
    SumUnit(a);
    SumCommutes(n, a);
    SumAssociates(n, a, a);
    SumZero(n);
    assert a == n;
    Doubled(P, a.x, n.x);
    XZero(a);
  }

  lemma CanonicalRoot(x: FieldElement)
    requires 0 <= x < P && (Eq(x, -SQRT_M1) || Eq(x, SQRT_M1))
    ensures x == P - SQRT_M1 || x == SQRT_M1
  {
    CongIs(P, x, -SQRT_M1);
    CongIs(P, x, SQRT_M1);
  }

  lemma UndoRotation(p: int, i: int, x: int, s: int)
    requires p > 0 && Cong(p, i * i, -1) && Cong(p, i * x, s)
    ensures Cong(p, x, -(i * s))
  {
    Mul(p, i * i, -1, x, x);
    assert (i * i) * x == i * (i * x);
    Mul(p, i, i, i * x, s);
    Add(p, 0, 0, -x, i * s);
  }

  lemma RotatedX(x: FieldElement, y: FieldElement)
    requires IsPrime(P) && OnCurve(x, y) && Eq(y, 0)
    ensures Eq(x, -SQRT_M1) || Eq(x, SQRT_M1)
  {
    var i := SQRT_M1;
    Constants();
    ShiftOnCurve(x, y);
    Product(P, i, y);
    CurveEquation(i * y, i * x);
    ZeroXForcesY(P, EDWARDS_D, i * y, i * x);
    UndoRotation(P, i, x, if Eq(i * x, 1) then 1 else -1);
  }

  lemma YZero(a: CurvePoint)
    requires IsPrime(P) && Eq(a.y, 0)
    ensures a == QUARTER || a == THREE_QUARTERS
  {
    RotatedX(a.x, a.y);
    ReducedRange(a.x);
    CanonicalRoot(a.x);
    Canonical(a.y, 0);
  }

  lemma FourTimes(t: CurvePoint)
    requires IsPrime(P)
    ensures Scale(4, t) == Sum(Sum(t, t), Sum(t, t))
  {
    SmallMultiples(t);
    AddMultiples(1, 1, t);
    AddMultiples(2, 2, t);
  }

  lemma DoubleWithZeroX(t: CurvePoint, u: CurvePoint)
    requires IsPrime(P) && u == Sum(t, t) && Eq(u.x, 0)
    ensures Eq(t.x, 0) || Eq(t.y, 0)
  {
    var dl := Delta(t.x, t.y, t.x, t.y);
    SumEquations(t, t);
    Product(P, u.x, 1 + dl);
    Constants();
    assert t.x * t.y + t.x * t.y == 2 * (t.x * t.y);
    Product(P, 2, t.x * t.y);
    Product(P, t.x, t.y);
  }

  lemma HalfOrderTwo(t: CurvePoint)
    requires IsPrime(P) && Eq(Sum(t, t).x, 0)
    ensures IsTorsion(t)
  {
    DoubleWithZeroX(t, Sum(t, t));
    if Eq(t.x, 0) {
      XZero(t);
    } else {
      YZero(t);
    }
  }

  lemma ZeroFourTimes(t: CurvePoint)
    requires IsPrime(P) && Sum(Sum(t, t), Sum(t, t)) == ZERO
    ensures IsTorsion(t)
  {
    OrderDividesTwo(Sum(t, t));
    HalfOrderTwo(t);
  }

  lemma TorsionSquares()
    ensures Eq((P - 1) * (P - 1), 1) && Eq(SQRT_M1 * SQRT_M1, P - 1) && Eq((P - SQRT_M1) * (P - SQRT_M1), P - 1)
  {
    CongIs(P, (P - 1) * (P - 1), 1);
    CongIs(P, SQRT_M1 * SQRT_M1, P - 1);
    CongIs(P, (P - SQRT_M1) * (P - SQRT_M1), P - 1);
  }

  lemma TorsionDoubles(t: CurvePoint)
    requires IsPrime(P) && IsTorsion(t)
    ensures Sum(t, t) == if t == ZERO || t == TWO_TORSION then ZERO else TWO_TORSION
  {
    TrivialDelta(P, EDWARDS_D, t.x * t.y, t.x, t.y, 0, if t == ZERO || t == TWO_TORSION then 1 else P - 1);
    TorsionSquares();
    SumLaw(t.x, t.y, t.x, t.y, 0, if t == ZERO || t == TWO_TORSION then 1 else P - 1);
    if t == ZERO {
      SumZero(ZERO);
    } else if t == TWO_TORSION {
      SumIs(t, t, ZERO);
    } else if t == QUARTER {
      SumIs(t, t, TWO_TORSION);
    } else {
      SumIs(t, t, TWO_TORSION);
    }
  }

  /** 4 t = 0 exactly for the four points. */
  lemma TorsionIsOrderFour(t: CurvePoint)
    requires IsPrime(P)
    ensures Scale(4, t) == ZERO <==> IsTorsion(t)
  {
    FourTimes(t);
    if Scale(4, t) == ZERO {
      ZeroFourTimes(t);
    }
    if IsTorsion(t) {
      TorsionDoubles(t);
      TorsionDoubles(Sum(t, t));
    }
  }

  /** Ristretto equality is equality modulo the points of order dividing four. */
  lemma RistrettoEqIsEqualityModuloTorsion(p: EdwardsPoint, a: CurvePoint, q: EdwardsPoint, b: CurvePoint)
    requires IsPrime(P) && Extends(p, a) && Extends(q, b)
    ensures RistrettoEq(p, q) <==> Scale(4, a) == Scale(4, b)
  {
    var t := Sum(b, Negate(a));
    RistrettoEqIsCoset(p, a, q, b);
    SumUnit(a);
    SumCommutes(b, Negate(a));
    SumAssociates(a, Negate(a), b);
    SumCommutes(a, Negate(a));
    SumZero(b);
    assert b == Sum(a, t);
    TorsionIsOrderFour(t);
    ScaleSum(4, a, t);
    SumZero(Scale(4, a));
    if Scale(4, a) == Scale(4, b) {
      CancelSum(Scale(4, a), Scale(4, t), ZERO);
    }
    forall s: CurvePoint | IsTorsion(s) && b == Sum(a, s)
      ensures s == t
    {
      CancelSum(a, s, t);
    }
  }
}
