/**
  The twist of the curve, whose u-coordinates are those that no point of the curve has. It is again a
  curve -x^2 + y^2 = 1 + d' x^2 y^2, with d' = 1 / d, on which u is -(1 + y) / (1 - y).
*/
module Twist {
  import opened Congruence
  import opened Primes
  import opened SquareRoots
  import opened Field
  import opened EdwardsLaw
  import opened Edwards
  import opened EdwardsGroup
  import opened Groups
  import opened ScalarMul
  import opened MontgomeryAlgebra
  import opened Montgomery

  /** 1 / d */
  const TWIST_D: int := 0x40907ed214d5ce432b162114cdb9cf660b5dd6984279542e25e0f276cdc9f843

  lemma TwistConstant()
    ensures Eq(EDWARDS_D * TWIST_D, 1)
  {
    CongIs(P, EDWARDS_D * TWIST_D, 1);
  }

  predicate OnTwist(x: FieldElement, y: FieldElement) {
    OnEdwardsAt(P, TWIST_D, x, y, 3)
  }

  lemma TwistEquation(x: FieldElement, y: FieldElement)
    ensures OnTwist(x, y) <==> OnEdwards(P, TWIST_D, x, y)
  {
    Unfolded(P, TWIST_D, x, y);
  }

  lemma RootOfInverse(p: int, d: int, d': int, s: int)
    requires p > 0 && Cong(p, d * d', 1) && Cong(p, s * s, d')
    ensures Cong(p, (s * d) * (s * d), d)
  {
    Interchange(s, d, s, d);
    Mul(p, s * s, d', d * d, d * d);
    Mul(p, d * d', 1, d, d);
    assert d' * (d * d) == (d * d') * d;
  }

  /** With d, 1 / d has no root either, so that the addition law of the twist is complete. */
  lemma TwistHasLaw()
    requires IsPrime(P)
    ensures HasLaw(P, TWIST_D)
  {
    Constants();
    TwistConstant();
    assert Root(P, -1, 1, SQRT_M1);
    forall s
      ensures !Root(P, TWIST_D, 1, s)
    {
      if Root(P, TWIST_D, 1, s) {
        RootOfInverse(P, EDWARDS_D, TWIST_D, s);
        DHasNoRoot(s * EDWARDS_D);
      }
    }
  }

  lemma ZeroOnTwist()
    ensures OnTwist(0, 1) && IsReduced(0) && IsReduced(1)
  {
    TwistEquation(0, 1);
    ReducedRange(0);
    ReducedRange(1);
  }

  /** A point of the twist in canonical affine coordinates. */
  type TwistPoint = a: Affine | IsReduced(a.x) && IsReduced(a.y) && OnTwist(a.x, a.y)
    witness (ZeroOnTwist(); Affine(0, 1))

  lemma CanonicalTwistPoint(x: FieldElement, y: FieldElement) returns (t: TwistPoint)
    requires OnTwist(x, y)
    ensures Eq(t.x, x) && Eq(t.y, y)
  {
    t := Affine(Remainder(P, x), Remainder(P, y)) by {
      Residue(P, x);
      Residue(P, y);
      ReducedRange(Remainder(P, x));
      ReducedRange(Remainder(P, y));
      TwistEquation(x, y);
      TwistEquation(Remainder(P, x), Remainder(P, y));
      OnEdwardsCong(P, TWIST_D, x, y, Remainder(P, x), Remainder(P, y));
    }
    Residue(P, x);
    Residue(P, y);
  }

  // The group.

  predicate IsTwistSum(a: Affine, b: Affine, c: Affine) {
    AddsUpAt(P, TWIST_D, a.x, a.y, b.x, b.y, c.x, c.y, 3)
  }

  lemma TwistLaw(a: Affine, b: Affine, c: Affine)
    ensures IsTwistSum(a, b, c) <==> AddsUp(P, TWIST_D, a.x, a.y, b.x, b.y, c.x, c.y)
  {
    UnfoldedSum(P, TWIST_D, a.x, a.y, b.x, b.y, c.x, c.y);
  }

  lemma TwistSumExists(a: TwistPoint, b: TwistPoint)
    requires IsPrime(P)
    ensures exists c: TwistPoint :: IsTwistSum(a, b, c)
  {
    TwistHasLaw();
    TwistEquation(a.x, a.y);
    TwistEquation(b.x, b.y);
    var x, y := LawHasSum(P, TWIST_D, a.x, a.y, b.x, b.y);
    TwistEquation(x, y);
    ReducedRange(x);
    ReducedRange(y);
    var c: TwistPoint := Affine(x, y);
    TwistLaw(a, b, c);
  }

  ghost function TwistSum(a: TwistPoint, b: TwistPoint): (c: TwistPoint)
    requires IsPrime(P)
    ensures IsTwistSum(a, b, c)
  {
    TwistSumExists(a, b);
    var c: TwistPoint :| IsTwistSum(a, b, c);
    c
  }

  lemma NegateOnTwist(x: FieldElement, y: FieldElement)
    requires OnTwist(x, y)
    ensures var x' := Remainder(P, -x); OnTwist(x', y) && Eq(x', -x) && IsReduced(x')
  {
    Residue(P, -x);
    ReducedRange(Remainder(P, -x));
    TwistEquation(x, y);
    LawHasInverse(P, TWIST_D, Remainder(P, -x), x, y);
    TwistEquation(Remainder(P, -x), y);
  }

  function NegateTwist(a: TwistPoint): (c: TwistPoint)
    ensures Eq(c.x, -a.x) && c.y == a.y
  {
    NegateOnTwist(a.x, a.y);
    Affine(Remainder(P, -a.x), a.y)
  }

  const TWIST_ZERO: TwistPoint := (ZeroOnTwist(); Affine(0, 1))

  ghost function TwistGroup(): Group<TwistPoint>
    requires IsPrime(P)
  {
    Group(TWIST_ZERO, (a: TwistPoint, b: TwistPoint) => TwistSum(a, b), (a: TwistPoint) => NegateTwist(a))
  }

  lemma TwistSumIs(a: TwistPoint, b: TwistPoint, c: TwistPoint)
    requires IsPrime(P) && IsTwistSum(a, b, c)
    ensures TwistSum(a, b) == c
  {
    var c' := TwistSum(a, b);
    TwistHasLaw();
    TwistEquation(a.x, a.y);
    TwistEquation(b.x, b.y);
    TwistLaw(a, b, c);
    TwistLaw(a, b, c');
    LawIsUnique(P, TWIST_D, a.x, a.y, b.x, b.y, c.x, c.y, c'.x, c'.y);
    Canonical(c.x, c'.x);
    Canonical(c.y, c'.y);
  }

  lemma TwistAssociates(a: TwistPoint, b: TwistPoint, c: TwistPoint)
    requires IsPrime(P)
    ensures TwistSum(TwistSum(a, b), c) == TwistSum(a, TwistSum(b, c))
  {
    var ab, bc := TwistSum(a, b), TwistSum(b, c);
    var l, r := TwistSum(ab, c), TwistSum(a, bc);
    TwistHasLaw();
    TwistEquation(a.x, a.y);
    TwistEquation(b.x, b.y);
    TwistEquation(c.x, c.y);
    TwistLaw(a, b, ab);
    TwistLaw(ab, c, l);
    TwistLaw(b, c, bc);
    TwistLaw(a, bc, r);
    LawAssociates(P, TWIST_D, a.x, a.y, b.x, b.y, c.x, c.y, ab.x, ab.y, bc.x, bc.y, l.x, l.y, r.x, r.y);
    Canonical(l.x, r.x);
    Canonical(l.y, r.y);
  }

  lemma TwistCommutes(a: TwistPoint, b: TwistPoint)
    requires IsPrime(P)
    ensures TwistSum(a, b) == TwistSum(b, a)
  {
    var c := TwistSum(b, a);
    TwistLaw(b, a, c);
    LawCommutes(P, TWIST_D, b.x, b.y, a.x, a.y, c.x, c.y);
    TwistLaw(a, b, c);
    TwistSumIs(a, b, c);
  }

  lemma TwistUnit(a: TwistPoint)
    requires IsPrime(P)
    ensures TwistSum(TWIST_ZERO, a) == a && TwistSum(NegateTwist(a), a) == TWIST_ZERO
  {
    LawHasZero(P, TWIST_D, a.x, a.y);
    TwistLaw(TWIST_ZERO, a, a);
    TwistSumIs(TWIST_ZERO, a, a);
    var n := NegateTwist(a);
    TwistEquation(a.x, a.y);
    LawHasInverse(P, TWIST_D, n.x, a.x, a.y);
    TwistLaw(n, a, TWIST_ZERO);
    TwistSumIs(n, a, TWIST_ZERO);
  }

  /** The points of the twist form an abelian group. */
  lemma TwistIsAbelian()
    requires IsPrime(P)
    ensures IsAbelian(TwistGroup())
  {
    var g := TwistGroup();
    forall a: TwistPoint, b: TwistPoint, c: TwistPoint
      ensures Associates(g, a, b, c)
    {
      TwistAssociates(a, b, c);
    }
    forall a: TwistPoint, b: TwistPoint
      ensures Commutes(g, a, b)
    {
      TwistCommutes(a, b);
    }
    forall a: TwistPoint
      ensures HasUnit(g, a)
    {
      TwistUnit(a);
    }
  }

  ghost function TwistScale(n: int, t: TwistPoint): TwistPoint
    requires IsPrime(P)
  {
    Multiple(TwistGroup(), n, t)
  }

  lemma TwistMultiples(m: int, n: int, t: TwistPoint)
    requires IsPrime(P)
    ensures IsTwistSum(TwistScale(m, t), TwistScale(n, t), TwistScale(m + n, t))
    ensures NegateTwist(TwistScale(n, t)) == TwistScale(-n, t)
    ensures TwistScale(0, t) == TWIST_ZERO && TwistScale(1, t) == t
  {
    TwistIsAbelian();
    MultipleAdd(TwistGroup(), m, n, t);
    MultipleNeg(TwistGroup(), n, t);
    MultipleSmall(TwistGroup(), t);
  }

  // Points of either curve.

  datatype Point = CurveSide(p: CurvePoint) | TwistSide(t: TwistPoint)

  /** u is the u-coordinate of a point, where 0 stands for that of an identity too. */
  predicate HasU(u: FieldElement, a: Point) {
    match a
    case CurveSide(p) => IsU(u, p)
    case TwistSide(t) => IsU(-u, t)
  }

  /** The multiple n a, in the group of its curve. */
  ghost function MultipleOf(n: int, a: Point): Point
    requires IsPrime(P)
  {
    match a
    case CurveSide(p) => CurveSide(Scale(n, p))
    case TwistSide(t) => TwistSide(TwistScale(n, t))
  }

  lemma ScaledRoot(p: int, v: int, r: int, w: int, i: int, k: int, d: int)
    requires p > 0 && Cong(p, i * i, -1) && Cong(p, v * (r * r), i * k) && Cong(p, w * w, d * i)
    ensures Cong(p, ((r * w) * (r * w)) * v, -(d * k))
  {
    Interchange(r, w, r, w);
    Mul(p, v * (r * r), i * k, w * w, d * i);
    assert (v * (r * r)) * (w * w) == ((r * r) * (w * w)) * v;
    Mul(p, i * i, -1, d * k, d * k);
    assert (i * k) * (d * i) == (i * i) * (d * k);
  }

  /** With X^2 (1 + d y^2) = d (1 - y^2), (X, 1 / y) lies on the curve with the constant 1 / d. */
  lemma InvertedEquation(p: int, d: int, d': int, y: int, y': int, xx: int)
    requires p > 0 && Cong(p, d * d', 1) && Cong(p, y * y', 1)
    requires Cong(p, xx * ((y * y) * d + 1), -(d * (y * y - 1)))
    ensures Cong(p, y' * y' - xx, 1 + d' * (xx * (y' * y')))
  {
    var b, b' := y * y, y' * y';
    Mul(p, y * y', 1, y * y', 1);
    Interchange(y, y', y, y');
    Mul(p, b * b', 1, d * d', 1);
    Mul(p, xx * (b * d + 1), -(d * (b - 1)), d' * b', d' * b');
    Mul(p, xx, xx, (b * b') * (d * d'), 1);
    assert (xx * (b * d + 1)) * (d' * b') == xx * ((b * b') * (d * d')) + d' * (xx * b');
    assert -(d * (b - 1)) * (d' * b') == -((b * b') * (d * d')) + (d * d') * b';
    Mul(p, d * d', 1, b', b');
    Add(p, (d * d') * b', b', (b * b') * (d * d'), 1);
    Add(p, xx * ((b * b') * (d * d')), xx, d' * (xx * b'), d' * (xx * b'));
    Add(p, b', b', xx + d' * (xx * b'), b' - 1);
    Difference(p, b' - xx, 1 + d' * (xx * b'));
    Difference(p, b' - (xx + d' * (xx * b')), b' - (b' - 1));
  }

  lemma InvertedCoordinate(p: int, u: int, y: int, y': int)
    requires p > 0 && Cong(p, u * (1 - y), 1 + y) && Cong(p, y * y', 1)
    ensures Cong(p, -u * (1 - y'), 1 + y') && (Cong(p, y', 1) ==> Cong(p, y, 1))
  {
    Mul(p, u * (1 - y), 1 + y, y', y');
    Mul(p, u, u, y * y', 1);
    assert (u * (1 - y)) * y' == u * y' - u * (y * y') && (1 + y) * y' == y' + y * y';
    Add(p, y', y', y * y', 1);
    Add(p, u * y', u * y', u * (y * y'), u * 1);
    assert -u * (1 - y') == u * y' - u;
    if Cong(p, y', 1) {
      Mul(p, y, y, y', 1);
    }
  }

  /** d i has a root, for neither of its factors has one. */
  lemma RootOfDI() returns (w: FieldElement)
    requires IsPrime(P)
    ensures Eq(w * w, EDWARDS_D * SQRT_M1)
  {
    var i, d := SQRT_M1, EDWARDS_D;
    SqrtRatioIContract(d * i, 1);
    w := SqrtRatioI(d * i, 1).1;
    SmallUnits(P);
    if !Eq(w * w, d * i) {
      Constants();
      Mul(P, i * i, -1, d, d);
      assert i * (d * i) == (i * i) * d;
      Mul(P, i * i, -1, w * w, -d);
      Interchange(i, w, i, w);
      DHasNoRoot(i * w);
    }
  }

  lemma CoordinateOfTwist(u: FieldElement, y: FieldElement, r: FieldElement) returns (a: Point)
    requires IsPrime(P) && Eq(u * (1 - y), 1 + y) && !Eq(y, 1) && !Eq(y, 0)
    requires Root(P, SQRT_M1 * (y * y - 1), (y * y) * EDWARDS_D + 1, r)
    ensures HasU(u, a)
  {
    var w := RootOfDI();
    var y' := Invert(y);
    Constants();
    TwistConstant();
    InvertIsInverse(y);
    ScaledRoot(P, (y * y) * EDWARDS_D + 1, r, w, SQRT_M1, y * y - 1, EDWARDS_D);
    InvertedEquation(P, EDWARDS_D, TWIST_D, y, y', (r * w) * (r * w));
    TwistEquation(r * w, y');
    var t := CanonicalTwistPoint(r * w, y');
    InvertedCoordinate(P, u, y, y');
    Coordinate(-u, y', t);
    a := TwistSide(t);
  }

  lemma MinusOneOnTwist(u: FieldElement) returns (a: Point)
    requires IsPrime(P) && Eq(u, -1)
    ensures HasU(u, a)
  {
    var i := SQRT_M1;
    Constants();
    assert 0 * 0 - i * i == -(i * i) && 1 + TWIST_D * ((i * i) * (0 * 0)) == 1;
    Add(P, 0, 0, i * i, -1);
    TwistEquation(i, 0);
    var t := CanonicalTwistPoint(i, 0);
    SmallUnits(P);
    Add(P, 0, 0, u, -1);
    Coordinate(-u, 0, t);
    a := TwistSide(t);
  }

  lemma CoordinateOfCurve(u: FieldElement, y: FieldElement, x: FieldElement) returns (a: Point)
    requires Eq(u * (1 - y), 1 + y) && !Eq(y, 1) && OnCurve(x, y)
    ensures HasU(u, a)
  {
    CanonicalPoint(x, y);
    var p: CurvePoint := Affine(Remainder(P, x), Remainder(P, y));
    Coordinate(u, y, p);
    a := CurveSide(p);
  }

  /** With y = 0, x is a root of -1. */
  lemma ZeroYOnCurve(y: FieldElement)
    requires Eq(y, 0)
    ensures OnCurve(SQRT_M1, y)
  {
    var i := SQRT_M1;
    Constants();
    CurveEquation(i, 0);
    assert 0 * 0 - i * i == -(i * i) && 1 + EDWARDS_D * ((i * i) * (0 * 0)) == 1;
    Add(P, 0, 0, i * i, -1);
    OnCurveCong(i, 0, i, y);
  }

  /** Every field element is the u-coordinate of a point of the curve or of its twist. */
  lemma EveryCoordinate(u: FieldElement) returns (a: Point)
    requires IsPrime(P)
    ensures HasU(u, a)
  {
    if Eq(u, 0) {
      a := CurveSide(ZERO);
    } else if Eq(u, -1) {
      a := MinusOneOnTwist(u);
    } else {
      var y := (u - 1) * Invert(u + 1);
      UFromY(u, y);
      var (ok, r) := SqrtRatioI(y * y - 1, (y * y) * EDWARDS_D + 1);
      SqrtRatioIContract(y * y - 1, (y * y) * EDWARDS_D + 1);
      DenominatorNonZero(y);
      if Eq(y, 0) {
        ZeroYOnCurve(y);
        a := CoordinateOfCurve(u, y, SQRT_M1);
      } else if ok {
        CurveAsRatio(r, y);
        a := CoordinateOfCurve(u, y, r);
      } else {
        a := CoordinateOfTwist(u, y, r);
      }
    }
  }

  lemma ZeroXIsOrderTwo(p: int, d: int, x: int, y: int)
    requires p > 0 && Cong(p, x, 0) && OnEdwards(p, d, x, y)
    ensures Cong(p, y * y, 1)
  {
    Mul(p, x, 0, x, 0);
    Mul(p, x * x, 0, y * y, y * y);
    Mul(p, d, d, (x * x) * (y * y), 0);
    Add(p, 1, 1, d * ((x * x) * (y * y)), 0);
    Add(p, y * y - x * x, 1, x * x, 0);
  }

  lemma ZeroXCoordinate(a: Affine)
    requires IsPrime(P) && IsReduced(a.y) && Eq(a.y * a.y, 1)
    ensures IsU(0, a)
  {
    assert a.y * a.y == a.y * a.y && 1 == 1 * 1;
    FactorDifference(P, a.y, 1);
    if Eq(a.y, 1) {
      ReducedRange(1);
      Canonical(a.y, 1);
    } else {
      Add(P, 1, 1, a.y, -1);
      assert 0 * (1 - a.y) == 0;
    }
  }

  lemma InverseY(p: int, u: int, y: int, y': int)
    requires IsPrime(p) && p > 2 && Cong(p, u * (1 - y), 1 + y) && Cong(p, -u * (1 - y'), 1 + y')
    ensures Cong(p, y * y', 1)
  {
    InverseMapDenominator(p, u, y);
    DifferenceEquation(p, u, 1, y);
    DifferenceEquation(p, -u, 1, y');
    assert 1 * (1 + y) == 1 + y && 1 * (1 + y') == 1 + y';
    Mul(p, u - 1, y * (u + 1), y', y');
    Add(p, 0, 0, -u - 1, y' * (-u + 1));
    assert -(y' * (-u + 1)) == (u - 1) * y';
    assert (y * (u + 1)) * y' == (y * y') * (u + 1);
    CancelRight(p, u + 1, 1, y * y');
  }

  lemma ClearInverses(p: int, d: int, d': int, a: int, b: int, b': int)
    requires p > 0 && Cong(p, d * d', 1) && Cong(p, b * b', 1) && Cong(p, a * (1 + d' * b'), b' - 1)
    ensures Cong(p, a * (b * d + 1), -d * (b - 1))
  {
    var k, e, f := b * d, b * b', d * d';
    Mul(p, a * (1 + d' * b'), b' - 1, k, k);
    Interchange(b, d, b', d');
    assert (1 + d' * b') * k == k + e * f;
    assert (b' - 1) * k == e * d - k;
    ProductAssociates(a, 1 + d' * b', k);
    Mul(p, e, 1, f, 1);
    Add(p, k, k, e * f, 1);
    Mul(p, a, a, k + e * f, k + 1);
    Mul(p, e, 1, d, d);
    Add(p, e * d, d, k, k);
    assert d - k == -d * (b - 1);
  }

  /** With y y' = 1, points (x, y) of the curve and (x', y') of the twist would give d x^2 = -x'^2. */
  lemma CommonCoordinate(p: int, d: int, d': int, x: int, y: int, x': int, y': int)
    requires HasLaw(p, d) && Cong(p, d * d', 1) && Cong(p, y * y', 1)
    requires OnEdwards(p, d, x, y) && OnEdwards(p, d', x', y')
    ensures Cong(p, x' * x', -(d * (x * x)))
  {
    var a, b, a', b' := x * x, y * y, x' * x', y' * y';
    XSquared(p, d, a, b);
    XSquared(p, d', a', b');
    Mul(p, y * y', 1, y * y', 1);
    Interchange(y, y', y, y');
    ClearInverses(p, d, d', a', b, b');
    Mul(p, -d, -d, a * (1 + d * b), b - 1);
    assert 1 + d * b == b * d + 1;
    ProductAssociates(-d, a, b * d + 1);
    LawDenominator(p, d, y);
    CancelRight(p, b * d + 1, a', -d * a);
    assert -d * a == -(d * a);
  }

  lemma RootlessRatio(p: int, d: int, x: int, x': int)
    requires HasLaw(p, d) && Cong(p, x' * x', -(d * (x * x)))
    ensures Cong(p, x, 0)
  {
    var i :| Root(p, -1, 1, i);
    Mul(p, i * i, -1, x' * x', -(d * (x * x)));
    Interchange(i, x', i, x');
    SquareRatio(p, d, i * x', x);
  }

  /** Only u = 0 is the coordinate of points of both curves. */
  lemma OneSide(u: FieldElement, p: CurvePoint, t: TwistPoint)
    requires IsPrime(P) && HasU(u, CurveSide(p)) && HasU(u, TwistSide(t))
    ensures Eq(u, 0)
  {
    if p.y != 1 && t.y != 1 {
      InverseY(P, u, p.y, t.y);
      CurveHasLaw();
      TwistConstant();
      CurveEquation(p.x, p.y);
      TwistEquation(t.x, t.y);
      CommonCoordinate(P, EDWARDS_D, TWIST_D, p.x, p.y, t.x, t.y);
      RootlessRatio(P, EDWARDS_D, p.x, t.x);
      ZeroXIsOrderTwo(P, EDWARDS_D, p.x, p.y);
      ZeroXCoordinate(p);
      UIsUnique(u, 0, p);
    } else if p.y != 1 {
      Add(P, 0, 0, -u, 0);
    }
  }

  /** The point of order two, with the coordinate 0. */
  lemma ZeroIsConverted(m: Bytes32, sign: nat)
    requires IsPrime(P) && Eq(FromBytes(m), 0)
    ensures ToEdwards(m, sign).Some?
  {
    var u, y := FromBytes(m), P - 1;
    ReducedRange(0);
    ReducedRange(y);
    MultipleIsZero(P, 1);
    Add(P, 1 * P, 0, 1, 1);
    ZeroOnCurve();
    MinusY(P, EDWARDS_D, 0, 1);
    CurveEquation(0, 1);
    CurveEquation(0, -1);
    OnCurveCong(0, -1, 0, y);
    var a: CurvePoint := Affine(0, y);
    Mul(P, u, 0, 1 - y, 1 - y);
    Add(P, 1, 1, y, -1);
    CoordinateIsConverted(m, sign, a);
  }

  lemma TwistIsNotConverted(m: Bytes32, sign: nat, t: TwistPoint)
    requires IsPrime(P) && !Eq(FromBytes(m), 0) && HasU(FromBytes(m), TwistSide(t))
    ensures ToEdwards(m, sign).None?
  {
    if ToEdwards(m, sign).Some? {
      var p := ConvertedPoint(m, sign);
      OneSide(FromBytes(m), p, t);
    }
  }

  /** A string is not converted exactly when it is a nonzero u-coordinate of a point of the twist. */
  lemma ToEdwardsRejectsTwist(m: Bytes32, sign: nat)
    requires IsPrime(P)
    ensures ToEdwards(m, sign).None? <==> !Eq(FromBytes(m), 0) && exists t :: HasU(FromBytes(m), TwistSide(t))
  {
    var u := FromBytes(m);
    if Eq(u, 0) {
      ZeroIsConverted(m, sign);
    } else {
      var a := EveryCoordinate(u);
      match a
      case CurveSide(p) =>
        CoordinateIsConverted(m, sign, p);
        forall t | HasU(u, TwistSide(t))
          ensures false
        {
          OneSide(u, p, t);
        }
      case TwistSide(t) =>
        TwistIsNotConverted(m, sign, t);
    }
  }
}
