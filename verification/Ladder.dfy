/** The Montgomery ladder with delayed swaps computes multiples, on the curve and on its twist. */
module Ladder {
  import opened Congruence
  import opened Digits
  import opened Primes
  import opened SquareRoots
  import opened Field
  import opened EdwardsLaw
  import opened Edwards
  import opened EdwardsGroup
  import opened CurveModels
  import opened Recoding
  import opened ScalarMul
  import opened MontgomeryAlgebra
  import opened Montgomery
  import opened Twist

  // The step.

  function XDoubled(c: int, k: Ratio): Ratio {
    var s, m := k.U + k.W, k.U - k.W;
    var t4, t5 := s * s, m * m;
    var t6 := t4 - t5;
    Ratio(t4 * t5, t6 * (c * t6 + t5))
  }

  function XAdded(k: Ratio, l: Ratio, affinePmQ: FieldElement): Ratio {
    var t7, t8 := (k.U + k.W) * (l.U - l.W), (k.U - k.W) * (l.U + l.W);
    Ratio((t7 + t8) * (t7 + t8), affinePmQ * ((t7 - t8) * (t7 - t8)))
  }

  /** The ladder with the constant c works on the curve with the constant d. */
  ghost predicate Fits(c: int, d: int) {
    HasLaw(P, d) && !Eq(c, 0) && Eq(d * c, 1 - c)
  }

  lemma DoubledRatio(p: int, c: int, d: int, x: int, y: int, s: int, m: int, y2: int)
    requires IsPrime(p) && !Cong(p, c, 0) && Cong(p, d * c, 1 - c) && !Cong(p, s, 0) && Cong(p, m, y * s)
    requires Cong(p, y * y - x * x, 1 + d * ((x * x) * (y * y)))
    requires var dl := d * ((x * y) * (x * y)); !Cong(p, 1 - dl, 0) && Cong(p, y2 * (1 - dl), y * y + x * x)
    ensures var t6 := s * s - m * m;
            var u, w := (s * s) * (m * m), t6 * (c * t6 + m * m);
            !Cong(p, u + w, 0) && Cong(p, u - w, y2 * (u + w))
  {
    var aa, bb, dl, ss := x * x, y * y, d * ((x * y) * (x * y)), s * s;
    Interchange(x, y, x, y);
    Add(p, bb - aa, 1 + d * (aa * bb), 1 - dl, 1 - dl);
    Add(p, 2, 2, bb - aa, 1 + dl);
    Mul(p, m, y * s, m, y * s);
    Interchange(y, s, y, s);
    XDouble(p, c, d, aa, bb, s, m, y2, 1 - dl);
    DoublingFactorNonZero(p, c, d, aa, bb);
    Product(p, s, s);
    Product(p, ss, ss);
    Product(p, ss * ss, bb + c * (1 - bb));
    Product(p, (ss * ss) * (bb + c * (1 - bb)), 1 - dl);
  }

  /** The first output denotes b = a + a. */
  lemma DoubledMeaning(c: int, d: int, k: Ratio, a: Affine, b: Affine)
    requires Fits(c, d) && OnEdwards(P, d, a.x, a.y) && AddsUp(P, d, a.x, a.y, a.x, a.y, b.x, b.y)
    requires Denotes(k, a)
    ensures Denotes(XDoubled(c, k), b)
  {
    var r, s, m := XDoubled(c, k), k.U + k.W, k.U - k.W;
    DenotesIs(k, a);
    DenotesIs(r, b);
    assert r.U == (s * s) * (m * m) && r.W == (s * s - m * m) * (c * (s * s - m * m) + m * m);
    LawIsComplete(P, d, a.x, a.y, a.x, a.y);
    DoubledRatio(P, c, d, a.x, a.y, s, m, b.y);
  }

  lemma NegatedDelta(p: int, d: int, x: int, y: int, n: int, x2: int, y2: int)
    requires p > 0 && Cong(p, n, -x2)
    ensures Cong(p, d * ((x * y) * (n * y2)), -(d * ((x * y) * (x2 * y2))))
  {
    Mul(p, n, -x2, (d * (x * y)) * y2, (d * (x * y)) * y2);
    assert n * ((d * (x * y)) * y2) == d * ((x * y) * (n * y2));
    assert -x2 * ((d * (x * y)) * y2) == -(d * ((x * y) * (x2 * y2)));
  }

  lemma SumOfNegative(p: int, d: int, x: int, y: int, n: int, x2: int, y2: int, ym: int)
    requires p > 0 && Cong(p, n, -x2) && Cong(p, ym * (1 - d * ((x * y) * (n * y2))), y * y2 + x * n)
    ensures Cong(p, ym * (1 + d * ((x * y) * (x2 * y2))), y * y2 - x * x2)
  {
    var dl, dl' := d * ((x * y) * (x2 * y2)), d * ((x * y) * (n * y2));
    NegatedDelta(p, d, x, y, n, x2, y2);
    Add(p, 1, 1, dl', -dl);
    Mul(p, ym, ym, 1 - dl', 1 + dl);
    Mul(p, x, x, n, -x2);
    Add(p, y * y2, y * y2, x * n, -(x * x2));
  }

  /** u is the coordinate of the difference of two points; it is neither 0 nor infinite. */
  predicate IsDifference(u: FieldElement, ym: FieldElement) {
    !Eq(u, 0) && !Eq(1 - ym, 0) && Eq(u * (1 - ym), 1 + ym)
  }

  lemma AddedRatio(p: int, s1: int, m1: int, y1: int, s2: int, m2: int, y2: int, u: int, yp: int, ym: int)
    requires IsPrime(p) && Cong(p, m1, y1 * s1) && Cong(p, m2, y2 * s2) && !Cong(p, s1, 0) && !Cong(p, s2, 0)
    requires Cong(p, ((1 - yp) * (1 - ym)) * ((y1 + y2) * (y1 + y2)), ((1 + yp) * (1 + ym)) * ((y1 - y2) * (y1 - y2)))
    requires Cong(p, u * (1 - ym), 1 + ym) && !Cong(p, 1 - ym, 0)
    requires !Cong(p, (y1 + y2) * (y1 + y2) + u * ((y1 - y2) * (y1 - y2)), 0)
    ensures var t7, t8 := s1 * m2, m1 * s2;
            var U, W := (t7 + t8) * (t7 + t8), u * ((t7 - t8) * (t7 - t8));
            !Cong(p, U + W, 0) && Cong(p, U - W, yp * (U + W))
  {
    var ss, w := s1 * s2, (y1 + y2) * (y1 + y2) + u * ((y1 - y2) * (y1 - y2));
    XAdd(p, s1, m1, y1, s2, m2, y2, u, yp, ym);
    Product(p, s1, s2);
    Product(p, ss, ss);
    Product(p, ss * ss, w);
  }

  lemma AddedIdentity(p: int, d: int, x1: int, y1: int, x2: int, y2: int, yp: int, ym: int)
    requires HasLaw(p, d) && OnEdwards(p, d, x1, y1) && OnEdwards(p, d, x2, y2)
    requires var dl := d * ((x1 * y1) * (x2 * y2));
             Cong(p, yp * (1 - dl), y1 * y2 + x1 * x2) && Cong(p, ym * (1 + dl), y1 * y2 - x1 * x2)
    ensures Cong(p, ((1 - yp) * (1 - ym)) * ((y1 + y2) * (y1 + y2)), ((1 + yp) * (1 + ym)) * ((y1 - y2) * (y1 - y2)))
  {
    LawIsComplete(p, d, x1, y1, x2, y2);
    Interchange(x1, y1, x2, y2);
    LawDenominator(p, d, y1);
    LawDenominator(p, d, y2);
    assert d * (y1 * y1) == (y1 * y1) * d && d * (y2 * y2) == (y2 * y2) * d;
    DifferentialIdentity(p, d, x1, y1, x2, y2, yp, ym);
  }

  lemma ZeroY(p: int, d: int, x: int, y: int)
    requires p > 0 && Cong(p, y, 0) && Cong(p, y * y - x * x, 1 + d * ((x * x) * (y * y)))
    ensures Cong(p, x * x, -1)
  {
    Mul(p, y, 0, y, 0);
    Mul(p, x * x, x * x, y * y, 0);
    Mul(p, d, d, (x * x) * (y * y), 0);
    Add(p, 1, 1, d * ((x * x) * (y * y)), 0);
    Add(p, y * y, 0, y * y - x * x, 1);
  }

  lemma ZeroYSum(p: int, d: int, x1: int, y1: int, x2: int, y2: int, ym: int)
    requires p > 0 && Cong(p, y1, 0) && Cong(p, y2, 0)
    requires Cong(p, ym * (1 + d * ((x1 * y1) * (x2 * y2))), y1 * y2 - x1 * x2)
    ensures Cong(p, ym, -(x1 * x2))
  {
    Mul(p, y1, 0, y2, 0);
    Add(p, y1 * y2, 0, x1 * x2, x1 * x2);
    Interchange(x1, y1, x2, y2);
    Mul(p, x1 * x2, x1 * x2, y1 * y2, 0);
    Mul(p, d, d, (x1 * x2) * (y1 * y2), 0);
    Add(p, 1, 1, d * ((x1 * y1) * (x2 * y2)), 0);
    Mul(p, ym, ym, 1 + d * ((x1 * y1) * (x2 * y2)), 1);
  }

  lemma AddedNonZero(p: int, d: int, x1: int, y1: int, x2: int, y2: int, u: int, yp: int, ym: int)
    requires HasLaw(p, d) && OnEdwards(p, d, x1, y1) && OnEdwards(p, d, x2, y2)
    requires Cong(p, ym * (1 + d * ((x1 * y1) * (x2 * y2))), y1 * y2 - x1 * x2)
    requires !Cong(p, u, 0) && !Cong(p, 1 - ym, 0) && Cong(p, u * (1 - ym), 1 + ym)
    requires var v, w := (y1 + y2) * (y1 + y2), u * ((y1 - y2) * (y1 - y2)); Cong(p, v - w, yp * (v + w))
    ensures !Cong(p, (y1 + y2) * (y1 + y2) + u * ((y1 - y2) * (y1 - y2)), 0)
  {
    if Cong(p, y1, 0) && Cong(p, y2, 0) {
      ZeroY(p, d, x1, y1);
      ZeroY(p, d, x2, y2);
      ZeroYSum(p, d, x1, y1, x2, y2, ym);
    }
    XAddNonZero(p, y1, y2, x1, x2, u, yp, ym);
  }

  /** The second output denotes plus = a + b if u is the coordinate of minus = a - b. */
  lemma AddedMeaning(d: int, k: Ratio, a: Affine, l: Ratio, b: Affine, u: FieldElement, n: FieldElement,
                     plus: Affine, minus: Affine)
    requires HasLaw(P, d) && OnEdwards(P, d, a.x, a.y) && OnEdwards(P, d, b.x, b.y)
    requires AddsUp(P, d, a.x, a.y, b.x, b.y, plus.x, plus.y)
    requires Eq(n, -b.x) && AddsUp(P, d, a.x, a.y, n, b.y, minus.x, minus.y)
    requires Denotes(k, a) && Denotes(l, b) && IsDifference(u, minus.y)
    ensures Denotes(XAdded(k, l, u), plus)
  {
    var ym, yp := minus.y, plus.y;
    DenotesIs(k, a);
    DenotesIs(l, b);
    SumOfNegative(P, d, a.x, a.y, n, b.x, b.y, ym);
    AddedIdentity(P, d, a.x, a.y, b.x, b.y, yp, ym);
    ClearDifference(P, (a.y + b.y) * (a.y + b.y), (a.y - b.y) * (a.y - b.y), u, yp, ym);
    AddedNonZero(P, d, a.x, a.y, b.x, b.y, u, yp, ym);
    AddedRatio(P, k.U + k.W, k.U - k.W, a.y, l.U + l.W, l.U - l.W, b.y, u, yp, ym);
    DenotesIs(XAdded(k, l, u), plus);
  }

  // Multiples, by what the ladder needs of them on any curve with the addition law.

  /** The m-th and the n-th multiple add up to their sum, and the negative of the n-th is the -n-th. */
  ghost predicate SumsAt(d: int, f: int -> Affine, m: int, n: int) {
    && OnEdwards(P, d, f(n).x, f(n).y)
    && AddsUp(P, d, f(m).x, f(m).y, f(n).x, f(n).y, f(m + n).x, f(m + n).y)
    && Eq(f(-n).x, -f(n).x)
    && f(-n).y == f(n).y
    && IsReduced(f(n).y)
  }

  /** f(n) is the multiple n f(1). */
  ghost predicate AreMultiples(d: int, f: int -> Affine) {
    f(0) == Affine(0, 1) && forall m, n :: SumsAt(d, f, m, n)
  }

  /** The pair holds the n-th and the next multiple, in the order that the last bit gives. */
  ghost predicate HoldsPair(k: Ratio, l: Ratio, swapped: bool, n: int, f: int -> Affine) {
    Denotes(if swapped then l else k, f(n)) && Denotes(if swapped then k else l, f(n + 1))
  }

  lemma FiniteDifference(u: FieldElement, a: Affine)
    requires IsPrime(P) && IsU(u, a) && !Eq(u, 0) && IsReduced(a.y)
    ensures IsDifference(u, a.y)
  {
    if a.y != 1 {
      NotIdentityY(a);
    }
  }

  lemma PairDoubled(c: int, d: int, f: int -> Affine, k: Ratio, n: int)
    requires Fits(c, d) && AreMultiples(d, f) && Denotes(k, f(n))
    ensures Denotes(XDoubled(c, k), f(2 * n))
  {
    assert SumsAt(d, f, n, n) && n + n == 2 * n;
    DoubledMeaning(c, d, k, f(n), f(2 * n));
  }

  /** The multiples that are added differ by the first or its negative, which have the same u-coordinate. */
  lemma PairAdded(d: int, f: int -> Affine, k: Ratio, m: int, l: Ratio, n: int, u: FieldElement)
    requires HasLaw(P, d) && AreMultiples(d, f) && Denotes(k, f(m)) && Denotes(l, f(n))
    requires m - n == 1 || m - n == -1
    requires IsU(u, f(1)) && !Eq(u, 0)
    ensures Denotes(XAdded(k, l, u), f(m + n))
  {
    assert SumsAt(d, f, m, n) && SumsAt(d, f, n, m) && SumsAt(d, f, m, -n) && SumsAt(d, f, 0, 1);
    FiniteDifference(u, f(1));
    AddedMeaning(d, k, f(m), l, f(n), u, f(-n).x, f(m + n), f(m - n));
  }

  /** One step, where the pair is in the order of the bit that is being processed. */
  lemma PairStep(c: int, d: int, f: int -> Affine, k: Ratio, l: Ratio, bit: bool, n: int, u: FieldElement)
    requires Fits(c, d) && AreMultiples(d, f) && IsU(u, f(1)) && !Eq(u, 0) && HoldsPair(k, l, bit, n, f)
    ensures HoldsPair(XDoubled(c, k), XAdded(k, l, u), bit, if bit then 2 * n + 1 else 2 * n, f)
  {
    if bit {
      PairDoubled(c, d, f, k, n + 1);
      PairAdded(d, f, k, n + 1, l, n, u);
      assert 2 * (n + 1) == (2 * n + 1) + 1 && (n + 1) + n == 2 * n + 1;
    } else {
      PairDoubled(c, d, f, k, n);
      PairAdded(d, f, k, n, l, n + 1, u);
      assert n + (n + 1) == 2 * n + 1;
    }
  }

  // The degenerate coordinate u = 0, of the identity and of the point of order two.

  /** Either U or W vanishes. */
  predicate IsAxis(k: Ratio) {
    Eq(k.U * k.W, 0)
  }

  lemma AxisSquares(p: int, u: int, w: int)
    requires p > 0 && Cong(p, u * w, 0)
    ensures Cong(p, (u + w) * (u + w) - (u - w) * (u - w), 0)
  {
    assert (u + w) * (u + w) - (u - w) * (u - w) == 4 * (u * w);
    Mul(p, 4, 4, u * w, 0);
  }

  lemma StepKeepsAxis(c: int, k: Ratio, l: Ratio, u: FieldElement)
    requires IsPrime(P) && IsAxis(k) && Eq(u, 0)
    ensures IsAxis(XDoubled(c, k)) && IsAxis(XAdded(k, l, u))
  {
    AxisSquares(P, k.U, k.W);
    var s, m := k.U + k.W, k.U - k.W;
    var t6 := s * s - m * m;
    Product(P, t6, c * t6 + m * m);
    Product(P, XDoubled(c, k).U, XDoubled(c, k).W);
    var r := XAdded(k, l, u);
    var t := s * (l.U - l.W) - m * (l.U + l.W);
    Product(P, u, t * t);
    Product(P, r.U, r.W);
  }

  lemma AxisIsZero(k: Ratio)
    requires IsPrime(P) && IsAxis(k)
    ensures Eq(ToAffine(k), 0)
  {
    Product(P, k.U, k.W);
    InvertIsInverse(k.W);
    Product(P, k.U, Invert(k.W));
    Residue(P, k.U * Invert(k.W));
  }

  lemma ZeroXSum(p: int, d: int, x1: int, y1: int, x2: int, y2: int, x3: int, y3: int)
    requires p > 0 && Cong(p, x1, 0) && Cong(p, x2, 0) && AddsUp(p, d, x1, y1, x2, y2, x3, y3)
    ensures Cong(p, x3, 0)
  {
    Mul(p, x1, 0, y1, y1);
    Mul(p, x1 * y1, 0, x2 * y2, x2 * y2);
    Mul(p, d, d, (x1 * y1) * (x2 * y2), 0);
    Add(p, 1, 1, d * ((x1 * y1) * (x2 * y2)), 0);
    Mul(p, x3, x3, 1 + d * ((x1 * y1) * (x2 * y2)), 1);
    Mul(p, x1, 0, y2, y2);
    Mul(p, x2, 0, y1, y1);
    Add(p, x1 * y2, 0, x2 * y1, 0);
  }

  /** All multiples of a point with x = 0 have x = 0. */
  lemma {:induction false} ZeroXMultiples(d: int, f: int -> Affine, n: nat)
    requires AreMultiples(d, f) && Eq(f(1).x, 0)
    ensures Eq(f(n).x, 0)
  {
    if n > 0 {
      ZeroXMultiples(d, f, n - 1);
      assert SumsAt(d, f, n - 1, 1);
      ZeroXSum(P, d, f(n - 1).x, f(n - 1).y, f(1).x, f(1).y, f(n).x, f(n).y);
    }
  }

  lemma ZeroCoordinateX(c: int, d: int, a: Affine, u: FieldElement)
    requires Fits(c, d) && OnEdwards(P, d, a.x, a.y) && IsU(u, a) && Eq(u, 0)
    ensures Eq(a.x, 0)
  {
    if a.y != 1 {
      Mul(P, u, 0, 1 - a.y, 1 - a.y);
      Add(P, 1 + a.y, 0, 1, 1);
      Mul(P, a.y, -1, a.y, -1);
    }
    OrderTwoIsZeroX(P, c, d, a.x, a.y);
  }

  /** Every multiple of a point with u = 0 has u = 0. */
  lemma DegenerateMultiples(c: int, d: int, f: int -> Affine, u: FieldElement, n: nat)
    requires Fits(c, d) && AreMultiples(d, f) && IsU(u, f(1)) && Eq(u, 0)
    ensures IsU(0, f(n))
  {
    assert SumsAt(d, f, 0, 1) && SumsAt(d, f, 0, n);
    ZeroCoordinateX(c, d, f(1), u);
    ZeroXMultiples(d, f, n);
    ZeroXIsOrderTwo(P, d, f(n).x, f(n).y);
    ZeroXCoordinate(f(n));
  }

  // The two curves: the twist sees the pair with the opposite sign of U.

  function Coordinates(a: Point): Affine {
    match a
    case CurveSide(p) => p
    case TwistSide(t) => t
  }

  /** The coordinates of all multiples of a point. */
  ghost function Multiples(a: Point): int -> Affine
    requires IsPrime(P)
  {
    n => Coordinates(MultipleOf(n, a))
  }

  lemma CurveSumsAt(p: CurvePoint, m: int, n: int)
    requires IsPrime(P)
    ensures SumsAt(EDWARDS_D, Multiples(CurveSide(p)), m, n)
  {
    var a, b, c := Scale(m, p), Scale(n, p), Scale(m + n, p);
    AddMultiples(m, n, p);
    NegateMultiple(n, p);
    CurveEquation(b.x, b.y);
    SumLaw(a.x, a.y, b.x, b.y, c.x, c.y);
  }

  lemma TwistSumsAt(t: TwistPoint, m: int, n: int)
    requires IsPrime(P)
    ensures SumsAt(TWIST_D, Multiples(TwistSide(t)), m, n)
  {
    var a, b, c := TwistScale(m, t), TwistScale(n, t), TwistScale(m + n, t);
    TwistMultiples(m, n, t);
    TwistEquation(b.x, b.y);
    TwistLaw(a, b, c);
  }

  lemma CurveFits()
    requires IsPrime(P)
    ensures Fits(APLUS2_OVER_FOUR, EDWARDS_D)
  {
    CurveHasLaw();
    Constants();
    NotZero(P, APLUS2_OVER_FOUR);
  }

  lemma InverseFits(p: int, c: int, d: int, d': int)
    requires p > 0 && Cong(p, d * c, 1 - c) && Cong(p, d * d', 1)
    ensures Cong(p, d' * (1 - c), c)
  {
    Mul(p, d * c, 1 - c, d', d');
    Mul(p, d * d', 1, c, c);
    assert (d * c) * d' == (d * d') * c && (1 - c) * d' == d' * (1 - c);
  }

  lemma NonZeroNegative(u: FieldElement)
    ensures Eq(-u, 0) <==> Eq(u, 0)
  {
    if Eq(-u, 0) {
      Add(P, 0, 0, -u, 0);
    }
    if Eq(u, 0) {
      Add(P, 0, 0, u, 0);
    }
  }

  lemma TwistFits()
    requires IsPrime(P)
    ensures Fits(1 - APLUS2_OVER_FOUR, TWIST_D)
  {
    var c := APLUS2_OVER_FOUR;
    CurveFits();
    TwistHasLaw();
    TwistConstant();
    InverseFits(P, c, EDWARDS_D, TWIST_D);
    NotZero(P, c - 1);
    NonZeroNegative(c - 1);
  }

  /** The constants of the curve of a point. */
  lemma Side(a: Point) returns (c: int, d: int)
    requires IsPrime(P)
    ensures c == if a.CurveSide? then APLUS2_OVER_FOUR else 1 - APLUS2_OVER_FOUR
    ensures Fits(c, d) && AreMultiples(d, Multiples(a)) && Multiples(a)(1) == Coordinates(a)
  {
    match a
    case CurveSide(p) =>
      c, d := APLUS2_OVER_FOUR, EDWARDS_D;
      CurveFits();
      SmallMultiples(p);
      forall m, n
        ensures SumsAt(d, Multiples(a), m, n)
      {
        CurveSumsAt(p, m, n);
      }
    case TwistSide(t) =>
      c, d := 1 - APLUS2_OVER_FOUR, TWIST_D;
      TwistFits();
      TwistMultiples(0, 0, t);
      forall m, n
        ensures SumsAt(d, Multiples(a), m, n)
      {
        TwistSumsAt(t, m, n);
      }
  }

  function Mirror(k: Ratio): Ratio {
    Ratio(-k.U, k.W)
  }

  /** A point of the projective line, with the sign of U that the curve of a takes. */
  function Seen(a: Point, k: Ratio): Ratio {
    if a.CurveSide? then k else Mirror(k)
  }

  lemma DenotesNegative(k: Ratio, a: Affine)
    requires Denotes(Ratio(-k.U, -k.W), a)
    ensures Denotes(k, a)
  {
    DenotesIs(k, a);
    DenotesIs(Ratio(-k.U, -k.W), a);
    assert -k.U + -k.W == -(k.U + k.W) && -k.U - -k.W == -(k.U - k.W);
    assert a.y * -(k.U + k.W) == -(a.y * (k.U + k.W));
    Add(P, 0, 0, -(k.U - k.W), -(a.y * (k.U + k.W)));
    if Eq(k.U + k.W, 0) {
      Add(P, 0, 0, k.U + k.W, 0);
    }
  }

  lemma MirrorDoubled(c: int, k: Ratio)
    ensures XDoubled(1 - c, Mirror(k)) == Ratio(XDoubled(c, k).U, -XDoubled(c, k).W)
  {
    var s, m := k.U + k.W, k.U - k.W;
    var t4, t5 := s * s, m * m;
    assert (-k.U + k.W) * (-k.U + k.W) == t5 && (-k.U - k.W) * (-k.U - k.W) == t4;
    var e := c * (t4 - t5) + t5;
    assert (1 - c) * (t5 - t4) + t4 == e;
    assert (t5 - t4) * e == -((t4 - t5) * e);
  }

  lemma MirrorAdded(k: Ratio, l: Ratio, u: FieldElement)
    ensures XAdded(Mirror(k), Mirror(l), -u) == Ratio(XAdded(k, l, u).U, -XAdded(k, l, u).W)
  {
    var t7, t8 := (k.U + k.W) * (l.U - l.W), (k.U - k.W) * (l.U + l.W);
    assert (-k.U + k.W) * (-l.U - l.W) == t8 && (-k.U - k.W) * (-l.U + l.W) == t7;
    assert (t8 + t7) * (t8 + t7) == (t7 + t8) * (t7 + t8);
    assert (t8 - t7) * (t8 - t7) == (t7 - t8) * (t7 - t8);
    assert -u * ((t7 - t8) * (t7 - t8)) == -(u * ((t7 - t8) * (t7 - t8)));
  }

  /** The pair holds the n-th and the next multiple of a, as the curve of a sees it. */
  ghost predicate Holds(k: Ratio, l: Ratio, swapped: bool, n: int, a: Point)
    requires IsPrime(P)
  {
    HoldsPair(Seen(a, k), Seen(a, l), swapped, n, Multiples(a))
  }

  /** One step of the ladder keeps the pair of multiples, on the curve and on the twist. */
  lemma StepKeepsPair(k: Ratio, l: Ratio, bit: bool, n: int, u: FieldElement, a: Point)
    requires IsPrime(P) && HasU(u, a) && !Eq(u, 0) && Holds(k, l, bit, n, a)
    ensures Holds(XDoubled(APLUS2_OVER_FOUR, k), XAdded(k, l, u), bit, if bit then 2 * n + 1 else 2 * n, a)
  {
    var c, d := Side(a);
    if a.CurveSide? {
      PairStep(c, d, Multiples(a), k, l, bit, n, u);
    } else {
      var n', f := if bit then 2 * n + 1 else 2 * n, Multiples(a);
      var k', l' := XDoubled(APLUS2_OVER_FOUR, k), XAdded(k, l, u);
      NonZeroNegative(u);
      PairStep(c, d, f, Mirror(k), Mirror(l), bit, n, -u);
      MirrorDoubled(APLUS2_OVER_FOUR, k);
      MirrorAdded(k, l, u);
      DenotesNegative(Mirror(k'), if bit then f(n' + 1) else f(n'));
      DenotesNegative(Mirror(l'), if bit then f(n') else f(n' + 1));
    }
  }

  // The algorithm.

  class ProjectivePoint {
    var U: FieldElement
    var W: FieldElement

    constructor (U: FieldElement, W: FieldElement)
      ensures Value() == Ratio(U, W)
    {
      this.U, this.W := U, W;
    }

    function Value(): Ratio
      reads this
    {
      Ratio(U, W)
    }
  }

  method ConditionalSwap(p: ProjectivePoint, q: ProjectivePoint, choice: nat)
    modifies p, q
    ensures if choice == 1 then p.Value() == old(q.Value()) && q.Value() == old(p.Value())
            else p.Value() == old(p.Value()) && q.Value() == old(q.Value())
  {
    if choice == 1 {
      p.U, p.W, q.U, q.W := q.U, q.W, p.U, p.W;
    }
  }

  method DifferentialAddAndDouble(p: ProjectivePoint, q: ProjectivePoint, affinePmQ: FieldElement)
    requires p != q
    modifies p, q
    ensures p.Value() == XDoubled(APLUS2_OVER_FOUR, old(p.Value()))
    ensures q.Value() == XAdded(old(p.Value()), old(q.Value()), affinePmQ)
  {
    var t0 := p.U + p.W;
    var t1 := p.U - p.W;
    var t2 := q.U + q.W;
    var t3 := q.U - q.W;
    var t4 := Square(t0);
    var t5 := Square(t1);
    var t6 := t4 - t5;
    var t7 := t0 * t3;
    var t8 := t1 * t2;
    var t9 := t7 + t8;
    var t10 := t7 - t8;
    var t11 := Square(t9);
    var t12 := Square(t10);
    var t13 := APLUS2_OVER_FOUR * t6;
    var t14 := t4 * t5;
    var t15 := t13 + t5;
    var t16 := t6 * t15;
    var t17 := affinePmQ * t12;
    var t18 := t11;
    p.U, p.W, q.U, q.W := t14, t16, t18, t17;
  }

  lemma BitOfByte(x: nat, i: nat)
    ensures ShiftRight(ByteAt(x, i / 8), i % 8) % 2 == ShiftRight(x, i) % 2
  {
    var y, k := ShiftRight(x, 8 * (i / 8)), i % 8;
    assert TwoTo(8) == 256 && TwoTo(1) == 2;
    ShiftShift(x, 8 * (i / 8), k);
    LowBits(y, k, 8 - k);
    LowBits(ShiftRight(y, k), 1, 7 - k);
  }

  method Bit(x: Scalar, i: nat) returns (bit: nat)
    ensures bit == ShiftRight(x, i) % 2
  {
    BitOfByte(x, i);
    bit := ShiftRight(ByteAt(x, i / 8), i % 8) % 2;
  }

  /** The bits of a scalar, each read from its byte. */
  method Bits(x: Scalar) returns (bits: seq<nat>)
    ensures |bits| == 256 && forall i {:trigger bits[i]} :: 0 <= i < 256 ==> bits[i] == ShiftRight(x, i) % 2
  {
    var b := new nat[256](_ => 0);
    for i := 0 to 256
      invariant forall j {:trigger b[j]} :: 0 <= j < i ==> b[j] == ShiftRight(x, j) % 2
    {
      b[i] := Bit(x, i);
    }
    bits := b[..];
  }

  /** What the ladder keeps: the pair of multiples, and the axes where u is zero. */
  ghost predicate LadderState(k: Ratio, l: Ratio, swapped: bool, n: int, u: FieldElement, a: Point)
    requires IsPrime(P)
  {
    if Eq(u, 0) then IsAxis(k) && IsAxis(l) else Holds(k, l, swapped, n, a)
  }

  lemma StepKeepsState(k: Ratio, l: Ratio, bit: bool, n: int, u: FieldElement, a: Point)
    requires IsPrime(P) && HasU(u, a) && LadderState(k, l, bit, n, u, a)
    ensures LadderState(XDoubled(APLUS2_OVER_FOUR, k), XAdded(k, l, u), bit, if bit then 2 * n + 1 else 2 * n, u, a)
  {
    if Eq(u, 0) {
      StepKeepsAxis(APLUS2_OVER_FOUR, k, l, u);
    } else {
      StepKeepsPair(k, l, bit, n, u, a);
    }
  }

  lemma StartDenotes(u: FieldElement, a: Affine)
    requires IsPrime(P) && IsU(u, a) && !Eq(u, 0)
    ensures Denotes(Ratio(u, 1), a)
  {
    DifferenceEquation(P, u, 1, a.y);
    assert 1 * (1 + a.y) == 1 + a.y;
    InverseMapDenominator(P, u, a.y);
    DenotesIs(Ratio(u, 1), a);
  }

  lemma LadderStart(u: FieldElement, a: Point)
    requires IsPrime(P) && HasU(u, a)
    ensures LadderState(Ratio(1, 0), Ratio(u, 1), false, 0, u, a)
  {
    if !Eq(u, 0) {
      var c, d := Side(a);
      NonZeroNegative(u);
      StartDenotes(if a.CurveSide? then u else -u, Coordinates(a));
      SmallUnits(P);
      DenotesIs(Ratio(1, 0), Multiples(a)(0));
      DenotesIs(Ratio(-1, 0), Multiples(a)(0));
    }
  }

  lemma SameCoordinate(u: FieldElement, u': FieldElement, a: Affine)
    requires IsU(u, a) && Eq(u', u)
    ensures IsU(u', a)
  {
    Mul(P, u', u, 1 - a.y, 1 - a.y);
  }

  lemma MirrorAffine(k: Ratio, r: FieldElement)
    requires r == ToAffine(k)
    ensures Eq(-r, ToAffine(Mirror(k)))
  {
    var n := Invert(k.W);
    Residue(P, k.U * n);
    Residue(P, -k.U * n);
    assert -k.U * n == -(k.U * n);
    Add(P, 0, 0, r, k.U * n);
  }

  lemma AxisDone(k: Ratio, n: nat, u: FieldElement, a: Point)
    requires IsPrime(P) && HasU(u, a) && IsAxis(k) && Eq(u, 0)
    ensures HasU(ToAffine(k), MultipleOf(n, a))
  {
    var c, d := Side(a);
    var r: FieldElement := ToAffine(k);
    NonZeroNegative(u);
    DegenerateMultiples(c, d, Multiples(a), if a.CurveSide? then u else -u, n);
    AxisIsZero(k);
    NonZeroNegative(r);
    SameCoordinate(0, if a.CurveSide? then r else -r, Multiples(a)(n));
  }

  lemma PairDone(k: Ratio, n: nat, a: Point)
    requires IsPrime(P) && Denotes(Seen(a, k), Multiples(a)(n))
    ensures HasU(ToAffine(k), MultipleOf(n, a))
  {
    AffineMeaning(Seen(a, k), Multiples(a)(n));
    if a.TwistSide? {
      var r: FieldElement := ToAffine(k);
      MirrorAffine(k, r);
      SameCoordinate(ToAffine(Mirror(k)), -r, Multiples(a)(n));
    }
  }

  /** What the ladder keeps, for every point with the coordinate u; with a counter as in Congruence.RemainderAt. */
  ghost predicate InvariantAt(k: Ratio, l: Ratio, swapped: bool, n: int, u: FieldElement, c: nat)
    requires IsPrime(P)
    decreases k, l, swapped, n, u, c
  {
    if c > 0 then InvariantAt(k, l, swapped, n, u, c - 1)
    else forall a: Point :: HasU(u, a) ==> LadderState(k, l, swapped, n, u, a)
  }

  ghost predicate LadderInvariant(k: Ratio, l: Ratio, swapped: bool, n: int, u: FieldElement)
    requires IsPrime(P)
  {
    InvariantAt(k, l, swapped, n, u, 3)
  }

  lemma InvariantIs(k: Ratio, l: Ratio, swapped: bool, n: int, u: FieldElement)
    requires IsPrime(P)
    ensures LadderInvariant(k, l, swapped, n, u)
       <==> forall a: Point :: HasU(u, a) ==> LadderState(k, l, swapped, n, u, a)
  {
    assert InvariantAt(k, l, swapped, n, u, 1) == InvariantAt(k, l, swapped, n, u, 0);
    assert InvariantAt(k, l, swapped, n, u, 2) == InvariantAt(k, l, swapped, n, u, 1);
  }

  lemma StartInvariant(u: FieldElement)
    requires IsPrime(P)
    ensures LadderInvariant(Ratio(1, 0), Ratio(u, 1), false, 0, u)
  {
    forall a: Point | HasU(u, a)
      ensures LadderState(Ratio(1, 0), Ratio(u, 1), false, 0, u, a)
    {
      LadderStart(u, a);
    }
    InvariantIs(Ratio(1, 0), Ratio(u, 1), false, 0, u);
  }

  lemma StepInvariant(k: Ratio, l: Ratio, bit: bool, n: int, u: FieldElement)
    requires IsPrime(P) && LadderInvariant(k, l, bit, n, u)
    ensures LadderInvariant(XDoubled(APLUS2_OVER_FOUR, k), XAdded(k, l, u), bit, if bit then 2 * n + 1 else 2 * n, u)
  {
    InvariantIs(k, l, bit, n, u);
    InvariantIs(XDoubled(APLUS2_OVER_FOUR, k), XAdded(k, l, u), bit, if bit then 2 * n + 1 else 2 * n, u);
    forall a: Point | HasU(u, a)
      ensures LadderState(XDoubled(APLUS2_OVER_FOUR, k), XAdded(k, l, u), bit, if bit then 2 * n + 1 else 2 * n, u, a)
    {
      StepKeepsState(k, l, bit, n, u, a);
    }
  }

  /** Swapping the pair where the last bit and the next differ puts it in the order of the next bit. */
  lemma SwapInvariant(k: Ratio, l: Ratio, last: bool, next: bool, n: int, u: FieldElement)
    requires IsPrime(P) && LadderInvariant(k, l, last, n, u)
    ensures LadderInvariant(if last == next then k else l, if last == next then l else k, next, n, u)
  {
    InvariantIs(k, l, last, n, u);
    InvariantIs(if last == next then k else l, if last == next then l else k, next, n, u);
    forall a: Point | HasU(u, a)
      ensures LadderState(if last == next then k else l, if last == next then l else k, next, n, u, a)
    {
      assert LadderState(k, l, last, n, u, a);
    }
  }

  lemma LadderDone(k: Ratio, l: Ratio, n: nat, u: FieldElement, a: Point)
    requires IsPrime(P) && HasU(u, a) && LadderState(k, l, false, n, u, a)
    ensures HasU(ToAffine(k), MultipleOf(n, a))
  {
    if Eq(u, 0) {
      AxisDone(k, n, u, a);
    } else {
      PairDone(k, n, a);
    }
  }

  lemma InvariantDone(k: Ratio, l: Ratio, n: nat, u: FieldElement)
    requires IsPrime(P) && LadderInvariant(k, l, false, n, u)
    ensures forall a: Point :: HasU(u, a) ==> HasU(ToAffine(k), MultipleOf(n, a))
  {
    InvariantIs(k, l, false, n, u);
    forall a: Point | HasU(u, a)
      ensures HasU(ToAffine(k), MultipleOf(n, a))
    {
      LadderDone(k, l, n, u, a);
    }
  }

  lemma NextBit(x: nat, i: nat)
    ensures ShiftRight(x, i) == 2 * ShiftRight(x, i + 1) + ShiftRight(x, i) % 2
  {}

  lemma NoHighBits(x: Scalar, n: nat)
    requires n == 255
    ensures ShiftRight(x, n) == 0
  {
    ScalarSize(n);
    ShiftBound(x, n, 0);
  }

  /** The u-coordinate of n a from that of a, for every string, every scalar n and every point a of either curve. */
  method LadderMul(m: Bytes32, scalar: Scalar) returns (r: Bytes32)
    requires IsPrime(P)
    ensures r < P
    ensures forall a: Point :: HasU(FromBytes(m), a) ==> HasU(r, MultipleOf(scalar, a))
    ensures exists a: Point :: HasU(FromBytes(m), a) && HasU(r, MultipleOf(scalar, a))
  {
    var affineU := FromBytes(m);
    ghost var q := EveryCoordinate(affineU);
    var x0 := new ProjectivePoint(1, 0);
    var x1 := new ProjectivePoint(affineU, 1);
    var bits := Bits(scalar);
    NoHighBits(scalar, |bits| - 1);
    StartInvariant(affineU);
    for i := 255 downto 0
      invariant x0 != x1 && fresh(x0) && fresh(x1)
      invariant LadderInvariant(x0.Value(), x1.Value(), bits[i] == 1, ShiftRight(scalar, i), affineU)
    {
      var choice := if bits[i + 1] == bits[i] then 0 else 1;
      ghost var last, next, n := bits[i + 1] == 1, bits[i] == 1, ShiftRight(scalar, i + 1);
      SwapInvariant(x0.Value(), x1.Value(), last, next, n, affineU);
      ConditionalSwap(x0, x1, choice);
      NextBit(scalar, i);
      StepInvariant(x0.Value(), x1.Value(), next, n, affineU);
      DifferentialAddAndDouble(x0, x1, affineU);
    }
    SwapInvariant(x0.Value(), x1.Value(), bits[0] == 1, false, scalar, affineU);
    ConditionalSwap(x0, x1, bits[0]);
    InvariantDone(x0.Value(), x1.Value(), scalar, affineU);
    r := ToAffine(x0.Value());
  }

  /** The ladder commutes with the conversion from Edwards points. */
  method LadderOfEdwards(e: EdwardsPoint, scalar: Scalar, ghost p: CurvePoint, ghost e': EdwardsPoint)
    returns (r: Bytes32)
    requires IsPrime(P) && Extends(e, p) && Extends(e', Scale(scalar, p))
    ensures r == ToMontgomery(e')
  {
    var m := ToMontgomery(e);
    ToMontgomeryContract(e, p);
    CanonicalBytes(m);
    r := LadderMul(m, scalar);
    assert HasU(FromBytes(m), CurveSide(p));
    assert HasU(r, CurveSide(Scale(scalar, p)));
    ToMontgomeryUnique(r, e', Scale(scalar, p));
  }
}
