/** The equation v^2 = u^3 + A u^2 + u, which tells the coordinates of the curve from those of its twist. */
module MontgomeryCurve {
  import opened Congruence
  import opened Primes
  import opened SquareRoots
  import opened Field
  import opened EdwardsLaw
  import opened Edwards
  import opened EdwardsGroup
  import opened MontgomeryAlgebra
  import opened Montgomery
  import opened Twist
  import opened Ladder
  import opened RistrettoNorm

  const MONTGOMERY_A: int := 486662

  function Cubic(a: int, u: int): int {
    u * (u * u + a * u + 1)
  }

  lemma QuadraticForm(c: int, y: int)
    ensures var n, q := 1 + y, 1 - y;
            && n * n + (4 * c - 2) * (n * q) + q * q == 4 * (c + (1 - c) * (y * y))
            && n * n - (4 * c - 2) * (n * q) + q * q == 4 * ((1 - c) + c * (y * y))
            && n * q == 1 - y * y
  {
    var n, q, b := 1 + y, 1 - y, y * y;
    assert n * n == 1 + 2 * y + b && q * q == 1 - 2 * y + b && n * q == 1 - b;
    assert (4 * c - 2) * (1 - b) == 4 * c - 2 - 4 * (c * b) + 2 * b;
    assert (1 - c) * b == b - c * b;
  }

  lemma CubicForm(a: int, u: int, q: int)
    ensures Cubic(a, u) * ((q * q) * (q * q)) == ((u * q) * q) * ((u * q) * (u * q) + a * ((u * q) * q) + q * q)
  {
    var n := u * q;
    assert n * n == (u * u) * (q * q) && n * q == u * (q * q);
    assert (u * u) * (q * q) + a * (u * (q * q)) + q * q == (u * u + a * u + 1) * (q * q);
    assert (u * (q * q)) * ((u * u + a * u + 1) * (q * q)) == (u * (u * u + a * u + 1)) * ((q * q) * (q * q));
  }

  /** The cubic at u = n / q, cleared of denominators. */
  lemma CubicValue(p: int, a: int, u: int, n: int, q: int)
    requires p > 0 && Cong(p, u * q, n)
    ensures Cong(p, Cubic(a, u) * ((q * q) * (q * q)), (n * q) * (n * n + a * (n * q) + q * q))
  {
    var m := u * q;
    CubicForm(a, u, q);
    Mul(p, m, n, q, q);
    Mul(p, m, n, m, n);
    Mul(p, a, a, m * q, n * q);
    Add(p, m * m, n * n, a * (m * q), a * (n * q));
    Add(p, m * m + a * (m * q), n * n + a * (n * q), q * q, q * q);
    Mul(p, m * q, n * q, m * m + a * (m * q) + q * q, n * n + a * (n * q) + q * q);
  }

  lemma SquareOfProduct(c: int, x: int, w: int)
    ensures ((x * x) * w) * (4 * (c * w)) == 4 * (c * ((x * w) * (x * w)))
  {
    Interchange(x, w, x, w);
  }

  /** On the curve with c d = 1 - c, the cubic is -4 c times a square. */
  lemma CubicOnCurve(p: int, c: int, d: int, u: int, x: int, y: int)
    requires p > 0 && Cong(p, d * c, 1 - c) && OnEdwards(p, d, x, y) && Cong(p, u * (1 - y), 1 + y)
    ensures var q, w := 1 - y, 1 + d * (y * y);
            Cong(p, Cubic(4 * c - 2, u) * ((q * q) * (q * q)), -(4 * (c * ((x * w) * (x * w)))))
  {
    var q, b, w := 1 - y, y * y, 1 + d * (y * y);
    CubicValue(p, 4 * c - 2, u, 1 + y, q);
    QuadraticForm(c, y);
    Mul(p, d * c, 1 - c, b, b);
    Add(p, c, c, (d * c) * b, (1 - c) * b);
    assert c + (d * c) * b == c * w;
    Mul(p, 4, 4, c * w, c + (1 - c) * b);
    XSquared(p, d, x * x, b);
    Add(p, 0, 0, (x * x) * w, b - 1);
    Mul(p, -((x * x) * w), 1 - b, 4 * (c * w), 4 * (c + (1 - c) * b));
    SquareOfProduct(c, x, w);
    assert -((x * x) * w) * (4 * (c * w)) == -(((x * x) * w) * (4 * (c * w)));
  }

  lemma NegativeCubic(a: int, u: int)
    ensures Cubic(a, u) == -Cubic(-a, -u)
  {
    assert (-u) * (-u) == u * u && -a * -u == a * u;
    assert -u * (u * u + a * u + 1) == -(u * (u * u + a * u + 1));
  }

  lemma TwistDenominator(p: int, d: int, d': int, xx: int, b: int)
    requires p > 0 && Cong(p, d * d', 1) && Cong(p, b - xx, 1 + d' * (xx * b))
    ensures Cong(p, xx * (d + b), d * (b - 1))
  {
    XSquared(p, d', xx, b);
    Mul(p, d, d, xx * (1 + d' * b), b - 1);
    assert d * (xx * (1 + d' * b)) == xx * d + (d * d') * (xx * b);
    Mul(p, d * d', 1, xx * b, xx * b);
    Add(p, xx * d, xx * d, (d * d') * (xx * b), xx * b);
    assert xx * (d + b) == xx * d + xx * b;
  }

  lemma NegatedProducts(h: int, e: int, b: int, k: int)
    ensures -h * e == -(h * e) && -((1 - b) * k) == (b - 1) * k
  {}

  lemma MirroredCubicValue(p: int, c: int, u: int, y: int)
    requires p > 0 && Cong(p, -u * (1 - y), 1 + y)
    ensures var q, b := 1 - y, y * y;
            Cong(p, Cubic(-(4 * c - 2), -u) * ((q * q) * (q * q)), (1 - b) * (4 * ((1 - c) + c * b)))
  {
    var n, q, a := 1 + y, 1 - y, 4 * c - 2;
    CubicValue(p, -a, -u, n, q);
    QuadraticForm(c, y);
    NegatedProducts(a, n * q, 0, 0);
  }

  lemma MirroredSign(p: int, g: int, h: int, e: int, b: int, k: int, s: int)
    requires p > 0 && g == -h && Cong(p, h * e, (1 - b) * (4 * k)) && Cong(p, s, k)
    ensures Cong(p, g * e, (b - 1) * (4 * s))
  {
    Mul(p, 4, 4, s, k);
    Mul(p, 1 - b, 1 - b, 4 * s, 4 * k);
    Add(p, 0, 0, h * e, (1 - b) * (4 * s));
    NegatedProducts(h, e, b, 4 * s);
  }

  lemma CubicAtTwist(p: int, c: int, d: int, u: int, y: int)
    requires p > 0 && Cong(p, d * c, 1 - c) && Cong(p, -u * (1 - y), 1 + y)
    ensures var q, b := 1 - y, y * y;
            Cong(p, Cubic(4 * c - 2, u) * ((q * q) * (q * q)), (b - 1) * (4 * (c * (d + b))))
  {
    var q, b, a := 1 - y, y * y, 4 * c - 2;
    MirroredCubicValue(p, c, u, y);
    Add(p, d * c, 1 - c, c * b, c * b);
    assert d * c + c * b == c * (d + b);
    NegativeCubic(a, u);
    MirroredSign(p, Cubic(a, u), Cubic(-a, -u), (q * q) * (q * q), b, (1 - c) + c * b, c * (d + b));
  }

  /** On the twist, d times the cubic is 4 c times a square. */
  lemma CubicOnTwist(p: int, c: int, d: int, d': int, u: int, x: int, y: int)
    requires p > 0 && Cong(p, d * c, 1 - c) && Cong(p, d * d', 1) && OnEdwards(p, d', x, y)
    requires Cong(p, -u * (1 - y), 1 + y)
    ensures var q, w := 1 - y, d + y * y;
            Cong(p, d * (Cubic(4 * c - 2, u) * ((q * q) * (q * q))), 4 * (c * ((x * w) * (x * w))))
  {
    var q, b, w := 1 - y, y * y, d + y * y;
    CubicAtTwist(p, c, d, u, y);
    TwistDenominator(p, d, d', x * x, b);
    Mul(p, d, d, Cubic(4 * c - 2, u) * ((q * q) * (q * q)), (b - 1) * (4 * (c * w)));
    ProductAssociates(d, b - 1, 4 * (c * w));
    Mul(p, (x * x) * w, d * (b - 1), 4 * (c * w), 4 * (c * w));
    SquareOfProduct(c, x, w);
  }

  // The two sides.

  lemma FourthPowers(v: int, q: int)
    ensures (v * (q * q)) * (v * (q * q)) == (v * v) * ((q * q) * (q * q))
  {
    Interchange(v, q * q, v, q * q);
  }

  ghost predicate IsSquare(p: int, a: int)
    requires p > 0
  {
    exists e :: Root(p, a, 1, e)
  }

  lemma OnePlusDIsSquare()
    ensures IsSquare(P, 1 + EDWARDS_D)
  {
    RootOfD();
    assert Root(P, 1 + EDWARDS_D, 1, ROOT_OF_ONE_PLUS_D);
  }

  /** c is the square of c e where e is a root of 1 + d. */
  lemma RootOfC(p: int, c: int, d: int, e: int)
    requires p > 0 && Cong(p, d * c, 1 - c) && Cong(p, e * e, 1 + d)
    ensures Cong(p, (c * e) * (c * e), c)
  {
    Interchange(c, e, c, e);
    Mul(p, c, c, e * e, 1 + d);
    Add(p, c, c, d * c, 1 - c);
    assert c * (1 + d) == c + d * c;
    Mul(p, c, c, c * (e * e), 1);
    assert (c * c) * (e * e) == c * (c * (e * e));
  }

  lemma ScaledSquare(p: int, c: int, f: int, t: int)
    requires p > 0 && Cong(p, f * f, c)
    ensures Cong(p, (2 * (f * t)) * (2 * (f * t)), 4 * (c * (t * t)))
  {
    Interchange(2, f * t, 2, f * t);
    Interchange(f, t, f, t);
    Mul(p, f * f, c, t * t, t * t);
    Mul(p, 4, 4, (f * f) * (t * t), c * (t * t));
  }

  /** The coordinate of a point of the curve gives the cubic a root. */
  lemma CurveHasV(p: int, c: int, d: int, u: int, x: int, y: int) returns (v: int)
    requires HasLaw(p, d) && Cong(p, d * c, 1 - c) && IsSquare(p, 1 + d)
    requires OnEdwards(p, d, x, y) && Cong(p, u * (1 - y), 1 + y) && !Cong(p, 1 - y, 0)
    ensures Cong(p, v * v, Cubic(4 * c - 2, u))
  {
    var i :| Root(p, -1, 1, i);
    var e :| Root(p, 1 + d, 1, e);
    var q, t, f := 1 - y, x * (1 + d * (y * y)), c * e;
    var z := 2 * (f * t);
    CubicOnCurve(p, c, d, u, x, y);
    RootOfC(p, c, d, e);
    ScaledSquare(p, c, f, t);
    Interchange(i, z, i, z);
    Mul(p, i * i, -1, z * z, 4 * (c * (t * t)));
    Product(p, q, q);
    var g := Cubic(4 * c - 2, u);
    assert (i * z) * (i * z) == (i * i) * (z * z);
    v := RootFromRatio(p, g, i * z, q * q);
  }

  lemma RootlessSum(p: int, d: int, y: int)
    requires HasLaw(p, d)
    ensures !Cong(p, d + y * y, 0)
  {
    if Cong(p, d + y * y, 0) {
      var i :| Root(p, -1, 1, i);
      Interchange(i, y, i, y);
      Mul(p, i * i, -1, y * y, y * y);
      Add(p, d, d, d + y * y, 0);
      assert Root(p, d, 1, i * y);
    }
  }

  /** The coordinate of a point of the twist gives the cubic no root, unless x is 0. */
  lemma TwistHasNoV(p: int, c: int, d: int, d': int, u: int, x: int, y: int, v: int)
    requires HasLaw(p, d) && !Cong(p, c, 0) && Cong(p, d * c, 1 - c) && Cong(p, d * d', 1) && IsSquare(p, 1 + d)
    requires OnEdwards(p, d', x, y) && Cong(p, -u * (1 - y), 1 + y) && !Cong(p, 1 - y, 0)
    requires Cong(p, v * v, Cubic(4 * c - 2, u))
    ensures Cong(p, x, 0)
  {
    var e :| Root(p, 1 + d, 1, e);
    var q, w, f := 1 - y, d + y * y, c * e;
    var t, m, g := x * w, v * (q * q), Cubic(4 * c - 2, u);
    CubicOnTwist(p, c, d, d', u, x, y);
    RootOfC(p, c, d, e);
    ScaledSquare(p, c, f, t);
    FourthPowers(v, q);
    Mul(p, v * v, g, (q * q) * (q * q), (q * q) * (q * q));
    Mul(p, d, d, m * m, g * ((q * q) * (q * q)));
    var z := 2 * (f * t);
    SquareRatio(p, d, z, m);
    Product(p, m, m);
    Product(p, d, m * m);
    Product(p, z, z);
    SmallUnits(p);
    Product(p, 2, f * t);
    Product(p, f, t);
    Product(p, f, f);
    RootlessSum(p, d, y);
    Product(p, x, w);
  }

  /** u is the first coordinate of a point of the Montgomery curve. */
  ghost predicate HasV(u: FieldElement) {
    exists v :: Eq(v * v, Cubic(MONTGOMERY_A, u))
  }

  lemma CurveSideHasV(c: int, d: int, u: FieldElement, p: Affine)
    requires Fits(c, d) && IsSquare(P, 1 + d) && OnEdwards(P, d, p.x, p.y)
    requires !Eq(u, 0) && IsU(u, p) && IsReduced(p.y)
    ensures exists v :: Eq(v * v, Cubic(4 * c - 2, u))
  {
    FiniteDifference(u, p);
    var v := CurveHasV(P, c, d, u, p.x, p.y);
  }

  lemma TwistSideLacksV(c: int, d: int, d': int, u: FieldElement, t: Affine)
    requires Fits(c, d) && IsSquare(P, 1 + d) && OnEdwards(P, d', t.x, t.y) && Eq(d * d', 1)
    requires !Eq(u, 0) && IsU(-u, t) && IsReduced(t.y)
    ensures !exists v :: Eq(v * v, Cubic(4 * c - 2, u))
  {
    if v :| Eq(v * v, Cubic(4 * c - 2, u)) {
      NonZeroNegative(u);
      FiniteDifference(-u, t);
      TwistHasNoV(P, c, d, d', u, t.x, t.y, v);
      ZeroXIsOrderTwo(P, d', t.x, t.y);
      ZeroXCoordinate(t);
      UIsUnique(-u, 0, t);
    }
  }

  /** Which of the two curves a point lies on. */
  lemma SideOfPoint(u: FieldElement, a: Point)
    requires IsPrime(P) && !Eq(u, 0) && HasU(u, a)
    ensures HasV(u) <==> a.CurveSide?
  {
    CurveFits();
    OnePlusDIsSquare();
    match a
    case CurveSide(p) =>
      CurveEquation(p.x, p.y);
      CurveSideHasV(APLUS2_OVER_FOUR, EDWARDS_D, u, p);
    case TwistSide(t) =>
      TwistConstant();
      TwistEquation(t.x, t.y);
      TwistSideLacksV(APLUS2_OVER_FOUR, EDWARDS_D, TWIST_D, u, t);
  }

  /**
    A field element other than 0 is the coordinate of a point of the curve exactly when v^2 = u^3 + A u^2 + u has
    a solution, and of a point of the twist exactly when it has none.
  */
  lemma SideOfCoordinate(u: FieldElement)
    requires IsPrime(P) && !Eq(u, 0)
    ensures (exists p :: HasU(u, CurveSide(p))) <==> HasV(u)
    ensures (exists t :: HasU(u, TwistSide(t))) <==> !HasV(u)
  {
    var a := EveryCoordinate(u);
    SideOfPoint(u, a);
    forall p | HasU(u, CurveSide(p))
      ensures HasV(u)
    {
      SideOfPoint(u, CurveSide(p));
    }
    forall t | HasU(u, TwistSide(t))
      ensures !HasV(u)
    {
      SideOfPoint(u, TwistSide(t));
    }
    match a
    case CurveSide(p) => assert HasU(u, CurveSide(p));
    case TwistSide(t) => assert HasU(u, TwistSide(t));
  }

  lemma ZeroHasV(u: FieldElement)
    requires Eq(u, 0)
    ensures HasV(u)
  {
    Mul(P, u, 0, u * u + MONTGOMERY_A * u + 1, u * u + MONTGOMERY_A * u + 1);
    assert Eq(0 * 0, Cubic(MONTGOMERY_A, u));
  }

  /** A string is converted to a point exactly when it is a coordinate on the Montgomery curve. */
  lemma ConvertedIff(m: Bytes32, sign: nat)
    requires IsPrime(P)
    ensures ToEdwards(m, sign).Some? <==> HasV(FromBytes(m))
  {
    var u := FromBytes(m);
    ToEdwardsRejectsTwist(m, sign);
    if Eq(u, 0) {
      ZeroHasV(u);
    } else {
      SideOfCoordinate(u);
    }
  }
}
