/**
  The points whose norm 1 - y^2 has a root, for which encoding finds the inverse root that it takes. They
  are a subgroup of index at most two that holds every double, and with it every point of odd order.
*/
module RistrettoNorm {
  import opened Congruence
  import opened Primes
  import opened SquareRoots
  import opened Field
  import opened Edwards
  import opened EdwardsLaw
  import opened EdwardsGroup
  import opened ScalarMul
  import opened MontgomeryAlgebra
  import opened RistrettoEquality
  import opened Ristretto

  ghost predicate HasSquareNorm(a: CurvePoint) {
    exists r :: Eq(r * r, 1 - a.y * a.y)
  }

  /** 1 + d y^2, with a counter as in Congruence.RemainderAt. On the curve it is -(1 - y^2) / x^2. */
  function WeightAt(y: FieldElement, k: nat): FieldElement
    decreases y, k
  {
    if k > 0 then WeightAt(y, k - 1) else 1 + EDWARDS_D * (y * y)
  }

  function Weight(y: FieldElement): FieldElement {
    WeightAt(y, 3)
  }

  lemma WeightIs(y: FieldElement)
    ensures Weight(y) == 1 + EDWARDS_D * (y * y)
  {
    assert WeightAt(y, 1) == WeightAt(y, 0);
    assert WeightAt(y, 2) == WeightAt(y, 1);
  }

  lemma WeightNonZero(y: FieldElement)
    requires IsPrime(P)
    ensures !Eq(Weight(y), 0)
  {
    WeightIs(y);
    DenominatorNonZero(y);
    assert 1 + EDWARDS_D * (y * y) == (y * y) * EDWARDS_D + 1;
  }

  /** A root of 1 + d. */
  const ROOT_OF_ONE_PLUS_D: FieldElement := SQRT_M1 * (INVSQRT_A_MINUS_D * (-1 - EDWARDS_D))

  lemma OnePlusD(p: int, i: int, m: int, d: int)
    requires p > 0 && Cong(p, i * i, -1) && Cong(p, (m * m) * (-1 - d), 1)
    ensures var k := i * (m * (-1 - d)); Cong(p, k * k, 1 + d)
  {
    var e := -1 - d;
    Interchange(i, m * e, i, m * e);
    Interchange(m, e, m, e);
    Reassociate(m * m, e, e);
    Mul(p, (m * m) * e, 1, e, e);
    Mul(p, i * i, -1, (m * e) * (m * e), e);
  }

  // The norm has a root exactly when the weight has.

  lemma RootOfNorm(p: int, d: int, i: int, x: int, y: int, s: int)
    requires p > 0 && Cong(p, i * i, -1) && Cong(p, y * y - x * x, 1 + d * ((x * x) * (y * y)))
    requires Cong(p, s * s, 1 + d * (y * y))
    ensures var r := i * (s * x); Cong(p, r * r, 1 - y * y)
  {
    var a, b := x * x, y * y;
    XSquared(p, d, a, b);
    Interchange(i, s * x, i, s * x);
    Interchange(s, x, s, x);
    Mul(p, s * s, 1 + d * b, a, a);
    assert (1 + d * b) * a == a * (1 + d * b);
    Mul(p, i * i, -1, (s * s) * a, b - 1);
  }

  lemma RootOfWeight(p: int, d: int, i: int, x: int, y: int, r: int, n: int)
    requires p > 0 && Cong(p, i * i, -1) && Cong(p, y * y - x * x, 1 + d * ((x * x) * (y * y)))
    requires Cong(p, r * r, 1 - y * y) && Cong(p, x * n, 1)
    ensures var s := i * (r * n); Cong(p, s * s, 1 + d * (y * y))
  {
    var a, b, nn := x * x, y * y, n * n;
    XSquared(p, d, a, b);
    Interchange(i, r * n, i, r * n);
    Interchange(r, n, r, n);
    Mul(p, i * i, -1, r * r, 1 - b);
    assert (i * i) * ((r * r) * nn) == ((i * i) * (r * r)) * nn;
    Mul(p, (i * i) * (r * r), a * (1 + d * b), nn, nn);
    Mul(p, x * n, 1, x * n, 1);
    Interchange(x, n, x, n);
    Mul(p, a * nn, 1, 1 + d * b, 1 + d * b);
    assert (a * (1 + d * b)) * nn == (a * nn) * (1 + d * b);
  }

  ghost predicate HasRoot(u: FieldElement) {
    exists s :: Eq(s * s, u)
  }

  lemma WeightElsewhere(a: CurvePoint, r: FieldElement) returns (s: FieldElement)
    requires IsPrime(P) && Eq(r * r, 1 - a.y * a.y) && !Eq(a.x, 0)
    ensures Eq(s * s, Weight(a.y))
  {
    Constants();
    CurveEquation(a.x, a.y);
    WeightIs(a.y);
    InvertIsInverse(a.x);
    RootOfWeight(P, EDWARDS_D, SQRT_M1, a.x, a.y, r, Invert(a.x));
    s := SQRT_M1 * (r * Invert(a.x));
  }

  lemma UnitSquare(p: int, d: int, y: int)
    requires p > 0 && (Cong(p, y, 1) || Cong(p, y, -1))
    ensures Cong(p, 1 + d * (y * y), 1 + d)
  {
    if Cong(p, y, 1) {
      Mul(p, y, 1, y, 1);
    } else {
      Mul(p, y, -1, y, -1);
    }
    Mul(p, d, d, y * y, 1);
    Add(p, 1, 1, d * (y * y), d);
  }

  lemma AxisWeight(a: CurvePoint)
    requires IsPrime(P) && Eq(a.x, 0)
    ensures HasRoot(Weight(a.y))
  {
    var d, k := EDWARDS_D, ROOT_OF_ONE_PLUS_D;
    Constants();
    MagicConstant();
    CurveEquation(a.x, a.y);
    WeightIs(a.y);
    OnePlusD(P, SQRT_M1, INVSQRT_A_MINUS_D, d);
    ZeroXForcesY(P, d, a.x, a.y);
    UnitSquare(P, d, a.y);
    assert Eq(k * k, Weight(a.y));
  }

  lemma WeightHasRoot(a: CurvePoint)
    requires IsPrime(P) && HasSquareNorm(a)
    ensures HasRoot(Weight(a.y))
  {
    var r :| Eq(r * r, 1 - a.y * a.y);
    if Eq(a.x, 0) {
      AxisWeight(a);
    } else {
      var s := WeightElsewhere(a, r);
    }
  }

  lemma NormIsWeight(a: CurvePoint)
    requires IsPrime(P)
    ensures HasSquareNorm(a) <==> HasRoot(Weight(a.y))
  {
    Constants();
    CurveEquation(a.x, a.y);
    WeightIs(a.y);
    if s :| Eq(s * s, Weight(a.y)) {
      RootOfNorm(P, EDWARDS_D, SQRT_M1, a.x, a.y, s);
    }
    if HasSquareNorm(a) {
      WeightHasRoot(a);
    }
  }

  // The weight of a sum.

  lemma WeightFactors(d: int, t: int, r: int)
    ensures var q := 1 - d * (r * t);
            q * q + d * ((t + r) * (t + r)) == (1 + d * (t * t)) * (1 + d * (r * r))
  {
    var u, v, w := d * (t * t), d * (r * r), d * (r * t);
    Interchange(d, t * t, d, r * r);
    Interchange(d, r * t, d, r * t);
    Interchange(t, t, r, r);
    Interchange(r, t, r, t);
    assert u * v == w * w;
    assert d * ((t + r) * (t + r)) == u + 2 * w + v;
  }

  /** (1 + d y3^2) (1 - delta)^2 = (1 + d y1^2 y2^2) (1 + d x1^2 x2^2) */
  lemma WeightTimesDenominator(p: int, d: int, x1: int, y1: int, x2: int, y2: int, y3: int)
    requires var dl := d * ((x1 * y1) * (x2 * y2)); p > 0 && Cong(p, y3 * (1 - dl), y1 * y2 + x1 * x2)
    ensures var q := 1 - d * ((x1 * y1) * (x2 * y2));
            Cong(p, (1 + d * (y3 * y3)) * (q * q),
                    (1 + d * ((y1 * y1) * (y2 * y2))) * (1 + d * ((x1 * x1) * (x2 * x2))))
  {
    var t, r := y1 * y2, x1 * x2;
    Interchange(x1, y1, x2, y2);
    var q := 1 - d * (r * t);
    Mul(p, y3 * q, t + r, y3 * q, t + r);
    Interchange(y3, q, y3, q);
    Mul(p, d, d, (y3 * y3) * (q * q), (t + r) * (t + r));
    Add(p, q * q, q * q, d * ((y3 * y3) * (q * q)), d * ((t + r) * (t + r)));
    assert (1 + d * (y3 * y3)) * (q * q) == q * q + d * ((y3 * y3) * (q * q)) by {
      Reassociate(d, y3 * y3, q * q);
    }
    Interchange(y1, y2, y1, y2);
    Interchange(x1, x2, x1, x2);
    WeightFactors(d, t, r);
  }

  lemma WeightProduct(d: int, b1: int, b2: int)
    ensures (1 + d * b1) * (1 + d * b2) + d * ((b1 - 1) * (b2 - 1)) == (1 + d) * (1 + d * (b1 * b2))
  {
    var k := b1 * b2;
    Interchange(d, b1, d, b2);
    assert (b1 - 1) * (b2 - 1) == k - b1 - b2 + 1;
    assert (d * b1) * (d * b2) == d * (d * k);
  }

  /** (1 + d x1^2 x2^2) (1 + d y1^2) (1 + d y2^2) = (1 + d) (1 + d y1^2 y2^2) */
  lemma WeightOfX(p: int, d: int, a1: int, b1: int, a2: int, b2: int)
    requires p > 0 && Cong(p, a1 * (1 + d * b1), b1 - 1) && Cong(p, a2 * (1 + d * b2), b2 - 1)
    ensures Cong(p, (1 + d * (a1 * a2)) * ((1 + d * b1) * (1 + d * b2)), (1 + d) * (1 + d * (b1 * b2)))
  {
    var n1, n2 := 1 + d * b1, 1 + d * b2;
    Mul(p, a1 * n1, b1 - 1, a2 * n2, b2 - 1);
    Interchange(a1, n1, a2, n2);
    Mul(p, d, d, (a1 * a2) * (n1 * n2), (b1 - 1) * (b2 - 1));
    Add(p, n1 * n2, n1 * n2, d * ((a1 * a2) * (n1 * n2)), d * ((b1 - 1) * (b2 - 1)));
    assert (1 + d * (a1 * a2)) * (n1 * n2) == n1 * n2 + d * ((a1 * a2) * (n1 * n2)) by {
      Reassociate(d, a1 * a2, n1 * n2);
    }
    WeightProduct(d, b1, b2);
  }

  lemma CombineWeights(p: int, n3: int, q: int, w: int, e: int, f: int, g: int, k: int, c: int)
    requires p > 0 && Cong(p, n3 * (q * q), e * f) && Cong(p, f * g, c * e) && Cong(p, w * w, g) && Cong(p, k * k, c)
    ensures Cong(p, (k * e) * (k * e), n3 * ((q * w) * (q * w)))
  {
    Interchange(k, e, k, e);
    Interchange(q, w, q, w);
    Mul(p, n3 * (q * q), e * f, w * w, g);
    Reassociate(n3, q * q, w * w);
    Reassociate(e, f, g);
    Mul(p, e, e, f * g, c * e);
    assert e * (c * e) == c * (e * e);
    Mul(p, k * k, c, e * e, e * e);
  }

  /** Up to squares, the weight of a sum is the product of the weights. */
  lemma WeightOfSum(p: int, d: int, x1: int, y1: int, x2: int, y2: int, y3: int, k: int, w: int)
    requires var q := 1 - d * ((x1 * y1) * (x2 * y2)); p > 0 && Cong(p, y3 * q, y1 * y2 + x1 * x2)
    requires Cong(p, y1 * y1 - x1 * x1, 1 + d * ((x1 * x1) * (y1 * y1)))
    requires Cong(p, y2 * y2 - x2 * x2, 1 + d * ((x2 * x2) * (y2 * y2)))
    requires Cong(p, k * k, 1 + d) && Cong(p, w * w, (1 + d * (y1 * y1)) * (1 + d * (y2 * y2)))
    ensures var q := 1 - d * ((x1 * y1) * (x2 * y2));
            var n, m := k * (1 + d * ((y1 * y1) * (y2 * y2))), q * w;
            Cong(p, n * n, (1 + d * (y3 * y3)) * (m * m))
  {
    var a1, b1, a2, b2, q := x1 * x1, y1 * y1, x2 * x2, y2 * y2, 1 - d * ((x1 * y1) * (x2 * y2));
    var e, f, n3, g := 1 + d * (b1 * b2), 1 + d * (a1 * a2), 1 + d * (y3 * y3), (1 + d * b1) * (1 + d * b2);
    WeightTimesDenominator(p, d, x1, y1, x2, y2, y3);
    XSquared(p, d, a1, b1);
    XSquared(p, d, a2, b2);
    WeightOfX(p, d, a1, b1, a2, b2);
    CombineWeights(p, n3, q, w, e, f, g, k, 1 + d);
  }

  lemma RootOfRatio(n: FieldElement, m: FieldElement, d: FieldElement) returns (s: FieldElement)
    requires IsPrime(P) && Eq(n * n, d * (m * m)) && !Eq(m, 0)
    ensures Eq(s * s, d)
  {
    s := RootFromRatio(P, d, n, m);
  }

  lemma RootOfD()
    ensures Eq(ROOT_OF_ONE_PLUS_D * ROOT_OF_ONE_PLUS_D, 1 + EDWARDS_D)
  {
    Constants();
    MagicConstant();
    OnePlusD(P, SQRT_M1, INVSQRT_A_MINUS_D, EDWARDS_D);
  }

  lemma NonZeroFactors(a: CurvePoint, b: CurvePoint, w: FieldElement)
    requires IsPrime(P) && Eq(w * w, Weight(a.y) * Weight(b.y))
    ensures !Eq((1 - Delta(a.x, a.y, b.x, b.y)) * w, 0)
  {
    var q := 1 - Delta(a.x, a.y, b.x, b.y);
    Complete(a.x, a.y, b.x, b.y);
    WeightNonZero(a.y);
    WeightNonZero(b.y);
    Product(P, Weight(a.y), Weight(b.y));
    Product(P, w, w);
    Product(P, q, w);
  }

  /** A root of the product of two weights gives a root of the weight of the sum. */
  lemma RootOfSum(a: CurvePoint, b: CurvePoint, w: FieldElement)
    requires IsPrime(P) && Eq(w * w, Weight(a.y) * Weight(b.y))
    ensures HasSquareNorm(Sum(a, b))
  {
    var c, d, k := Sum(a, b), EDWARDS_D, ROOT_OF_ONE_PLUS_D;
    var q := 1 - Delta(a.x, a.y, b.x, b.y);
    NonZeroFactors(a, b, w);
    SumEquations(a, b);
    CurveEquation(a.x, a.y);
    CurveEquation(b.x, b.y);
    WeightIs(a.y);
    WeightIs(b.y);
    RootOfD();
    WeightOfSum(P, d, a.x, a.y, b.x, b.y, c.y, k, w);
    WeightIs(c.y);
    var s := RootOfRatio(k * (1 + d * ((a.y * a.y) * (b.y * b.y))), q * w, Weight(c.y));
    NormIsWeight(c);
  }

  // The subgroup.

  lemma DoubleHasSquareNorm(b: CurvePoint)
    requires IsPrime(P)
    ensures HasSquareNorm(Sum(b, b))
  {
    RootOfSum(b, b, Weight(b.y));
  }

  /** A root of the weight, or of i times the weight. */
  lemma WeightRoot(a: CurvePoint) returns (s: FieldElement)
    requires IsPrime(P)
    ensures if HasSquareNorm(a) then Eq(s * s, Weight(a.y)) else Eq(s * s, SQRT_M1 * Weight(a.y))
  {
    var n := Weight(a.y);
    NormIsWeight(a);
    SmallUnits(P);
    SqrtRatioIContract(n, 1);
    var (ok, r) := SqrtRatioI(n, 1);
    s := r;
    assert 1 * (r * r) == r * r;
    if ok {
      assert Eq(r * r, n);
    }
    if t :| Eq(t * t, n) {
      assert 1 * (t * t) == t * t;
      assert Root(P, n, 1, t);
    }
  }

  lemma MixedRoot(p: int, i: int, s: int, t: int, m: int, n: int)
    requires p > 0 && Cong(p, i * i, -1) && Cong(p, s * s, i * m) && Cong(p, t * t, i * n)
    ensures var w := i * (s * t); Cong(p, w * w, m * n)
  {
    Interchange(i, s * t, i, s * t);
    Interchange(s, t, s, t);
    Mul(p, s * s, i * m, t * t, i * n);
    Interchange(i, m, i, n);
    Mul(p, i * i, -1, m * n, m * n);
    Mul(p, i * i, -1, (s * s) * (t * t), -(m * n));
    assert -1 * (m * n) == -(m * n) && -1 * -(m * n) == m * n;
  }

  /** The sum of two points of the subgroup, or of two outside it, lies in the subgroup. */
  lemma AgreeingNorms(a: CurvePoint, b: CurvePoint)
    requires IsPrime(P) && HasSquareNorm(a) == HasSquareNorm(b)
    ensures HasSquareNorm(Sum(a, b))
  {
    var s := WeightRoot(a);
    var t := WeightRoot(b);
    var m, n := Weight(a.y), Weight(b.y);
    if HasSquareNorm(a) {
      Mul(P, s * s, m, t * t, n);
      Interchange(s, t, s, t);
      RootOfSum(a, b, s * t);
    } else {
      Constants();
      MixedRoot(P, SQRT_M1, s, t, m, n);
      RootOfSum(a, b, SQRT_M1 * (s * t));
    }
  }

  lemma NegateHasSquareNorm(a: CurvePoint)
    requires IsPrime(P)
    ensures HasSquareNorm(Negate(a)) <==> HasSquareNorm(a)
  {
    assert Negate(a).y == a.y;
  }

  /** Having a square norm is a homomorphism: of three points with a + b = c, none or two lack one. */
  lemma NormOfSum(a: CurvePoint, b: CurvePoint)
    requires IsPrime(P)
    ensures HasSquareNorm(Sum(a, b)) <==> (HasSquareNorm(a) <==> HasSquareNorm(b))
  {
    var c, n := Sum(a, b), Negate(a);
    if HasSquareNorm(a) == HasSquareNorm(b) {
      AgreeingNorms(a, b);
    } else if HasSquareNorm(c) {
      NegateHasSquareNorm(a);
      SumAssociates(n, a, b);
      SumUnit(a);
      SumZero(b);
      NegateHasSquareNorm(b);
      assert Sum(n, c) == b;
      if HasSquareNorm(a) {
        AgreeingNorms(n, c);
      } else {
        SumCommutes(a, b);
        SumAssociates(Negate(b), b, a);
        SumUnit(b);
        SumZero(a);
        AgreeingNorms(Negate(b), c);
      }
    }
  }

  /** Multiples of a point with a square norm have one. */
  lemma MultipleHasSquareNorm(n: int, a: CurvePoint)
    requires IsPrime(P)
    ensures HasSquareNorm(Scale(n, a)) <==> n % 2 == 0 || HasSquareNorm(a)
  {
    var k, h := n / 2, Scale(n / 2, a);
    AddMultiples(k, k, a);
    DoubleHasSquareNorm(h);
    if n % 2 == 1 {
      AddMultiples(2 * k, 1, a);
      SmallMultiples(a);
      NormOfSum(Scale(2 * k, a), a);
    }
  }

  lemma ZeroHasSquareNorm()
    requires IsPrime(P)
    ensures HasSquareNorm(ZERO)
  {
    SumZero(ZERO);
    DoubleHasSquareNorm(ZERO);
  }

  /** A point of odd order has a square norm, so that all multiples of the base point do. */
  lemma OddOrderHasSquareNorm(n: int, a: CurvePoint)
    requires IsPrime(P) && n % 2 == 1 && Scale(n, a) == ZERO
    ensures HasSquareNorm(a)
  {
    ZeroHasSquareNorm();
    MultipleHasSquareNorm(n, a);
  }

  /** The four points of order dividing four have a square norm. */
  lemma TorsionHasSquareNorm(t: CurvePoint)
    requires IsPrime(P) && IsTorsion(t)
    ensures HasSquareNorm(t)
  {
    if t.y == 0 {
      assert Eq(1 * 1, 1 - t.y * t.y);
    } else {
      MinusOneOnAxis();
      TorsionSquares();
      Add(P, 1, 1, t.y * t.y, 1);
      assert Eq(0 * 0, 1 - t.y * t.y);
    }
  }

  // Points of order eight.

  /** A root of 2 k, for the root k of 1 + d. */
  const ROOT_OF_TWICE_K: FieldElement := 0x1394d19018cc1bd21adace13cec197a6442e59593d97e7b00dd6fa87f24c9c37

  lemma TwiceK()
    ensures Eq(ROOT_OF_TWICE_K * ROOT_OF_TWICE_K, 2 * ROOT_OF_ONE_PLUS_D) && !Eq(ROOT_OF_ONE_PLUS_D, 0)
  {
    CongIs(P, ROOT_OF_TWICE_K * ROOT_OF_TWICE_K, 2 * ROOT_OF_ONE_PLUS_D);
    CongIs(P, ROOT_OF_ONE_PLUS_D, 0);
  }

  lemma KRootGivesTwo(p: int, e: nat, i: int, r: int, t: int, n: int, k: int)
    requires IsPrime(p) && p == 8 * e + 5 && Cong(p, i * i, -1) && Cong(p, r * r, 2 * k) && !Cong(p, k, 0)
    requires Cong(p, t, 0) || Cong(p, t * n, 1)
    requires Cong(p, t, 0) ==> Cong(p, t * t, 0)
    ensures !Cong(p, t * t, k)
  {
    if Cong(p, t * t, k) {
      QuotientOfRoots(p, r, t, n, k);
      TwoHasNoRoot(p, e, i, r * n);
    }
  }

  /** The root k of 1 + d has no root, because 2 has none. */
  lemma KHasNoRoot(t: FieldElement)
    requires IsPrime(P)
    ensures !Eq(t * t, ROOT_OF_ONE_PLUS_D)
  {
    Constants();
    TwiceK();
    Product(P, t, t);
    InvertIsInverse(t);
    KRootGivesTwo(P, (P - 5) / 8, SQRT_M1, ROOT_OF_TWICE_K, t, Invert(t), ROOT_OF_ONE_PLUS_D);
  }

  lemma WeightSquareForm(d: int, a: int, b: int)
    ensures (d * (1 + d * b)) * (b + a) + d * ((b - a) - (1 + d * (a * b)))
         == (1 + d * b) * (1 + d * b) - (1 + d)
  {
    var k, m := d * b, d * a;
    assert d * (d * (a * b)) == m * k;
    assert (d * (1 + k)) * (b + a) == (1 + k) * (k + m);
  }

  /** Where x^2 + y^2 = 0, the weight is a root of 1 + d. */
  lemma WeightSquared(p: int, d: int, a: int, b: int)
    requires p > 0 && Cong(p, b + a, 0) && Cong(p, b - a, 1 + d * (a * b))
    ensures Cong(p, (1 + d * b) * (1 + d * b), 1 + d)
  {
    var h1, h2 := b + a, (b - a) - (1 + d * (a * b));
    Difference(p, b - a, 1 + d * (a * b));
    Combine(p, d * (1 + d * b), h1, d, h2);
    Difference(p, (1 + d * b) * (1 + d * b), 1 + d);
    WeightSquareForm(d, a, b);
  }

  lemma ZeroTimes(p: int, y: int, q: int, n: int)
    requires p > 0 && y == 0 && Cong(p, y * q, n)
    ensures Cong(p, n, 0)
  {
    assert 0 * q == 0;
  }

  lemma NegatedSquare(p: int, i: int, s: int, w: int, k: int)
    requires p > 0 && Cong(p, i * i, -1) && Cong(p, s * s, w)
    ensures Cong(p, w, -k) ==> Cong(p, (i * s) * (i * s), k)
  {
    Interchange(i, s, i, s);
    Mul(p, i * i, -1, s * s, w);
    if Cong(p, w, -k) {
      Mul(p, -1, -1, w, -k);
    }
  }

  /** Neither k nor -k has a root. */
  lemma EitherRoot(s: FieldElement, w: FieldElement)
    requires IsPrime(P) && Eq(s * s, w)
    ensures !Eq(w, ROOT_OF_ONE_PLUS_D) && !Eq(w, -ROOT_OF_ONE_PLUS_D)
  {
    var i, k := SQRT_M1, ROOT_OF_ONE_PLUS_D;
    KHasNoRoot(s);
    KHasNoRoot(i * s);
    Constants();
    NegatedSquare(P, i, s, w, k);
  }

  lemma DoubleOfOrderEight(a: CurvePoint)
    requires IsPrime(P) && Scale(8, a) == ZERO && Scale(4, a) != ZERO
    ensures Sum(a, a) == QUARTER || Sum(a, a) == THREE_QUARTERS
  {
    var u := Sum(a, a);
    FourTimes(a);
    NestMultiples(4, 2, a);
    SmallMultiples(a);
    AddMultiples(1, 1, a);
    TorsionIsOrderFour(u);
    TorsionDoubles(u);
  }

  /** A point of order eight has no square norm. */
  lemma OrderEightLacksNorm(a: CurvePoint)
    requires IsPrime(P) && Scale(8, a) == ZERO && Scale(4, a) != ZERO
    ensures !HasSquareNorm(a)
  {
    var u := Sum(a, a);
    DoubleOfOrderEight(a);
    SumEquations(a, a);
    CurveEquation(a.x, a.y);
    WeightIs(a.y);
    ZeroTimes(P, u.y, 1 - Delta(a.x, a.y, a.x, a.y), a.y * a.y + a.x * a.x);
    WeightSquared(P, EDWARDS_D, a.x * a.x, a.y * a.y);
    NormIsWeight(a);
    if s :| Eq(s * s, Weight(a.y)) {
      RootOfD();
      FactorDifference(P, Weight(a.y), ROOT_OF_ONE_PLUS_D);
      EitherRoot(s, Weight(a.y));
    }
  }

  /**
    For a point whose order divides 8 n, with n odd, as it does for all points of the curve with n = l:
    it has a square norm exactly when its order divides 4 n.
  */
  lemma NormOfOrder(n: int, a: CurvePoint)
    requires IsPrime(P) && n % 2 == 1 && Scale(8 * n, a) == ZERO
    ensures HasSquareNorm(a) <==> Scale(4 * n, a) == ZERO
  {
    var b := Scale(n, a);
    MultipleHasSquareNorm(n, a);
    NestMultiples(8, n, a);
    NestMultiples(4, n, a);
    if Scale(4, b) == ZERO {
      TorsionIsOrderFour(b);
      TorsionHasSquareNorm(b);
    } else {
      OrderEightLacksNorm(b);
    }
  }

  // The point of order eight among the constants of the program.

  const EIGHTH_X: FieldElement := 0x1fd5b9a006394a28e933993238de4abb5c193c7013e5e238dea14646c545d14a
  const EIGHTH_Y: FieldElement := 0x7a03ac9277fdc74ec6cc392cfa53202a0f67100d760b3cba4fd84d3d706a17c7

  lemma EighthReduced()
    ensures IsReduced(EIGHTH_X) && IsReduced(EIGHTH_Y)
  {
    ReducedRange(EIGHTH_X);
    ReducedRange(EIGHTH_Y);
  }

  lemma EighthEquation()
    ensures var a, b := EIGHTH_X * EIGHTH_X, EIGHTH_Y * EIGHTH_Y; Eq(b - a, 1 + EDWARDS_D * (a * b))
  {
    var a, b := EIGHTH_X * EIGHTH_X, EIGHTH_Y * EIGHTH_Y;
    CongIs(P, b - a, 1 + EDWARDS_D * (a * b));
  }

  lemma EighthOnCurve()
    ensures OnCurve(EIGHTH_X, EIGHTH_Y) && IsReduced(EIGHTH_X) && IsReduced(EIGHTH_Y)
  {
    EighthReduced();
    EighthEquation();
    CurveEquation(EIGHTH_X, EIGHTH_Y);
  }

  const EIGHTH: CurvePoint := (EighthOnCurve(); EdwardsGroup.Affine(EIGHTH_X, EIGHTH_Y))

  lemma EighthSums()
    ensures var x, y := EIGHTH_X, EIGHTH_Y;
            var dl := Delta(x, y, x, y);
            Eq((P - SQRT_M1) * (1 + dl), x * y + x * y) && Eq(0 * (1 - dl), y * y + x * x)
  {
    var x, y := EIGHTH_X, EIGHTH_Y;
    var dl := Delta(x, y, x, y);
    CongIs(P, (P - SQRT_M1) * (1 + dl), x * y + x * y);
    CongIs(P, 0, y * y + x * x);
    assert 0 * (1 - dl) == 0;
  }

  lemma EighthDoubles()
    requires IsPrime(P)
    ensures Sum(EIGHTH, EIGHTH) == QUARTER
  {
    EighthSums();
    SumLaw(EIGHTH_X, EIGHTH_Y, EIGHTH_X, EIGHTH_Y, P - SQRT_M1, 0);
    SumIs(EIGHTH, EIGHTH, QUARTER);
  }

  /** It has order eight, and no square norm. */
  lemma EighthLacksNorm()
    requires IsPrime(P)
    ensures Scale(8, EIGHTH) == ZERO && Scale(4, EIGHTH) != ZERO && !HasSquareNorm(EIGHTH)
  {
    EighthDoubles();
    FourTimes(EIGHTH);
    TorsionDoubles(QUARTER);
    TorsionDoubles(TWO_TORSION);
    AddMultiples(4, 4, EIGHTH);
    OrderEightLacksNorm(EIGHTH);
  }
}
