/** The Ristretto encoding: decoding is exact, and encoding and decoding are mutually inverse. */
module Ristretto {
  import opened Congruence
  import opened Primes
  import opened SquareRoots
  import opened Field
  import opened Options
  import opened Edwards
  import opened EdwardsGroup
  import opened CurveModels
  import opened MontgomeryAlgebra
  import opened Montgomery
  import opened RistrettoEquality

  const INVSQRT_A_MINUS_D: int := 0x786c8905cfaffca216c27b91fe01d8409d2f16175a4172be99c8fdaa805d40ea

  /** The denominator of decoding, with a counter as in Congruence.RemainderAt. */
  function DecodeVAt(s: FieldElement, k: nat): FieldElement
    decreases s, k
  {
    if k > 0 then DecodeVAt(s, k - 1)
    else
      var ss := Square(s);
      -EDWARDS_D * Square(1 - ss) - Square(1 + ss)
  }

  function DecodeV(s: FieldElement): FieldElement {
    DecodeVAt(s, 3)
  }

  function DecodedXY(s: FieldElement, I: FieldElement): (FieldElement, FieldElement) {
    var ss := Square(s);
    var u1 := 1 - ss;
    var u2 := 1 + ss;
    var Dx := I * u2;
    var Dy := I * (Dx * DecodeV(s));
    var x0 := (s + s) * Dx;
    var x := ConditionalNegate(x0, IsNegative(x0));
    (x, u1 * Dy)
  }

  function DecodeWith(s: FieldElement, ok: bool, I: FieldElement): Option<EdwardsPoint> {
    var (x, y) := DecodedXY(s, I);
    var t := x * y;
    if !ok || IsNegative(t) || IsZero(y) then None else Some(EdwardsPoint(x, y, 1, t))
  }

  /** Decoding, with a counter as in Congruence.RemainderAt. */
  function RistrettoDecompressAt(c: Bytes32, k: nat): Option<EdwardsPoint>
    decreases c, k
  {
    if k > 0 then RistrettoDecompressAt(c, k - 1)
    else
      var s := FromBytes(c);
      if ToBytes(s) != c || IsNegative(s) then None
      else
        var (ok, I) := InvSqrt(DecodeV(s) * Square(1 + Square(s)));
        DecodeWith(s, ok, I)
  }

  /** Decoding is ignorant of the high bit, so that an encoding is checked to be canonical. */
  function RistrettoDecompress(c: Bytes32): Option<EdwardsPoint> {
    RistrettoDecompressAt(c, 3)
  }

  lemma RistrettoDecompressIs(c: Bytes32)
    ensures var s := FromBytes(c);
            var (ok, I) := InvSqrt(DecodeV(s) * Square(1 + Square(s)));
            RistrettoDecompress(c) == if ToBytes(s) != c || IsNegative(s) then None else DecodeWith(s, ok, I)
  {
    assert RistrettoDecompressAt(c, 1) == RistrettoDecompressAt(c, 0);
    assert RistrettoDecompressAt(c, 2) == RistrettoDecompressAt(c, 1);
  }

  lemma DecodeVIs(s: FieldElement)
    ensures DecodeV(s) == -EDWARDS_D * ((1 - s * s) * (1 - s * s)) - (1 + s * s) * (1 + s * s)
  {
    assert DecodeVAt(s, 1) == DecodeVAt(s, 0);
    assert DecodeVAt(s, 2) == DecodeVAt(s, 1);
  }

  function EncodeWith(p: EdwardsPoint, invsqrt: FieldElement): (s: FieldElement)
    ensures !IsNegative(s)
  {
    var i1 := invsqrt * ((p.Z + p.Y) * (p.Z - p.Y));
    var i2 := invsqrt * (p.X * p.Y);
    var zInv := i1 * (i2 * p.T);
    var iX := p.X * SQRT_M1;
    var iY := p.Y * SQRT_M1;
    var enchantedDenominator := i1 * INVSQRT_A_MINUS_D;
    var rotate := IsNegative(p.T * zInv);
    var X := if rotate then iY else p.X;
    var Y := if rotate then iX else p.Y;
    var denInv := if rotate then enchantedDenominator else i2;
    var Y' := ConditionalNegate(Y, IsNegative(X * zInv));
    var s := denInv * (p.Z - Y');
    AbsoluteValue(s);
    ConditionalNegate(s, IsNegative(s))
  }

  /** Encoding, with a counter as in Congruence.RemainderAt. */
  function RistrettoCompressAt(p: EdwardsPoint, k: nat): (c: Bytes32)
    ensures c < P
    decreases p, k
  {
    if k > 0 then RistrettoCompressAt(p, k - 1)
    else
      var (_, invsqrt) := InvSqrt(((p.Z + p.Y) * (p.Z - p.Y)) * Square(p.X * p.Y));
      ToBytes(EncodeWith(p, invsqrt))
  }

  function RistrettoCompress(p: EdwardsPoint): (c: Bytes32)
    ensures c < P
  {
    RistrettoCompressAt(p, 3)
  }

  lemma RistrettoCompressIs(p: EdwardsPoint)
    ensures var (_, I) := InvSqrt(((p.Z + p.Y) * (p.Z - p.Y)) * ((p.X * p.Y) * (p.X * p.Y)));
            RistrettoCompress(p) == ToBytes(EncodeWith(p, I))
  {
    assert RistrettoCompressAt(p, 1) == RistrettoCompressAt(p, 0);
    assert RistrettoCompressAt(p, 2) == RistrettoCompressAt(p, 1);
  }

  /**
    s encodes the point: s is the root of (1 - y) / (1 + y), for a point in normal position. The
    counter is as in Congruence.RemainderAt.
  */
  predicate EncodesAt(s: FieldElement, a: CurvePoint, k: nat)
    decreases s, a, k
  {
    if k > 0 then EncodesAt(s, a, k - 1)
    else
      && !IsNegative(s) && Eq((s * s) * (1 + a.y), 1 - a.y)
      && !IsNegative(a.x) && !IsNegative(a.x * a.y) && a.y != 0
  }

  predicate Encodes(s: FieldElement, a: CurvePoint) {
    EncodesAt(s, a, 3)
  }

  lemma EncodesIs(s: FieldElement, a: CurvePoint)
    ensures Encodes(s, a) <==>
              && !IsNegative(s) && Eq((s * s) * (1 + a.y), 1 - a.y)
              && !IsNegative(a.x) && !IsNegative(a.x * a.y) && a.y != 0
  {
    assert EncodesAt(s, a, 1) == EncodesAt(s, a, 0);
    assert EncodesAt(s, a, 2) == EncodesAt(s, a, 1);
  }

  // Decoding.

  lemma UnfoldY(u1: int, u2: int, I: int, v: int)
    ensures (u1 * (I * ((I * u2) * v))) * u2 == u1 * ((v * (u2 * u2)) * (I * I))
  {
    assert I * ((I * u2) * v) == (I * I) * (u2 * v);
    assert ((I * I) * (u2 * v)) * u2 == (v * (u2 * u2)) * (I * I);
    Reassociate(u1, (I * I) * (u2 * v), u2);
  }

  /** With I a root of 1 / (v u2^2): x^2 v = 4 s^2 and y u2 = u1. */
  lemma DecodedCoordinates(p: int, s: int, v: int, u1: int, u2: int, I: int)
    requires p > 0 && Cong(p, (v * (u2 * u2)) * (I * I), 1)
    ensures var x, y := (s + s) * (I * u2), u1 * (I * ((I * u2) * v));
            Cong(p, (x * x) * v, 4 * (s * s)) && Cong(p, y * u2, u1)
  {
    var e := (v * (u2 * u2)) * (I * I);
    Interchange(I, u2, I, u2);
    Interchange(s + s, I * u2, s + s, I * u2);
    assert (s + s) * (s + s) == 4 * (s * s);
    assert ((I * I) * (u2 * u2)) * v == e;
    assert ((4 * (s * s)) * ((I * I) * (u2 * u2))) * v == (4 * (s * s)) * e;
    Mul(p, 4 * (s * s), 4 * (s * s), e, 1);
    UnfoldY(u1, u2, I, v);
    Mul(p, u1, u1, e, 1);
  }

  lemma ClearedLeft(d: int, v: int, e: int, a: int, b: int)
    ensures (v * e) * ((b - a) - (1 + d * (a * b))) == v * (b * e) - e * (a * v) - v * e - d * ((a * v) * (b * e))
  {
    var k := v * e;
    assert k * ((b - a) - (1 + d * (a * b))) == k * b - k * a - k - k * (d * (a * b));
    assert k * b == v * (b * e) && k * a == e * (a * v);
    Interchange(a, v, b, e);
    assert k * (d * (a * b)) == d * ((a * b) * k);
  }

  lemma ClearedFirst(d: int, v: int, A: int, av: int, be: int)
    ensures (v - d * av) * (be - A) == v * be - v * A - d * (av * be) + (d * A) * av
  {
    var k := d * av;
    assert (v - k) * (be - A) == v * be - v * A - k * be + k * A;
    assert k * be == d * (av * be) && k * A == (d * A) * av;
  }

  lemma ClearedSecond(e: int, dA: int, av: int, f: int)
    ensures (-e - dA) * (av - f) == -(e * av) + e * f - dA * av + dA * f
  {}

  lemma ClearedRest(v: int, e: int, A: int, f: int, dA: int)
    requires v == -dA - e && f == e - A
    ensures -(v * A) + e * f + dA * f == -(v * e)
  {
    assert e * f + dA * f == -v * f;
    assert -v * f == -(v * e) + v * A;
  }

  lemma ClearedForm(d: int, v: int, e: int, A: int, a: int, b: int, f: int, h1: int, h2: int)
    requires v == -d * A - e && f == e - A && h1 == b * e - A && h2 == a * v - f
    ensures (v * e) * ((b - a) - (1 + d * (a * b))) == (v - d * (a * v)) * h1 + (-e - d * A) * h2
  {
    var av, be, dA := a * v, b * e, d * A;
    ClearedLeft(d, v, e, a, b);
    ClearedFirst(d, v, A, av, be);
    ClearedSecond(e, dA, av, f);
    ClearedRest(v, e, A, f, dA);
    assert -e - d * A == -e - dA;
  }

  lemma ClearCurve(p: int, d: int, v: int, e: int, A: int, a: int, b: int, f: int)
    requires IsPrime(p) && !Cong(p, v * e, 0) && v == -d * A - e && f == e - A
    requires Cong(p, b * e, A) && Cong(p, a * v, f)
    ensures Cong(p, b - a, 1 + d * (a * b))
  {
    var h1, h2 := b * e - A, a * v - f;
    Difference(p, b * e, A);
    Difference(p, a * v, f);
    ClearedForm(d, v, e, A, a, b, f, h1, h2);
    Combine(p, v - d * (a * v), h1, -e - d * A, h2);
    var g := (b - a) - (1 + d * (a * b));
    NoZeroDivisors(p, v * e, g);
    Difference(p, b - a, 1 + d * (a * b));
  }

  /** The decoded coordinates satisfy the curve equation. */
  lemma DecodedCurve(p: int, d: int, s: int, v: int, x: int, y: int)
    requires IsPrime(p)
    requires var u1, u2 := 1 - s * s, 1 + s * s;
             && v == -d * (u1 * u1) - u2 * u2 && !Cong(p, v * (u2 * u2), 0)
             && Cong(p, (x * x) * v, 4 * (s * s)) && Cong(p, y * u2, u1)
    ensures Cong(p, y * y - x * x, 1 + d * ((x * x) * (y * y)))
  {
    var ss := s * s;
    var u1, u2, a, b := 1 - ss, 1 + ss, x * x, y * y;
    var e, A := u2 * u2, u1 * u1;
    Mul(p, y * u2, u1, y * u2, u1);
    Interchange(y, u2, y, u2);
    assert e - A == 4 * ss;
    ClearCurve(p, d, v, e, A, a, b, 4 * ss);
  }

  lemma DecodeInverseRoot(w: FieldElement) returns (ok: bool, I: FieldElement)
    requires IsPrime(P)
    ensures (ok, I) == InvSqrt(w) && (ok <==> exists r :: Root(P, 1, w, r)) && (ok ==> Eq(w * (I * I), 1))
  {
    SqrtRatioIContract(1, w);
    var (f, r) := InvSqrt(w);
    ok, I := f, r;
  }

  lemma NormalEquation(p: int, ss: int, y: int, u2: int)
    requires IsPrime(p) && u2 == 1 + ss && !Cong(p, u2, 0) && Cong(p, y * u2, 1 - ss)
    ensures Cong(p, ss * (1 + y), 1 - y)
  {
    Mul(p, ss, ss, y * u2, 1 - ss);
    Add(p, ss * u2, ss * u2, ss * (y * u2), ss * (1 - ss));
    Add(p, u2, u2, y * u2, 1 - ss);
    assert u2 * (ss * (1 + y)) == ss * u2 + ss * (y * u2) && ss * u2 + ss * (1 - ss) == 2 * ss;
    assert u2 * (1 - y) == u2 - y * u2 && u2 - (1 - ss) == 2 * ss;
    Cancel(p, u2, ss * (1 + y), 1 - y);
  }

  lemma DecodedEquations(p: int, d: int, s: int, v: int, I: int, x: int)
    requires IsPrime(p) && p > 2 && v == -d * ((1 - s * s) * (1 - s * s)) - (1 + s * s) * (1 + s * s)
    requires Cong(p, (v * ((1 + s * s) * (1 + s * s))) * (I * I), 1)
    requires var x0 := (s + s) * (I * (1 + s * s)); x * x == x0 * x0
    ensures var y := (1 - s * s) * (I * ((I * (1 + s * s)) * v));
            Cong(p, y * y - x * x, 1 + d * ((x * x) * (y * y))) && Cong(p, (s * s) * (1 + y), 1 - y)
  {
    var u1, u2 := 1 - s * s, 1 + s * s;
    var y := u1 * (I * ((I * u2) * v));
    DecodedCoordinates(p, s, v, u1, u2, I);
    SmallUnits(p);
    Product(p, v * (u2 * u2), I * I);
    DecodedCurve(p, d, s, v, x, y);
    Product(p, v, u2 * u2);
    Product(p, u2, u2);
    NormalEquation(p, s * s, y, u2);
  }

  lemma DecodedOnCurve(s: FieldElement, I: FieldElement)
    requires IsPrime(P) && Eq((DecodeV(s) * Square(1 + Square(s))) * (I * I), 1)
    ensures var (x, y) := DecodedXY(s, I); OnCurve(x, y) && !IsNegative(x) && Eq((s * s) * (1 + y), 1 - y)
  {
    var (x, y) := DecodedXY(s, I);
    DecodeVIs(s);
    AbsoluteValue((s + s) * (I * (1 + s * s)));
    DecodedEquations(P, EDWARDS_D, s, DecodeV(s), I, x);
    CurveEquation(x, y);
  }

  /** The canonical point with given coordinates, and what it shares with them. */
  lemma Reduced(x: FieldElement, y: FieldElement) returns (a: CurvePoint)
    requires OnCurve(x, y)
    ensures a == EdwardsGroup.Affine(Remainder(P, x), Remainder(P, y)) && Eq(a.x, x) && Eq(a.y, y)
    ensures IsNegative(a.x) == IsNegative(x) && IsNegative(a.x * a.y) == IsNegative(x * y) && (a.y == 0 <==> IsZero(y))
    ensures Extends(EdwardsPoint(x, y, 1, x * y), a)
  {
    CanonicalPoint(x, y);
    SmallRemainder(P, Remainder(P, x));
    SmallRemainder(P, Remainder(P, y));
    a := EdwardsGroup.Affine(Remainder(P, x), Remainder(P, y));
    Mul(P, x, a.x, y, a.y);
    SmallUnits(P);
    ExtendsForm(EdwardsPoint(x, y, 1, x * y), a);
  }

  /** A decoded point is in normal position and is encoded by the string. */
  lemma DecodedPoint(s: FieldElement, I: FieldElement) returns (a: CurvePoint)
    requires IsPrime(P) && !IsNegative(s)
    requires Eq((DecodeV(s) * Square(1 + Square(s))) * (I * I), 1) && DecodeWith(s, true, I).Some?
    ensures Extends(DecodeWith(s, true, I).value, a) && Encodes(s, a)
  {
    var (x, y) := DecodedXY(s, I);
    DecodedOnCurve(s, I);
    a := Reduced(x, y);
    Add(P, 1, 1, a.y, y);
    Mul(P, s * s, s * s, 1 + a.y, 1 + y);
    EncodesIs(s, a);
  }

  // Every encoding is decoded.

  lemma EncodedRatios(p: int, ss: int, y: int)
    requires IsPrime(p) && p > 2 && Cong(p, ss * (1 + y), 1 - y)
    ensures Cong(p, (1 + y) * (1 + ss), 2) && Cong(p, (1 + y) * (1 - ss), 2 * y)
    ensures !Cong(p, 1 + y, 0) && !Cong(p, 1 + ss, 0) && Cong(p, y * (1 + ss), 1 - ss)
  {
    var k := 1 + y;
    Add(p, k, k, ss * k, 1 - y);
    assert k * (1 + ss) == k + ss * k && k * (1 - ss) == k - ss * k;
    Product(p, k, 1 + ss);
    SmallUnits(p);
    Mul(p, y, y, k * (1 + ss), 2);
    assert y * (k * (1 + ss)) == k * (y * (1 + ss));
    Cancel(p, k, y * (1 + ss), 1 - ss);
  }

  lemma SquaredSides(p: int, ss: int, y: int)
    requires p > 0 && Cong(p, ss * (1 + y), 1 - y)
    ensures Cong(p, (4 * ss) * ((1 + y) * (1 + y)), -4 * (y * y - 1))
  {
    var k := 1 + y;
    Mul(p, ss * k, 1 - y, 4 * k, 4 * k);
    assert (ss * k) * (4 * k) == (4 * ss) * (k * k) && (1 - y) * (4 * k) == -4 * (y * y - 1);
  }

  lemma ClearV(p: int, a: int, v: int, e: int, q: int, n: int, f: int)
    requires IsPrime(p) && !Cong(p, e, 0) && Cong(p, v * e, -4 * q) && Cong(p, a * q, n) && Cong(p, f * e, -4 * n)
    ensures Cong(p, a * v, f)
  {
    Mul(p, a, a, v * e, -4 * q);
    Mul(p, -4, -4, a * q, n);
    assert a * (-4 * q) == -4 * (a * q);
    Reassociate(a, v, e);
    CancelRight(p, e, a * v, f);
  }

  lemma ScaledV(p: int, d: int, y: int, ss: int, v: int)
    requires p > 0 && v == -d * ((1 - ss) * (1 - ss)) - (1 + ss) * (1 + ss)
    requires Cong(p, (1 + y) * (1 + ss), 2) && Cong(p, (1 + y) * (1 - ss), 2 * y)
    ensures Cong(p, v * ((1 + y) * (1 + y)), -4 * (1 + d * (y * y)))
  {
    var k, u1, u2 := 1 + y, 1 - ss, 1 + ss;
    Mul(p, k * u2, 2, k * u2, 2);
    Mul(p, k * u1, 2 * y, k * u1, 2 * y);
    Mul(p, -d, -d, (k * u1) * (k * u1), (2 * y) * (2 * y));
    Add(p, -d * ((k * u1) * (k * u1)), -d * ((2 * y) * (2 * y)), (k * u2) * (k * u2), 4);
    Interchange(k, u1, k, u1);
    Interchange(k, u2, k, u2);
    assert (-d * (u1 * u1) - u2 * u2) * (k * k) == -d * ((k * k) * (u1 * u1)) - (k * k) * (u2 * u2);
    assert -d * ((2 * y) * (2 * y)) == -4 * (d * (y * y));
  }

  /** The denominator of decoding, from the point. */
  lemma EncodedV(p: int, d: int, x: int, y: int, ss: int, v: int)
    requires IsPrime(p) && p > 2 && Cong(p, ss * (1 + y), 1 - y)
    requires Cong(p, y * y - x * x, 1 + d * ((x * x) * (y * y)))
    requires v == -d * ((1 - ss) * (1 - ss)) - (1 + ss) * (1 + ss)
    ensures Cong(p, (x * x) * v, 4 * ss)
  {
    var k, a, b := 1 + y, x * x, y * y;
    EncodedRatios(p, ss, y);
    XSquared(p, d, a, b);
    Product(p, k, k);
    ScaledV(p, d, y, ss, v);
    SquaredSides(p, ss, y);
    ClearV(p, a, v, k * k, 1 + d * b, b - 1, 4 * ss);
  }

  lemma RootAtZero(p: int, m: int, d: int, s: int, v: int)
    requires p > 0 && Cong(p, s, 0) && Cong(p, (m * m) * (-1 - d), 1)
    requires v == -d * ((1 - s * s) * (1 - s * s)) - (1 + s * s) * (1 + s * s)
    ensures Cong(p, (v * ((1 + s * s) * (1 + s * s))) * (m * m), 1)
  {
    Mul(p, s, 0, s, 0);
    Add(p, 1, 1, s * s, 0);
    var u1, u2 := 1 - s * s, 1 + s * s;
    Mul(p, u1, 1, u1, 1);
    Mul(p, u2, 1, u2, 1);
    Mul(p, -d, -d, u1 * u1, 1);
    Add(p, -d * (u1 * u1), -d, u2 * u2, 1);
    Mul(p, v, -d - 1, u2 * u2, 1);
    Mul(p, v * (u2 * u2), -d - 1, m * m, m * m);
    assert (-d - 1) * (m * m) == (m * m) * (-1 - d);
  }

  lemma RootElsewhere(p: int, x: int, s: int, v: int, u: int, n: int)
    requires p > 0 && Cong(p, (x * x) * v, 4 * (s * s)) && Cong(p, ((s + s) * u) * n, 1)
    ensures Cong(p, (v * (u * u)) * ((x * n) * (x * n)), 1)
  {
    var k, e := (s + s) * u, u * u;
    Interchange(x, n, x, n);
    assert (v * e) * ((x * x) * (n * n)) == ((x * x) * v) * (e * (n * n));
    Mul(p, (x * x) * v, 4 * (s * s), e * (n * n), e * (n * n));
    Mul(p, k * n, 1, k * n, 1);
    Interchange(k, n, k, n);
    Interchange(s + s, u, s + s, u);
    assert (s + s) * (s + s) == 4 * (s * s);
    Reassociate(4 * (s * s), e, n * n);
  }

  /** The inverse root that decoding needs exists. */
  lemma EncodedRoot(p: int, m: int, d: int, x: int, y: int, s: int, v: int, n: int) returns (r: int)
    requires IsPrime(p) && p > 2 && Cong(p, (s * s) * (1 + y), 1 - y)
    requires v == -d * ((1 - s * s) * (1 - s * s)) - (1 + s * s) * (1 + s * s)
    requires Cong(p, y * y - x * x, 1 + d * ((x * x) * (y * y))) && Cong(p, (m * m) * (-1 - d), 1)
    requires var k := (s + s) * (1 + s * s); Cong(p, k, 0) || Cong(p, k * n, 1)
    ensures Cong(p, (v * ((1 + s * s) * (1 + s * s))) * (r * r), 1)
  {
    if Cong(p, s, 0) {
      r := m;
      RootAtZero(p, m, d, s, v);
    } else {
      r := x * n;
      EncodedV(p, d, x, y, s * s, v);
      EncodedRatios(p, s * s, y);
      SmallUnits(p);
      Product(p, 2, s);
      assert s + s == 2 * s;
      Product(p, s + s, 1 + s * s);
      RootElsewhere(p, x, s, v, 1 + s * s, n);
    }
  }

  /** What decoding computes are the coordinates of the encoded point, up to the sign of x. */
  lemma DecodeGivesCoordinates(p: int, d: int, s: int, v: int, I: int, x: int, y: int)
    requires IsPrime(p) && p > 2 && Cong(p, (s * s) * (1 + y), 1 - y)
    requires Cong(p, y * y - x * x, 1 + d * ((x * x) * (y * y)))
    requires v == -d * ((1 - s * s) * (1 - s * s)) - (1 + s * s) * (1 + s * s)
    requires Cong(p, (v * ((1 + s * s) * (1 + s * s))) * (I * I), 1)
    ensures var u1, u2 := 1 - s * s, 1 + s * s;
            var x0 := (s + s) * (I * u2);
            Cong(p, x0 * x0, x * x) && Cong(p, u1 * (I * ((I * u2) * v)), y)
  {
    var u1, u2 := 1 - s * s, 1 + s * s;
    var x0, y' := (s + s) * (I * u2), u1 * (I * ((I * u2) * v));
    EncodedV(p, d, x, y, s * s, v);
    EncodedRatios(p, s * s, y);
    DecodedCoordinates(p, s, v, u1, u2, I);
    SmallUnits(p);
    Product(p, v * (u2 * u2), I * I);
    Product(p, v, u2 * u2);
    CancelRight(p, u2, y', y);
    CancelRight(p, v, x0 * x0, x * x);
  }

  /** Elements with equal squares that are not negative are equal. */
  lemma EqualMagnitude(x: FieldElement, y: FieldElement)
    requires IsPrime(P) && Eq(x * x, y * y) && IsNegative(x) == IsNegative(y)
    ensures Eq(x, y)
  {
    FactorDifference(P, x, y);
    SignOfNegation(y);
  }

  lemma CoordinatesAreAccepted(s: FieldElement, a: CurvePoint, I: FieldElement)
    requires IsPrime(P) && Encodes(s, a) && Eq((DecodeV(s) * Square(1 + Square(s))) * (I * I), 1)
    ensures DecodeWith(s, true, I).Some? && Extends(DecodeWith(s, true, I).value, a)
  {
    EncodesIs(s, a);
    CurveEquation(a.x, a.y);
    DecodeVIs(s);
    DecodeGivesCoordinates(P, EDWARDS_D, s, DecodeV(s), I, a.x, a.y);
    var (x, y) := DecodedXY(s, I);
    AbsoluteValue((s + s) * (I * (1 + s * s)));
    EqualMagnitude(x, a.x);
    Mul(P, x, a.x, y, a.y);
    ReducedRange(a.y);
    SmallRemainder(P, a.y);
    SmallUnits(P);
    ExtendsForm(EdwardsPoint(x, y, 1, x * y), a);
  }

  lemma MagicConstant()
    ensures Eq((INVSQRT_A_MINUS_D * INVSQRT_A_MINUS_D) * (-1 - EDWARDS_D), 1)
  {
    CongIs(P, (INVSQRT_A_MINUS_D * INVSQRT_A_MINUS_D) * (-1 - EDWARDS_D), 1);
  }

  lemma EncodedInverseRoot(s: FieldElement, a: CurvePoint) returns (r: FieldElement)
    requires IsPrime(P) && Encodes(s, a)
    ensures Root(P, 1, DecodeV(s) * Square(1 + Square(s)), r)
  {
    var k := (s + s) * (1 + s * s);
    InvertIsInverse(k);
    EncodesIs(s, a);
    CurveEquation(a.x, a.y);
    DecodeVIs(s);
    MagicConstant();
    r := EncodedRoot(P, INVSQRT_A_MINUS_D, EDWARDS_D, a.x, a.y, s, DecodeV(s), Invert(k));
  }

  /** Every encoding in canonical form is accepted, and decoded to the point that it encodes. */
  lemma EncodingIsAccepted(c: Bytes32, a: CurvePoint)
    requires IsPrime(P) && c < P && Encodes(c, a)
    ensures RistrettoDecompress(c).Some? && Extends(RistrettoDecompress(c).value, a)
  {
    EncodesIs(c, a);
    CanonicalBytes(c);
    SmallRemainder(P, c);
    var r := EncodedInverseRoot(c, a);
    RistrettoDecompressIs(c);
    var ok, I := DecodeInverseRoot(DecodeV(c) * Square(1 + Square(c)));
    CoordinatesAreAccepted(c, a, I);
  }

  lemma AcceptedPoint(c: Bytes32) returns (a: CurvePoint)
    requires IsPrime(P) && RistrettoDecompress(c).Some?
    ensures c < P && Encodes(c, a) && Extends(RistrettoDecompress(c).value, a)
  {
    RistrettoDecompressIs(c);
    var s := FromBytes(c);
    var ok, I := DecodeInverseRoot(DecodeV(s) * Square(1 + Square(s)));
    CanonicalBytes(ToBytes(FromBytes(c)));
    a := DecodedPoint(FromBytes(c), I);
  }

  /** Decoding is exact: it accepts the canonical encodings of points and nothing else. */
  lemma RistrettoDecompressContract(c: Bytes32)
    requires IsPrime(P)
    ensures RistrettoDecompress(c).Some? <==> c < P && exists a: CurvePoint :: Encodes(c, a)
    ensures forall a: CurvePoint :: c < P && Encodes(c, a) ==>
              RistrettoDecompress(c).Some? && Extends(RistrettoDecompress(c).value, a)
  {
    if RistrettoDecompress(c).Some? {
      var a := AcceptedPoint(c);
    }
    forall a: CurvePoint | c < P && Encodes(c, a)
      ensures RistrettoDecompress(c).Some? && Extends(RistrettoDecompress(c).value, a)
    {
      EncodingIsAccepted(c, a);
    }
  }

  // Encoding.

  lemma EncodeZInv(p: int, Z: int, T: int, u1: int, u2: int, I: int, m: int)
    requires p > 0 && Cong(p, (u1 * (u2 * u2)) * (I * I), 1) && Cong(p, Z * T, u2) && Cong(p, T, m * Z)
    ensures var zInv := (I * u1) * ((I * u2) * T); Cong(p, Z * zInv, 1) && Cong(p, T * zInv, m)
  {
    var zInv := (I * u1) * ((I * u2) * T);
    var k := (I * I) * (u1 * u2);
    assert zInv == k * T by {
      Interchange(I, u1, I, u2);
      Reassociate(I * u1, I * u2, T);
    }
    assert Z * (k * T) == k * (Z * T);
    Mul(p, k, k, Z * T, u2);
    assert k * u2 == (u1 * (u2 * u2)) * (I * I);
    ClearInverse(p, T, m, Z, zInv);
  }

  /** With I a root of 1 / (u1 u2^2), the product I^2 u1 u2 T is the inverse of Z. */
  lemma EncodeScale(p: int, X: int, Y: int, Z: int, T: int, x: int, y: int, I: int)
    requires p > 0 && Cong(p, X, x * Z) && Cong(p, Y, y * Z) && Cong(p, T, (x * y) * Z)
    requires var u1, u2 := (Z + Y) * (Z - Y), X * Y; Cong(p, (u1 * (u2 * u2)) * (I * I), 1)
    ensures var u1, u2 := (Z + Y) * (Z - Y), X * Y;
            var zInv := (I * u1) * ((I * u2) * T);
            && Cong(p, u1, (Z * Z) * (1 - y * y)) && Cong(p, u2, (Z * Z) * (x * y))
            && Cong(p, Z * zInv, 1) && Cong(p, T * zInv, x * y)
  {
    var u1, u2, ZZ, m := (Z + Y) * (Z - Y), X * Y, Z * Z, x * y;
    Mul(p, Y, y * Z, Y, y * Z);
    Interchange(y, Z, y, Z);
    SquareDifference(Z, Y);
    assert (Z + Y) * (Z - Y) == ZZ - Y * Y;
    Add(p, ZZ, ZZ, Y * Y, (y * y) * ZZ);
    assert ZZ - (y * y) * ZZ == ZZ * (1 - y * y);
    Mul(p, X, x * Z, Y, y * Z);
    Interchange(x, Z, y, Z);
    assert m * ZZ == ZZ * m;
    Mul(p, Z, Z, T, m * Z);
    assert Z * (m * Z) == ZZ * m;
    EncodeZInv(p, Z, T, u1, u2, I, m);
  }

  /** Both denominators of encoding are roots of 1 / (1 - y^2), for the y of the point that is encoded. */
  lemma EncodeDenominator(p: int, Z: int, y: int, u1: int, u2: int, I: int)
    requires p > 0 && Cong(p, (u1 * (u2 * u2)) * (I * I), 1) && Cong(p, u1, (Z * Z) * (1 - y * y))
    ensures var D := (I * u2) * Z; Cong(p, (D * D) * (1 - y * y), 1)
  {
    var e := (I * I) * (u2 * u2);
    Interchange(I * u2, Z, I * u2, Z);
    Interchange(I, u2, I, u2);
    Reassociate(e, Z * Z, 1 - y * y);
    Mul(p, e, e, u1, (Z * Z) * (1 - y * y));
    assert e * u1 == (u1 * (u2 * u2)) * (I * I);
  }

  lemma FourSquares(I: int, u: int, m: int, Z: int)
    ensures var D := ((I * u) * m) * Z; D * D == ((I * I) * (u * u)) * ((m * m) * (Z * Z))
  {
    Interchange((I * u) * m, Z, (I * u) * m, Z);
    Interchange(I * u, m, I * u, m);
    Interchange(I, u, I, u);
    Reassociate((I * I) * (u * u), m * m, Z * Z);
  }

  lemma RotatedForm(I: int, u1: int, m: int, ZZ: int, a: int)
    ensures (((I * I) * (u1 * u1)) * ((m * m) * ZZ)) * (1 + a) == ((I * I) * u1) * (u1 * (((m * m) * ZZ) * (1 + a)))
  {
    var k, n := I * I, (m * m) * ZZ;
    assert (k * (u1 * u1)) * n == (k * u1) * (u1 * n);
    assert ((k * u1) * (u1 * n)) * (1 + a) == (k * u1) * ((u1 * n) * (1 + a));
    Reassociate(u1, n, 1 + a);
  }

  lemma RotatedUnit(p: int, I: int, m: int, Z: int, u1: int, u2: int, a: int, f: int)
    requires p > 0 && Cong(p, (u1 * (u2 * u2)) * (I * I), 1) && Cong(p, f, 1 + a)
    requires Cong(p, u1 * (((m * m) * (Z * Z)) * (1 + a)), u2 * u2)
    ensures var D := ((I * u1) * m) * Z; Cong(p, (D * D) * f, 1)
  {
    var D, k := ((I * u1) * m) * Z, (I * I) * u1;
    FourSquares(I, u1, m, Z);
    Mul(p, D * D, D * D, f, 1 + a);
    RotatedForm(I, u1, m, Z * Z, a);
    Mul(p, k, k, u1 * (((m * m) * (Z * Z)) * (1 + a)), u2 * u2);
    assert k * (u2 * u2) == (u1 * (u2 * u2)) * (I * I);
  }

  /** m^2 (1 - y^2)(1 + x^2) = x^2 y^2 */
  lemma RotatedProduct(p: int, d: int, m: int, a: int, b: int)
    requires p > 0 && Cong(p, (m * m) * (-1 - d), 1) && Cong(p, b - a, 1 + d * (a * b))
    ensures Cong(p, (m * m) * ((1 - b) * (1 + a)), a * b)
  {
    var t := a * b;
    assert (1 - b) * (1 + a) == 1 - (b - a) - t;
    Add(p, 1 - t, 1 - t, b - a, 1 + d * t);
    assert (1 - t) - (1 + d * t) == (-1 - d) * t;
    Mul(p, m * m, m * m, (1 - b) * (1 + a), (-1 - d) * t);
    Reassociate(m * m, -1 - d, t);
    Mul(p, (m * m) * (-1 - d), 1, t, t);
  }

  lemma RotatedSquare(p: int, ZZ: int, b: int, m: int, a: int, u1: int, u2: int, t: int, q: int)
    requires p > 0 && Cong(p, u1, ZZ * (1 - b)) && Cong(p, u2, ZZ * t)
    requires q == (m * m) * ((1 - b) * (1 + a)) && Cong(p, q, t * t)
    ensures Cong(p, u1 * (((m * m) * ZZ) * (1 + a)), u2 * u2)
  {
    var n := ((m * m) * ZZ) * (1 + a);
    Mul(p, u1, ZZ * (1 - b), n, n);
    assert (ZZ * (1 - b)) * n == (ZZ * ZZ) * q;
    Mul(p, ZZ * ZZ, ZZ * ZZ, q, t * t);
    Mul(p, u2, ZZ * t, u2, ZZ * t);
    Interchange(ZZ, t, ZZ, t);
  }

  lemma EncodeRotatedDenominator(p: int, i: int, d: int, m: int, Z: int, x: int, y: int, u1: int, u2: int, I: int)
    requires p > 0 && Cong(p, (u1 * (u2 * u2)) * (I * I), 1)
    requires Cong(p, u1, (Z * Z) * (1 - y * y)) && Cong(p, u2, (Z * Z) * (x * y))
    requires Cong(p, i * i, -1) && Cong(p, (m * m) * (-1 - d), 1)
    requires Cong(p, y * y - x * x, 1 + d * ((x * x) * (y * y)))
    ensures var D := ((I * u1) * m) * Z; Cong(p, (D * D) * (1 - (i * x) * (i * x)), 1)
  {
    var a, b, ZZ, f := x * x, y * y, Z * Z, 1 - (i * x) * (i * x);
    Interchange(i, x, i, x);
    Mul(p, i * i, -1, a, a);
    Add(p, 1, 1, (i * i) * a, -a);
    RotatedProduct(p, d, m, a, b);
    Interchange(x, y, x, y);
    RotatedSquare(p, ZZ, b, m, a, u1, u2, x * y, (m * m) * ((1 - b) * (1 + a)));
    RotatedUnit(p, I, m, Z, u1, u2, a, f);
  }

  /** The root that encoding computes. */
  lemma EncodedRootEquation(p: int, Z: int, den: int, Y: int, y: int)
    requires p > 0 && Cong(p, Y, y * Z) && Cong(p, ((den * Z) * (den * Z)) * (1 - y * y), 1)
    ensures var s := den * (Z - Y); Cong(p, (s * s) * (1 + y), 1 - y)
  {
    var s, D, k := den * (Z - Y), den * Z, 1 - y;
    Add(p, Z, Z, Y, y * Z);
    assert Z - y * Z == Z * k;
    Mul(p, den, den, Z - Y, Z * k);
    Reassociate(den, Z, k);
    Mul(p, s, D * k, s, D * k);
    Interchange(D, k, D, k);
    Mul(p, s * s, (D * D) * (k * k), 1 + y, 1 + y);
    assert (k * k) * (1 + y) == (1 - y * y) * k;
    Reassociate(D * D, k * k, 1 + y);
    Reassociate(D * D, 1 - y * y, k);
    Mul(p, (D * D) * (1 - y * y), 1, k, k);
  }

  /** The point of the coset that encoding works with, before the choice of a sign. */
  function Position(a: CurvePoint, rotate: bool): Affine {
    if rotate then Rotated(a) else a
  }

  predicate IsInverseRoot(p: EdwardsPoint, I: FieldElement) {
    Eq((((p.Z + p.Y) * (p.Z - p.Y)) * ((p.X * p.Y) * (p.X * p.Y))) * (I * I), 1)
  }

  lemma ScaledBy(p: int, i: int, X: int, x: int, z: int)
    requires p > 0 && Cong(p, X, x * z)
    ensures Cong(p, X * i, (i * x) * z)
  {
    Mul(p, X, x * z, i, i);
    assert (x * z) * i == (i * x) * z;
  }

  /** The scaled quantities of encoding. */
  lemma EncodeQuantities(p: EdwardsPoint, a: CurvePoint, I: FieldElement)
    requires IsPrime(P) && Extends(p, a) && IsInverseRoot(p, I)
    ensures var u1, u2 := (p.Z + p.Y) * (p.Z - p.Y), p.X * p.Y;
            var zInv := (I * u1) * ((I * u2) * p.T);
            var rotate := IsNegative(a.x * a.y);
            var b := Position(a, rotate);
            var X, Y := if rotate then p.Y * SQRT_M1 else p.X, if rotate then p.X * SQRT_M1 else p.Y;
            var D := (if rotate then (I * u1) * INVSQRT_A_MINUS_D else I * u2) * p.Z;
            && IsNegative(p.T * zInv) == rotate && Eq(X * zInv, b.x) && Eq(Y, b.y * p.Z)
            && Eq((D * D) * (1 - b.y * b.y), 1)
  {
    var u1, u2, i := (p.Z + p.Y) * (p.Z - p.Y), p.X * p.Y, SQRT_M1;
    var zInv := (I * u1) * ((I * u2) * p.T);
    ExtendsForm(p, a);
    EncodeScale(P, p.X, p.Y, p.Z, p.T, a.x, a.y, I);
    ScaledBy(P, i, p.Y, a.y, p.Z);
    ScaledBy(P, i, p.X, a.x, p.Z);
    if IsNegative(a.x * a.y) {
      RotatedIs(a);
      Constants();
      MagicConstant();
      CurveEquation(a.x, a.y);
      EncodeRotatedDenominator(P, i, EDWARDS_D, INVSQRT_A_MINUS_D, p.Z, a.x, a.y, u1, u2, I);
      ClearInverse(P, p.Y * i, i * a.y, p.Z, zInv);
    } else {
      EncodeDenominator(P, p.Z, a.y, u1, u2, I);
      ClearInverse(P, p.X, a.x, p.Z, zInv);
    }
  }

  lemma EncodeParts(p: EdwardsPoint, I: FieldElement, rotate: bool, negate: bool)
    returns (den: FieldElement, Y: FieldElement)
    requires var u1, u2 := (p.Z + p.Y) * (p.Z - p.Y), p.X * p.Y;
             var zInv := (I * u1) * ((I * u2) * p.T);
             var X := if rotate then p.Y * SQRT_M1 else p.X;
             rotate == IsNegative(p.T * zInv) && negate == IsNegative(X * zInv)
    ensures den == if rotate then (I * ((p.Z + p.Y) * (p.Z - p.Y))) * INVSQRT_A_MINUS_D else I * (p.X * p.Y)
    ensures Y == if rotate then p.X * SQRT_M1 else p.Y
    ensures var s := den * (p.Z - ConditionalNegate(Y, negate)); EncodeWith(p, I) == ConditionalNegate(s, IsNegative(s))
  {
    den := if rotate then (I * ((p.Z + p.Y) * (p.Z - p.Y))) * INVSQRT_A_MINUS_D else I * (p.X * p.Y);
    Y := if rotate then p.X * SQRT_M1 else p.Y;
  }

  lemma EncodeEquation(Z: FieldElement, den: FieldElement, Y: FieldElement, y: FieldElement, negate: bool)
    requires Eq(Y, y * Z) && Eq(((den * Z) * (den * Z)) * (1 - y * y), 1)
    ensures var y', s := ConditionalNegate(y, negate), den * (Z - ConditionalNegate(Y, negate));
            var s' := ConditionalNegate(s, IsNegative(s));
            Eq((s' * s') * (1 + y'), 1 - y')
  {
    var y', Y' := ConditionalNegate(y, negate), ConditionalNegate(Y, negate);
    var s := den * (Z - Y');
    Add(P, 0, 0, Y, y * Z);
    assert (-y) * Z == -(y * Z) && (-y) * (-y) == y * y;
    EncodedRootEquation(P, Z, den, Y', y');
    AbsoluteValue(s);
  }

  lemma RotatedArea(p: int, i: int, x: int, y: int)
    requires p > 0 && Cong(p, i * i, -1)
    ensures Cong(p, (i * y) * (i * x), -(x * y))
  {
    Interchange(i, y, i, x);
    Mul(p, i * i, -1, y * x, y * x);
    assert -1 * (y * x) == -(x * y);
  }

  lemma PositionFacts(a: CurvePoint, rotate: bool)
    requires IsPrime(P) && !Eq(a.x, 0) && !Eq(a.y, 0) && rotate == IsNegative(a.x * a.y)
    ensures var c := Position(a, rotate); OnCurve(c.x, c.y) && !Eq(c.x, 0) && !Eq(c.y, 0) && !IsNegative(c.x * c.y)
  {
    if rotate {
      RotatedIs(a);
      var i := SQRT_M1;
      Constants();
      ShiftOnCurve(a.x, a.y);
      Product(P, i, a.x);
      Product(P, i, a.y);
      Product(P, a.x, a.y);
      SignOfNegation(a.x * a.y);
      RotatedArea(P, i, a.x, a.y);
    }
  }

  lemma SignFacts(c: Affine, negate: bool)
    requires IsPrime(P) && OnCurve(c.x, c.y) && !Eq(c.x, 0) && !Eq(c.y, 0) && !IsNegative(c.x * c.y)
             && negate == IsNegative(c.x)
    ensures var x, y := ConditionalNegate(c.x, negate), ConditionalNegate(c.y, negate);
            OnCurve(x, y) && !IsNegative(x) && !IsNegative(x * y) && !Eq(y, 0)
  {
    SignOfNegation(c.x);
    CurveEquation(c.x, c.y);
    CurveEquation(-c.x, -c.y);
    assert (-c.x) * (-c.x) == c.x * c.x && (-c.y) * (-c.y) == c.y * c.y && (-c.x) * (-c.y) == c.x * c.y;
    Negation(c.y);
  }

  /** The normal position of a point in its coset. */
  lemma Normalised(a: CurvePoint, rotate: bool, negate: bool) returns (b: CurvePoint)
    requires IsPrime(P) && !Eq(a.x, 0) && !Eq(a.y, 0)
    requires rotate == IsNegative(a.x * a.y) && negate == IsNegative(Position(a, rotate).x)
    ensures Eq(b.y, ConditionalNegate(Position(a, rotate).y, negate))
    ensures !IsNegative(b.x) && !IsNegative(b.x * b.y) && b.y != 0 && IsShift(a, b)
  {
    var c := Position(a, rotate);
    RotatedIs(a);
    PositionFacts(a, rotate);
    SignFacts(c, negate);
    b := Reduced(ConditionalNegate(c.x, negate), ConditionalNegate(c.y, negate));
  }

  /** Where x and y are not zero, encoding normalises the point within its coset and encodes it. */
  lemma EncodeGivesEncoding(p: EdwardsPoint, a: CurvePoint, I: FieldElement) returns (b: CurvePoint)
    requires IsPrime(P) && Extends(p, a) && IsInverseRoot(p, I) && !Eq(a.x, 0) && !Eq(a.y, 0)
    ensures Encodes(EncodeWith(p, I), b) && IsShift(a, b)
  {
    EncodeQuantities(p, a, I);
    var rotate := IsNegative(a.x * a.y);
    var c := Position(a, rotate);
    var negate := IsNegative(c.x);
    b := Normalised(a, rotate, negate);
    var den, Y := EncodeParts(p, I, rotate, negate);
    EncodeEquation(p.Z, den, Y, c.y, negate);
    var y := ConditionalNegate(c.y, negate);
    var s := EncodeWith(p, I);
    Add(P, 1, 1, b.y, y);
    Mul(P, s * s, s * s, 1 + b.y, 1 + y);
    EncodesIs(s, b);
  }
}
