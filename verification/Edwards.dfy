/** Points of the curve -x^2 + y^2 = 1 + d x^2 y^2 in extended coordinates, and their encoding. */
module Edwards {
  import opened Congruence
  import opened Primes
  import opened SquareRoots
  import opened Field
  import opened EdwardsLaw
  import opened Options

  const TOP_BIT: nat := 0x8000000000000000000000000000000000000000000000000000000000000000

  /** A 32-byte string, as the little-endian integer below 2^256 that it spells. */
  type Bytes32 = c: nat | c < 2 * TOP_BIT witness 0

  datatype EdwardsPoint = EdwardsPoint(X: FieldElement, Y: FieldElement, Z: FieldElement, T: FieldElement)

  const IDENTITY: EdwardsPoint := EdwardsPoint(0, 1, 1, 0)

  /** The curve equation for affine coordinates. */
  predicate OnCurve(x: FieldElement, y: FieldElement) {
    OnEdwardsAt(P, EDWARDS_D, x, y, 3)
  }

  lemma CurveEquation(x: FieldElement, y: FieldElement)
    ensures OnCurve(x, y) <==> Eq(y * y - x * x, 1 + EDWARDS_D * ((x * x) * (y * y)))
  {
    Unfolded(P, EDWARDS_D, x, y);
  }

  predicate IsValidAt(p: EdwardsPoint, k: nat)
    decreases p, k
  {
    if k > 0 then IsValidAt(p, k - 1)
    else
      && !Eq(p.Z, 0)
      && Eq((p.Y * p.Y - p.X * p.X) * (p.Z * p.Z),
            (p.Z * p.Z) * (p.Z * p.Z) + EDWARDS_D * ((p.X * p.X) * (p.Y * p.Y)))
      && Eq(p.X * p.Y, p.Z * p.T)
  }

  /** The validity check of the program, with the nonzero Z that every representative has. */
  predicate IsValid(p: EdwardsPoint) {
    IsValidAt(p, 3)
  }

  lemma ValidForm(p: EdwardsPoint)
    ensures IsValid(p) <==>
              && !Eq(p.Z, 0)
              && Eq((p.Y * p.Y - p.X * p.X) * (p.Z * p.Z),
                    (p.Z * p.Z) * (p.Z * p.Z) + EDWARDS_D * ((p.X * p.X) * (p.Y * p.Y)))
              && Eq(p.X * p.Y, p.Z * p.T)
  {
    assert IsValidAt(p, 1) == IsValidAt(p, 0);
    assert IsValidAt(p, 2) == IsValidAt(p, 1);
  }

  predicate CtEq(p: EdwardsPoint, q: EdwardsPoint) {
    Eq(p.X * q.Z, q.X * p.Z) && Eq(p.Y * q.Z, q.Y * p.Z)
  }

  predicate TopBit(c: Bytes32) {
    c >= TOP_BIT
  }

  /** Field elements are read from the low 255 bits. */
  function FromBytes(c: Bytes32): FieldElement {
    if TopBit(c) then c - TOP_BIT else c
  }

  /** Exclusive or of the top bit of the last byte. */
  function XorTopBit(c: Bytes32, bit: bool): Bytes32 {
    if !bit then c else if c < TOP_BIT then c + TOP_BIT else c - TOP_BIT
  }

  function Compress(p: EdwardsPoint): Bytes32 {
    var recip := Invert(p.Z);
    var x := p.X * recip;
    var y := p.Y * recip;
    XorTopBit(ToBytes(y), IsNegative(x))
  }

  /** Decompression, with a counter as in Congruence.RemainderAt. */
  function DecompressAt(c: Bytes32, k: nat): Option<EdwardsPoint>
    decreases c, k
  {
    if k > 0 then DecompressAt(c, k - 1)
    else
      var y := FromBytes(c);
      var yy := Square(y);
      var u := yy - 1;
      var v := yy * EDWARDS_D + 1;
      var (isValidYCoord, r) := SqrtRatioI(u, v);
      if !isValidYCoord then None
      else
        var x := ConditionalNegate(r, TopBit(c));
        Some(EdwardsPoint(x, y, 1, x * y))
  }

  function Decompress(c: Bytes32): Option<EdwardsPoint> {
    DecompressAt(c, 3)
  }

  lemma DecompressIs(c: Bytes32)
    ensures var y := FromBytes(c);
            var (ok, r) := SqrtRatioI(y * y - 1, (y * y) * EDWARDS_D + 1);
            var x := ConditionalNegate(r, TopBit(c));
            Decompress(c) == if ok then Some(EdwardsPoint(x, y, 1, x * y)) else None
  {
    assert DecompressAt(c, 1) == DecompressAt(c, 0);
    assert DecompressAt(c, 2) == DecompressAt(c, 1);
  }

  /** A root of 2 * 121665 * 121666 modulo p. */
  const ROOT_OF_PRODUCT: int := 0x26c7b1d1d8aef777e97c7e017bcc13360167701cdf7e14506a5ce799d5416d6a

  lemma RootOfProduct()
    ensures Eq(ROOT_OF_PRODUCT * ROOT_OF_PRODUCT, 2 * (121665 * 121666)) && !Eq(121665 * 121666, 0)
  {
    CongIs(P, ROOT_OF_PRODUCT * ROOT_OF_PRODUCT, 2 * (121665 * 121666));
    NotZero(P, 121665 * 121666);
  }

  lemma RootOfNegative(p: int, i: int, s: int, d: int, a: int, b: int)
    requires p > 0 && Cong(p, i * i, -1) && Cong(p, s * s, d) && Cong(p, d * a, -b)
    ensures var u := (i * s) * a; Cong(p, u * u, b * a)
  {
    Interchange(i * s, a, i * s, a);
    Interchange(i, s, i, s);
    Mul(p, i * i, -1, s * s, d);
    Mul(p, (i * i) * (s * s), -d, a * a, a * a);
    Mul(p, d * a, -b, -a, -a);
    assert -d * (a * a) == (d * a) * -a && -b * -a == b * a;
  }

  lemma QuotientOfRoots(p: int, r: int, u: int, n: int, m: int)
    requires p > 0 && Cong(p, r * r, 2 * m) && Cong(p, u * u, m) && Cong(p, u * n, 1)
    ensures Cong(p, (r * n) * (r * n), 2)
  {
    Interchange(r, n, r, n);
    Interchange(u, n, u, n);
    Mul(p, u * n, 1, u * n, 1);
    Mul(p, r * r, 2 * m, n * n, n * n);
    Mul(p, u * u, m, n * n, n * n);
    Mul(p, 2, 2, m * (n * n), 1);
    assert (2 * m) * (n * n) == 2 * (m * (n * n));
  }

  /** If 2 a b has a root, -b / a has none. */
  lemma RatioHasNoRoot(p: int, e: nat, i: int, r: int, d: int, a: int, b: int, s: int, n: int)
    requires IsPrime(p) && p == 8 * e + 5 && Cong(p, i * i, -1) && Cong(p, d * a, -b)
    requires Cong(p, r * r, 2 * (b * a)) && !Cong(p, b * a, 0)
    requires var u := (i * s) * a; Cong(p, u, 0) || Cong(p, u * n, 1)
    ensures !Cong(p, s * s, d)
  {
    if Cong(p, s * s, d) {
      var u := (i * s) * a;
      RootOfNegative(p, i, s, d, a, b);
      Product(p, u, u);
      QuotientOfRoots(p, r, u, n, b * a);
      TwoHasNoRoot(p, e, i, r * n);
    }
  }

  /** The curve constant d = -121665 / 121666 has no root; with this the curve equation determines x up to sign. */
  lemma DHasNoRoot(s: FieldElement)
    requires IsPrime(P)
    ensures !Eq(s * s, EDWARDS_D)
  {
    var u := (SQRT_M1 * s) * 121666;
    Constants();
    RootOfProduct();
    InvertIsInverse(u);
    RatioHasNoRoot(P, (P - 5) / 8, SQRT_M1, ROOT_OF_PRODUCT, EDWARDS_D, 121666, 121665, s, Invert(u));
  }

  /** The curve meets the conditions of the addition law. */
  lemma CurveHasLaw()
    requires IsPrime(P)
    ensures HasLaw(P, EDWARDS_D)
  {
    Constants();
    assert Root(P, -1, 1, SQRT_M1);
    forall s
      ensures !Root(P, EDWARDS_D, 1, s)
    {
      DHasNoRoot(s);
    }
  }

  /** The denominator d y^2 + 1 never vanishes. */
  lemma DenominatorNonZero(y: FieldElement)
    requires IsPrime(P)
    ensures !Eq((y * y) * EDWARDS_D + 1, 0)
  {
    CurveHasLaw();
    LawDenominator(P, EDWARDS_D, y);
  }

  /** A point of the curve is a root of the ratio that decompression takes. */
  lemma CurveAsRatio(x: FieldElement, y: FieldElement)
    ensures OnCurve(x, y) <==> Root(P, y * y - 1, (y * y) * EDWARDS_D + 1, x)
  {
    var a, b := x * x, y * y;
    CurveEquation(x, y);
    Difference(P, b - a, 1 + EDWARDS_D * (a * b));
    Difference(P, (b * EDWARDS_D + 1) * a, b - 1);
    var h := (b * EDWARDS_D + 1) * a - (b - 1);
    assert h == -((b - a) - (1 + EDWARDS_D * (a * b)));
    if Eq(h, 0) {
      Combine(P, -1, h, 0, 0);
    } else if Eq(-h, 0) {
      Combine(P, -1, -h, 0, 0);
    }
  }

  lemma OnCurveCong(x: FieldElement, y: FieldElement, x': FieldElement, y': FieldElement)
    requires Eq(x, x') && Eq(y, y') && OnCurve(x, y)
    ensures OnCurve(x', y')
  {
    CurveEquation(x, y);
    CurveEquation(x', y');
    OnEdwardsCong(P, EDWARDS_D, x, y, x', y');
  }

  lemma TimesInverse(p: int, x: int, z: int, n: int)
    requires p > 0 && Cong(p, z * n, 1)
    ensures Cong(p, (x * n) * z, x)
  {
    Mul(p, x, x, z * n, 1);
    assert (x * n) * z == x * (z * n);
  }

  lemma ScaledEquation(p: int, d: int, a: int, b: int, zz: int, m: int)
    requires p > 0 && Cong(p, zz * m, 1) && Cong(p, (b - a) * zz, zz * zz + d * (a * b))
    ensures Cong(p, b * m - a * m, 1 + d * ((a * m) * (b * m)))
  {
    var e, mm := zz * m, m * m;
    Mul(p, (b - a) * zz, zz * zz + d * (a * b), mm, mm);
    assert ((b - a) * zz) * mm == ((b - a) * m) * e;
    Interchange(zz, m, zz, m);
    assert (zz * zz + d * (a * b)) * mm == (zz * zz) * mm + (d * (a * b)) * mm;
    Mul(p, (b - a) * m, (b - a) * m, e, 1);
    Mul(p, e, 1, e, 1);
    Add(p, e * e, 1, (d * (a * b)) * mm, (d * (a * b)) * mm);
    Interchange(a, m, b, m);
    assert (d * (a * b)) * mm == d * ((a * b) * mm);
    assert (b - a) * m == b * m - a * m;
  }

  lemma AffineEquation(p: int, d: int, X: int, Y: int, z: int, n: int)
    requires p > 0 && Cong(p, z * n, 1)
    requires Cong(p, (Y * Y - X * X) * (z * z), (z * z) * (z * z) + d * ((X * X) * (Y * Y)))
    ensures var x, y := X * n, Y * n; Cong(p, y * y - x * x, 1 + d * ((x * x) * (y * y)))
  {
    Mul(p, z * n, 1, z * n, 1);
    Interchange(z, n, z, n);
    Interchange(X, n, X, n);
    Interchange(Y, n, Y, n);
    ScaledEquation(p, d, X * X, Y * Y, z * z, n * n);
  }

  /** The affine coordinates of a valid representative lie on the curve. */
  lemma Affine(p: EdwardsPoint)
    requires IsPrime(P) && IsValid(p)
    ensures var n := Invert(p.Z);
            OnCurve(p.X * n, p.Y * n) && Eq((p.X * n) * p.Z, p.X) && Eq((p.Y * n) * p.Z, p.Y)
  {
    ValidForm(p);
    InvertIsInverse(p.Z);
    TimesInverse(P, p.X, p.Z, Invert(p.Z));
    TimesInverse(P, p.Y, p.Z, Invert(p.Z));
    AffineEquation(P, EDWARDS_D, p.X, p.Y, p.Z, Invert(p.Z));
    CurveEquation(p.X * Invert(p.Z), p.Y * Invert(p.Z));
  }

  lemma SignedRoot(r: FieldElement, y: FieldElement, sign: bool)
    requires IsPrime(P) && Root(P, y * y - 1, (y * y) * EDWARDS_D + 1, r) && !IsNegative(r)
    ensures var x := ConditionalNegate(r, sign);
            && IsValid(EdwardsPoint(x, y, 1, x * y)) && OnCurve(x, y)
            && (!Eq(x, 0) ==> IsNegative(x) == sign)
  {
    var x := ConditionalNegate(r, sign);
    assert x * x == r * r;
    CurveAsRatio(x, y);
    CurveEquation(x, y);
    SmallUnits(P);
    ValidForm(EdwardsPoint(x, y, 1, x * y));
    SignOfNegation(r);
    Negation(r);
  }

  /**
    Decompression returns a point exactly when the encoded y belongs to a point of the curve; the
    point is valid, has that y, and its x has the encoded sign unless x is zero.
  */
  lemma DecompressContract(c: Bytes32)
    requires IsPrime(P)
    ensures Decompress(c).None? <==> forall x :: !OnCurve(x, FromBytes(c))
    ensures match Decompress(c)
            case None => true
            case Some(q) =>
              && IsValid(q) && q.Z == 1 && q.Y == FromBytes(c) && OnCurve(q.X, q.Y)
              && (!Eq(q.X, 0) ==> IsNegative(q.X) == TopBit(c))
  {
    var y := FromBytes(c);
    var u, v := y * y - 1, (y * y) * EDWARDS_D + 1;
    var (ok, r) := SqrtRatioI(u, v);
    SqrtRatioIContract(u, v);
    DecompressIs(c);
    if ok {
      SignedRoot(r, y, TopBit(c));
    } else {
      forall x
        ensures !OnCurve(x, y)
      {
        CurveAsRatio(x, y);
      }
    }
  }

  /** Every point survives compression, whatever its representative (section 5.1.2 of RFC 8032). */
  lemma CompressRoundTrip(p: EdwardsPoint)
    requires IsPrime(P) && IsValid(p)
    ensures var q := Decompress(Compress(p)); q.Some? && IsValid(q.value) && CtEq(q.value, p)
  {
    var n := Invert(p.Z);
    var x, y := p.X * n, p.Y * n;
    var c := Compress(p);
    Affine(p);
    Residue(P, y);
    var y' := FromBytes(c);
    assert y' == ToBytes(y) && TopBit(c) == IsNegative(x);
    OnCurveCong(x, y, x, y');
    DecompressContract(c);
    var q := Decompress(c).value;
    CurveAsRatio(x, y');
    CurveAsRatio(q.X, y');
    DenominatorNonZero(y');
    RootIsUnique(y' * y' - 1, (y' * y') * EDWARDS_D + 1, q.X, x);
    SignOfNegation(x);
    Negation(x);
    assert Eq(q.X, x);
    Mul(P, q.X, x, p.Z, p.Z);
    Mul(P, y', y, p.Z, p.Z);
  }

  /** Equality of fractions is transitive through a nonzero denominator. */
  lemma CrossMultiply(a: FieldElement, b: FieldElement, c: FieldElement, d: FieldElement, e: FieldElement,
                      f: FieldElement)
    requires IsPrime(P) && !Eq(d, 0) && Eq(a * d, c * b) && Eq(c * f, e * d)
    ensures Eq(a * f, e * b)
  {
    Mul(P, a * d, c * b, f, f);
    Mul(P, c * f, e * d, b, b);
    assert (a * d) * f == d * (a * f) && (c * b) * f == (c * f) * b && (e * d) * b == d * (e * b);
    Cancel(P, d, a * f, e * b);
  }

  lemma CtEqTransitive(p: EdwardsPoint, q: EdwardsPoint, r: EdwardsPoint)
    requires IsPrime(P) && !Eq(q.Z, 0) && CtEq(p, q) && CtEq(q, r)
    ensures CtEq(p, r)
  {
    CrossMultiply(p.X, p.Z, q.X, q.Z, r.X, r.Z);
    CrossMultiply(p.Y, p.Z, q.Y, q.Z, r.Y, r.Z);
  }

  lemma CommonPoint(r: EdwardsPoint, p: EdwardsPoint, q: EdwardsPoint)
    requires IsPrime(P) && IsValid(r) && CtEq(r, p) && CtEq(r, q)
    ensures CtEq(p, q)
  {
    ValidForm(r);
    CtEqTransitive(p, r, q);
  }

  lemma SameEncoding(p: EdwardsPoint, q: EdwardsPoint)
    requires IsPrime(P) && IsValid(p) && IsValid(q) && Compress(p) == Compress(q)
    ensures CtEq(p, q)
  {
    CompressRoundTrip(p);
    CompressRoundTrip(q);
    CommonPoint(Decompress(Compress(p)).value, p, q);
  }

  lemma SameAffine(a: FieldElement, b: FieldElement, c: FieldElement, d: FieldElement)
    requires IsPrime(P) && !Eq(b, 0) && !Eq(d, 0) && Eq(a * d, c * b)
    ensures Eq(a * Invert(b), c * Invert(d))
  {
    var m, n := Invert(b), Invert(d);
    InvertIsInverse(b);
    InvertIsInverse(d);
    Mul(P, a * d, c * b, m * n, m * n);
    Mul(P, a * m, a * m, d * n, 1);
    Mul(P, c * n, c * n, b * m, 1);
    Interchange(a, d, m, n);
    Interchange(c, b, n, m);
    assert m * n == n * m;
  }

  lemma SameCompression(p: EdwardsPoint, q: EdwardsPoint)
    requires IsPrime(P) && IsValid(p) && IsValid(q) && CtEq(p, q)
    ensures Compress(p) == Compress(q)
  {
    ValidForm(p);
    ValidForm(q);
    SameAffine(p.X, p.Z, q.X, q.Z);
    SameAffine(p.Y, p.Z, q.Y, q.Z);
  }

  /** Two valid representatives have the same encoding exactly when they are the same point. */
  lemma CompressDecidesEquality(p: EdwardsPoint, q: EdwardsPoint)
    requires IsPrime(P) && IsValid(p) && IsValid(q)
    ensures Compress(p) == Compress(q) <==> CtEq(p, q)
  {
    if Compress(p) == Compress(q) {
      SameEncoding(p, q);
    } else if CtEq(p, q) {
      SameCompression(p, q);
    }
  }
}
