/** The Ristretto encoding and decoding are mutually inverse, and the encoding decides equality. */
module RistrettoRoundTrip {
  import opened Congruence
  import opened Primes
  import opened SquareRoots
  import opened Field
  import opened Edwards
  import opened EdwardsGroup
  import opened CurveModels
  import opened ScalarMul
  import opened MontgomeryAlgebra
  import opened Montgomery
  import opened RistrettoEquality
  import opened Ristretto
  import opened RistrettoNorm

  lemma EncodedHasSquareNorm(s: FieldElement, a: CurvePoint)
    requires Encodes(s, a)
    ensures HasSquareNorm(a)
  {
    var k := 1 + a.y;
    EncodesIs(s, a);
    Mul(P, (s * s) * k, 1 - a.y, k, k);
    Interchange(s, k, s, k);
    Reassociate(s * s, k, k);
    SquareDifference(1, a.y);
    assert Eq((s * k) * (s * k), 1 - a.y * a.y);
  }

  // The encoding of a point with square norm.

  lemma InverseOf(x: FieldElement) returns (n: FieldElement)
    requires IsPrime(P) && !Eq(x, 0)
    ensures Eq(x * n, 1)
  {
    n := Invert(x);
    InvertIsInverse(x);
  }

  lemma NormScaled(p: int, X: int, Y: int, Z: int, x: int, y: int, r: int)
    requires p > 0 && Cong(p, Y, y * Z) && Cong(p, r * r, 1 - y * y)
    ensures Cong(p, (Z + Y) * (Z - Y), (Z * r) * (Z * r))
  {
    Mul(p, Y, y * Z, Y, y * Z);
    Interchange(y, Z, y, Z);
    assert (Z + Y) * (Z - Y) == Z * Z - Y * Y;
    Add(p, Z * Z, Z * Z, Y * Y, (y * y) * (Z * Z));
    assert Z * Z - (y * y) * (Z * Z) == (Z * Z) * (1 - y * y);
    Mul(p, Z * Z, Z * Z, r * r, 1 - y * y);
    Interchange(Z, r, Z, r);
  }

  lemma SquareOfProduct(p: int, u: int, g: int, h: int, n: int)
    requires p > 0 && Cong(p, u, g * g) && Cong(p, (g * h) * n, 1)
    ensures Cong(p, (u * (h * h)) * (n * n), 1)
  {
    var k := (h * h) * (n * n);
    Mul(p, u, g * g, k, k);
    Reassociate(u, h * h, n * n);
    Reassociate(g * g, h * h, n * n);
    Interchange(g, h, g, h);
    Interchange(g * h, n, g * h, n);
    Mul(p, (g * h) * n, 1, (g * h) * n, 1);
  }

  lemma InverseRoot(p: EdwardsPoint, a: CurvePoint, r: FieldElement) returns (n: FieldElement)
    requires IsPrime(P) && Extends(p, a) && Eq(r * r, 1 - a.y * a.y) && !Eq(a.x, 0) && !Eq(a.y, 0)
    ensures Eq((((p.Z + p.Y) * (p.Z - p.Y)) * ((p.X * p.Y) * (p.X * p.Y))) * (n * n), 1)
  {
    var u1, u2 := (p.Z + p.Y) * (p.Z - p.Y), p.X * p.Y;
    ExtendsForm(p, a);
    NormScaled(P, p.X, p.Y, p.Z, a.x, a.y, r);
    if Eq(r, 0) {
      Product(P, r, r);
      Difference(P, 1, a.y * a.y);
      ZeroX(a.x, a.y);
    }
    Product(P, p.Z, r);
    Product(P, p.Z, a.x);
    Product(P, p.Z, a.y);
    Product(P, p.X, p.Y);
    assert p.Z * a.x == a.x * p.Z && p.Z * a.y == a.y * p.Z;
    Product(P, p.Z * r, u2);
    n := InverseOf((p.Z * r) * u2);
    SquareOfProduct(P, u1, p.Z * r, u2, n);
  }

  /** The root that encoding takes exists. */
  lemma EncodingRoot(p: EdwardsPoint, a: CurvePoint) returns (I: FieldElement)
    requires IsPrime(P) && Extends(p, a) && HasSquareNorm(a) && !Eq(a.x, 0) && !Eq(a.y, 0)
    ensures IsInverseRoot(p, I)
    ensures RistrettoCompress(p) == ToBytes(EncodeWith(p, I))
  {
    var r :| Eq(r * r, 1 - a.y * a.y);
    var u1, u2 := (p.Z + p.Y) * (p.Z - p.Y), p.X * p.Y;
    var w := u1 * (u2 * u2);
    var n := InverseRoot(p, a, r);
    SqrtRatioIContract(1, w);
    RistrettoCompressIs(p);
    assert Root(P, 1, w, n);
    var (ok, I') := InvSqrt(w);
    I := I';
  }

  lemma ZeroRoot(p: EdwardsPoint, I: FieldElement)
    requires IsPrime(P) && Eq(I, 0)
    ensures ToBytes(EncodeWith(p, I)) == 0
  {
    var u1, u2 := (p.Z + p.Y) * (p.Z - p.Y), p.X * p.Y;
    var i1, i2 := I * u1, I * u2;
    Product(P, I, u1);
    Product(P, I, u2);
    var zInv := i1 * (i2 * p.T);
    Product(P, i1, i2 * p.T);
    Product(P, p.T, zInv);
    var X := p.X;
    Product(P, X, zInv);
    Product(P, i2, p.Z - p.Y);
  }

  /** Where x or y is zero, the encoding is that of the identity. */
  lemma DegenerateEncoding(p: EdwardsPoint, a: CurvePoint)
    requires IsPrime(P) && Extends(p, a) && (Eq(a.x, 0) || Eq(a.y, 0))
    ensures RistrettoCompress(p) == 0
  {
    var u1, u2 := (p.Z + p.Y) * (p.Z - p.Y), p.X * p.Y;
    ExtendsForm(p, a);
    Product(P, a.x, p.Z);
    Product(P, a.y, p.Z);
    Product(P, p.X, p.Y);
    Product(P, u2, u2);
    var w := u1 * (u2 * u2);
    Product(P, u1, u2 * u2);
    SqrtRatioIContract(1, w);
    RistrettoCompressIs(p);
    var (ok, I) := InvSqrt(w);
    if ok {
      Product(P, w, I * I);
    }
    ZeroRoot(p, I);
  }

  lemma ReducedEncoding(s: FieldElement, b: CurvePoint)
    requires Encodes(s, b)
    ensures Encodes(ToBytes(s), b)
  {
    EncodesIs(s, b);
    EncodesIs(ToBytes(s), b);
    Residue(P, s);
    Mul(P, ToBytes(s), s, ToBytes(s), s);
    Mul(P, ToBytes(s) * ToBytes(s), s * s, 1 + b.y, 1 + b.y);
  }

  /** Encoding gives the encoding of a point of the same coset. */
  lemma RistrettoCompressContract(p: EdwardsPoint, a: CurvePoint) returns (b: CurvePoint)
    requires IsPrime(P) && Extends(p, a) && HasSquareNorm(a)
    ensures Encodes(RistrettoCompress(p), b) && AffineEq(a, b)
  {
    if Eq(a.x, 0) || Eq(a.y, 0) {
      DegenerateEncoding(p, a);
      b := ZERO;
      assert a.x * b.y == a.x && a.y * b.x == 0 && a.x * b.x == 0 && a.y * b.y == a.y;
    } else {
      var I := EncodingRoot(p, a);
      b := EncodeGivesEncoding(p, a, I);
      ShiftIsEq(a, b);
      ReducedEncoding(EncodeWith(p, I), b);
    }
  }

  // A coset has one point in normal position, and one encoding.

  lemma ZeroXEncoding(s: FieldElement, a: CurvePoint)
    requires IsPrime(P) && Encodes(s, a) && Eq(a.x, 0)
    ensures a == ZERO
  {
    EncodesIs(s, a);
    XZero(a);
    EncodedRatios(P, s * s, a.y);
  }

  lemma RotatedNegates(p: int, i: int, sg: int, x: int, y: int, x': int, y': int)
    requires p > 0 && (sg == 1 || sg == -1) && Cong(p, i * i, -1) && Cong(p, x', sg * (i * y))
             && Cong(p, y', sg * (i * x))
    ensures Cong(p, x' * y', -(x * y))
  {
    Mul(p, x', sg * (i * y), y', sg * (i * x));
    Interchange(sg, i * y, sg, i * x);
    assert sg * sg == 1;
    RotatedArea(p, i, x, y);
  }

  lemma ZeroSign(sg: int, a: CurvePoint, b: CurvePoint)
    requires IsPrime(P) && Eq(b.y, sg * (SQRT_M1 * a.x)) && b.y != 0 && a.y != 0
    ensures !Eq(a.x * a.y, 0)
  {
    Constants();
    Product(P, SQRT_M1, a.x);
    Product(P, sg, SQRT_M1 * a.x);
    Product(P, a.x, a.y);
    if Eq(b.y, 0) {
      Canonical(b.y, 0);
    }
    if Eq(a.y, 0) {
      Canonical(a.y, 0);
    }
  }

  lemma NotRotated(a: CurvePoint, b: CurvePoint)
    requires IsPrime(P) && IsShift(a, b) && a.y != 0 && b.y != 0
    requires !IsNegative(a.x * a.y) && !IsNegative(b.x * b.y)
    ensures Same(b, a) || Same(b, Opposite(a))
  {
    if !Same(b, a) && !Same(b, Opposite(a)) {
      RotatedIs(a);
      var sg := if Same(b, Rotated(a)) then 1 else -1;
      Constants();
      RotatedNegates(P, SQRT_M1, sg, a.x, a.y, b.x, b.y);
      ZeroSign(sg, a, b);
      SignOfNegation(a.x * a.y);
    }
  }

  lemma EncodingUnique(s: FieldElement, a: CurvePoint, s': FieldElement, b: CurvePoint)
    requires IsPrime(P) && Encodes(s, a) && Encodes(s', b) && AffineEq(a, b)
    ensures a == b && Eq(s, s')
  {
    EncodesIs(s, a);
    EncodesIs(s', b);
    EqIsShift(a, b);
    NotRotated(a, b);
    if Eq(a.x, 0) {
      ZeroXEncoding(s, a);
      Negation(a.x);
      ZeroXEncoding(s', b);
    } else if !Same(b, a) {
      SignOfNegation(a.x);
    }
    SamePoint(b, a);
    EncodedRatios(P, s * s, a.y);
    CancelRight(P, 1 + a.y, s * s, s' * s');
    EqualMagnitude(s, s');
  }

  // The theorems.

  lemma EqualPointsShareNorm(p: EdwardsPoint, a: CurvePoint, q: EdwardsPoint, b: CurvePoint)
    requires IsPrime(P) && Extends(p, a) && Extends(q, b)
    ensures RistrettoEq(p, q) ==> HasSquareNorm(a) == HasSquareNorm(b)
  {
    if RistrettoEq(p, q) {
      RistrettoEqIsCoset(p, a, q, b);
      var t: CurvePoint :| IsTorsion(t) && b == Sum(a, t);
      TorsionHasSquareNorm(t);
      NormOfSum(a, t);
    }
  }

  /** A point survives encoding and decoding, up to Ristretto equality, exactly when its norm has a root. */
  lemma RistrettoRoundTrip(p: EdwardsPoint, a: CurvePoint)
    requires IsPrime(P) && Extends(p, a)
    ensures var q := RistrettoDecompress(RistrettoCompress(p));
            (q.Some? && IsValid(q.value) && RistrettoEq(p, q.value)) <==> HasSquareNorm(a)
  {
    var c := RistrettoCompress(p);
    if HasSquareNorm(a) {
      var b := RistrettoCompressContract(p, a);
      EncodingIsAccepted(c, b);
      var q := RistrettoDecompress(c).value;
      RescaledEq(p, a, q, b);
      ExtendsIsValid(q, b);
    } else if RistrettoDecompress(c).Some? {
      var b := AcceptedPoint(c);
      EncodedHasSquareNorm(c, b);
      EqualPointsShareNorm(p, a, RistrettoDecompress(c).value, b);
    }
  }

  lemma DecodedHasSquareNorm(c: Bytes32, a: CurvePoint)
    requires IsPrime(P) && RistrettoDecompress(c).Some? && Extends(RistrettoDecompress(c).value, a)
    ensures HasSquareNorm(a)
  {
    var b := AcceptedPoint(c);
    EncodedHasSquareNorm(c, b);
    CtEqIsEquality(RistrettoDecompress(c).value, a, RistrettoDecompress(c).value, b);
  }

  /** Every integer combination of two decoded points survives encoding and decoding. */
  lemma CombinationRoundTrip(c: Bytes32, c': Bytes32, m: int, n: int, r: EdwardsPoint, a: CurvePoint, b: CurvePoint)
    requires IsPrime(P) && RistrettoDecompress(c).Some? && RistrettoDecompress(c').Some?
    requires Extends(RistrettoDecompress(c).value, a) && Extends(RistrettoDecompress(c').value, b)
    requires Extends(r, Sum(Scale(m, a), Scale(n, b)))
    ensures var q := RistrettoDecompress(RistrettoCompress(r)); q.Some? && IsValid(q.value) && RistrettoEq(r, q.value)
  {
    DecodedHasSquareNorm(c, a);
    DecodedHasSquareNorm(c', b);
    MultipleHasSquareNorm(m, a);
    MultipleHasSquareNorm(n, b);
    NormOfSum(Scale(m, a), Scale(n, b));
    RistrettoRoundTrip(r, Sum(Scale(m, a), Scale(n, b)));
  }

  /** An accepted string is the encoding of the point that it is decoded to. */
  lemma RistrettoReencode(c: Bytes32)
    requires IsPrime(P) && RistrettoDecompress(c).Some?
    ensures RistrettoCompress(RistrettoDecompress(c).value) == c
  {
    var q := RistrettoDecompress(c).value;
    var a := AcceptedPoint(c);
    EncodedHasSquareNorm(c, a);
    var b := RistrettoCompressContract(q, a);
    EncodingUnique(c, a, RistrettoCompress(q), b);
    SameBytes(c, RistrettoCompress(q));
  }

  lemma EncodedSame(s: FieldElement, a: CurvePoint, b: CurvePoint)
    requires IsPrime(P) && s < P && s >= 0 && Encodes(s, a) && Encodes(s, b)
    ensures a == b
  {
    EncodingIsAccepted(s, a);
    EncodingIsAccepted(s, b);
    CtEqIsEquality(RistrettoDecompress(s).value, a, RistrettoDecompress(s).value, b);
  }

  /** The affine test is equality modulo torsion. */
  lemma CosetScale(a: CurvePoint, b: CurvePoint)
    requires IsPrime(P)
    ensures AffineEq(a, b) <==> Scale(4, a) == Scale(4, b)
  {
    var p, q := WithUnit(a), WithUnit(b);
    WithUnitExtends(a);
    WithUnitExtends(b);
    RistrettoEqIsEqualityModuloTorsion(p, a, q, b);
  }

  /** Two points have the same encoding exactly when they are equal as Ristretto points. */
  lemma RistrettoCompressDecidesEquality(p: EdwardsPoint, a: CurvePoint, q: EdwardsPoint, b: CurvePoint)
    requires IsPrime(P) && Extends(p, a) && Extends(q, b) && HasSquareNorm(a) && HasSquareNorm(b)
    ensures RistrettoCompress(p) == RistrettoCompress(q) <==> RistrettoEq(p, q)
  {
    var c, c' := RistrettoCompress(p), RistrettoCompress(q);
    var a' := RistrettoCompressContract(p, a);
    var b' := RistrettoCompressContract(q, b);
    RistrettoEqIsEqualityModuloTorsion(p, a, q, b);
    CosetScale(a, a');
    CosetScale(b, b');
    CosetScale(a', b');
    if c == c' {
      EncodedSame(c, a', b');
    }
    if RistrettoEq(p, q) {
      EncodingUnique(c, a', c', b');
      SameBytes(c, c');
    }
  }

  /** The point of order eight among the constants does not survive encoding and decoding. */
  lemma EighthIsLost(p: EdwardsPoint)
    requires IsPrime(P) && Extends(p, EIGHTH)
    ensures var q := RistrettoDecompress(RistrettoCompress(p)); q.Some? && IsValid(q.value) ==> !RistrettoEq(p, q.value)
  {
    EighthLacksNorm();
    RistrettoRoundTrip(p, EIGHTH);
  }
}
