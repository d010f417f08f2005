/** The Montgomery form of the curve: conversions, and the ladder with delayed swaps. */
module Montgomery {
  import opened Congruence
  import opened Primes
  import opened SquareRoots
  import opened Field
  import opened Options
  import opened Edwards
  import opened EdwardsGroup
  import opened CurveModels
  import opened MontgomeryAlgebra

  const APLUS2_OVER_FOUR: int := 121666

  /** u is the u-coordinate (1 + y) / (1 - y) of a point, where 0 stands for that of the identity too. */
  predicate IsU(u: FieldElement, a: Affine) {
    if a.y == 1 then Eq(u, 0) else Eq(u * (1 - a.y), 1 + a.y)
  }

  /** A point (U : W) of the projective line. */
  datatype Ratio = Ratio(U: FieldElement, W: FieldElement)

  /** With a counter as in Congruence.RemainderAt. */
  predicate DenotesAt(k: Ratio, a: Affine, n: nat)
    decreases k, a, n
  {
    if n > 0 then DenotesAt(k, a, n - 1) else !Eq(k.U + k.W, 0) && Eq(k.U - k.W, a.y * (k.U + k.W))
  }

  /** (U : W) = (1 + y : 1 - y) */
  predicate Denotes(k: Ratio, a: Affine) {
    DenotesAt(k, a, 3)
  }

  lemma DenotesIs(k: Ratio, a: Affine)
    ensures Denotes(k, a) <==> !Eq(k.U + k.W, 0) && Eq(k.U - k.W, a.y * (k.U + k.W))
  {
    assert DenotesAt(k, a, 1) == DenotesAt(k, a, 0);
    assert DenotesAt(k, a, 2) == DenotesAt(k, a, 1);
  }

  function ToAffine(k: Ratio): (r: Bytes32)
    ensures r < P
  {
    ToBytes(k.U * Invert(k.W))
  }

  function ToMontgomery(p: EdwardsPoint): (r: Bytes32)
    ensures r < P
  {
    ToAffine(Ratio(p.Z + p.Y, p.Z - p.Y))
  }

  /** The conversion to extended coordinates, with a counter as in Congruence.RemainderAt. */
  function ToEdwardsAt(m: Bytes32, sign: nat, k: nat): Option<EdwardsPoint>
    decreases m, sign, k
  {
    if k > 0 then ToEdwardsAt(m, sign, k - 1)
    else
      var u := FromBytes(m);
      if Eq(u, -1) then None
      else
        var y := (u - 1) * Invert(u + 1);
        Decompress(XorTopBit(ToBytes(y), sign % 2 == 1))
  }

  function ToEdwards(m: Bytes32, sign: nat): Option<EdwardsPoint> {
    ToEdwardsAt(m, sign, 3)
  }

  lemma ToEdwardsIs(m: Bytes32, sign: nat)
    ensures var u := FromBytes(m);
            if Eq(u, -1) then ToEdwards(m, sign) == None
            else ToEdwards(m, sign) == Decompress(XorTopBit(ToBytes((u - 1) * Invert(u + 1)), sign % 2 == 1))
  {
    assert ToEdwardsAt(m, sign, 1) == ToEdwardsAt(m, sign, 0);
    assert ToEdwardsAt(m, sign, 2) == ToEdwardsAt(m, sign, 1);
  }

  // The conversions.

  lemma DifferenceForm(u: int, w: int, y: int)
    ensures (u - w) - y * (u + w) == u * (1 - y) - w * (1 + y)
  {}

  lemma DifferenceEquation(p: int, u: int, w: int, y: int)
    requires p > 0
    ensures Cong(p, u - w, y * (u + w)) <==> Cong(p, u * (1 - y), w * (1 + y))
  {
    Difference(p, u - w, y * (u + w));
    Difference(p, u * (1 - y), w * (1 + y));
    DifferenceForm(u, w, y);
  }

  lemma NotIdentityY(a: Affine)
    requires IsReduced(a.y) && a.y != 1
    ensures !Eq(1 - a.y, 0)
  {
    Difference(P, 1, a.y);
    ReducedRange(1);
    Canonical(1, if Eq(1 - a.y, 0) then a.y else 1);
  }

  lemma RatioForm(p: int, u: int, w: int, n: int, y: int)
    requires p > 0 && Cong(p, w * n, 1) && Cong(p, (u * (1 - y)) * n, (w * (1 + y)) * n)
    ensures Cong(p, (u * n) * (1 - y), 1 + y)
  {
    Mul(p, w * n, 1, 1 + y, 1 + y);
    assert (w * (1 + y)) * n == (w * n) * (1 + y) && (u * (1 - y)) * n == (u * n) * (1 - y);
  }

  lemma ZeroDenominator(u: FieldElement, w: FieldElement, y: FieldElement)
    requires IsPrime(P) && Eq(u * (1 - y), w * (1 + y)) && !Eq(u + w, 0) && !Eq(1 - y, 0)
    ensures !Eq(w, 0)
  {
    if Eq(w, 0) {
      Product(P, w, 1 + y);
      Product(P, u, 1 - y);
      Add(P, u, 0, w, 0);
    }
  }

  lemma AffineMeaning(k: Ratio, a: Affine)
    requires IsPrime(P) && Denotes(k, a) && IsReduced(a.y)
    ensures IsU(ToAffine(k), a)
  {
    var U, W, n := k.U, k.W, Invert(k.W);
    DenotesIs(k, a);
    DifferenceEquation(P, U, W, a.y);
    InvertIsInverse(W);
    Residue(P, U * n);
    Product(P, U, n);
    if a.y == 1 {
      Product(P, W, 2);
      assert W * (1 + a.y) == W * 2;
    } else {
      NotIdentityY(a);
      ZeroDenominator(U, W, a.y);
      Mul(P, U * (1 - a.y), W * (1 + a.y), n, n);
      RatioForm(P, U, W, n, a.y);
      Mul(P, ToAffine(k), U * n, 1 - a.y, 1 - a.y);
    }
  }

  lemma UIsUnique(u: FieldElement, u': FieldElement, a: Affine)
    requires IsPrime(P) && IsU(u, a) && IsU(u', a) && IsReduced(a.y)
    ensures Eq(u, u')
  {
    if a.y != 1 {
      NotIdentityY(a);
      CancelRight(P, 1 - a.y, u, u');
    }
  }

  lemma RatioOf(p: int, z: int, Y: int, y: int)
    requires IsPrime(p) && p > 2 && !Cong(p, z, 0) && Cong(p, Y, y * z)
    ensures var U, W := z + Y, z - Y; !Cong(p, U + W, 0) && Cong(p, U - W, y * (U + W))
  {
    Product(p, 2, z);
    SmallUnits(p);
    Mul(p, 2, 2, Y, y * z);
    assert 2 * (y * z) == y * (2 * z);
  }

  lemma ExtendedRatio(p: EdwardsPoint, a: CurvePoint)
    requires IsPrime(P) && Extends(p, a)
    ensures Denotes(Ratio(p.Z + p.Y, p.Z - p.Y), a)
  {
    ExtendsForm(p, a);
    RatioOf(P, p.Z, p.Y, a.y);
    DenotesIs(Ratio(p.Z + p.Y, p.Z - p.Y), a);
  }

  /** The u-coordinate of a point, whatever its representative. */
  lemma ToMontgomeryContract(p: EdwardsPoint, a: CurvePoint)
    requires IsPrime(P) && Extends(p, a)
    ensures IsU(ToMontgomery(p), a)
  {
    ExtendedRatio(p, a);
    AffineMeaning(Ratio(p.Z + p.Y, p.Z - p.Y), a);
  }

  /** The canonical u-coordinate of a point is the one that conversion gives. */
  lemma ToMontgomeryUnique(r: Bytes32, p: EdwardsPoint, a: CurvePoint)
    requires IsPrime(P) && Extends(p, a) && IsU(r, a) && r < P
    ensures r == ToMontgomery(p)
  {
    var m := ToMontgomery(p);
    ToMontgomeryContract(p, a);
    UIsUnique(r, m, a);
    SameBytes(r, m);
  }

  lemma InverseMapDenominator(p: int, u: int, y: int)
    requires IsPrime(p) && p > 2 && Cong(p, u * (1 - y), 1 + y)
    ensures !Cong(p, u + 1, 0)
  {
    Add(p, u * (1 - y), 1 + y, 1 - y, 1 - y);
    assert (u + 1) * (1 - y) == u * (1 - y) + (1 - y);
    Product(p, u + 1, 1 - y);
    SmallUnits(p);
  }

  lemma InverseMap(p: int, u: int, y: int, n: int)
    requires IsPrime(p) && p > 2 && Cong(p, u * (1 - y), 1 + y)
    requires Cong(p, u + 1, 0) || Cong(p, (u + 1) * n, 1)
    ensures !Cong(p, u + 1, 0) && Cong(p, (u - 1) * n, y)
  {
    InverseMapDenominator(p, u, y);
    DifferenceEquation(p, u, 1, y);
    assert 1 * (1 + y) == 1 + y;
    ClearInverse(p, u - 1, y, u + 1, n);
  }

  /** u = -1 is not the coordinate of any point, and y = (u - 1) / (u + 1). */
  lemma YFromU(u: FieldElement, a: CurvePoint)
    requires IsPrime(P) && IsU(u, a) && a.y != 1
    ensures !Eq(u, -1) && Eq((u - 1) * Invert(u + 1), a.y)
  {
    Difference(P, u, -1);
    InvertIsInverse(u + 1);
    InverseMap(P, u, a.y, Invert(u + 1));
  }

  /** The converse: the y that u determines has u as its coordinate. */
  lemma UFromY(u: FieldElement, y: FieldElement)
    requires IsPrime(P) && !Eq(u, -1) && Eq(y, (u - 1) * Invert(u + 1))
    ensures Eq(u * (1 - y), 1 + y) && !Eq(y, 1)
  {
    var n := Invert(u + 1);
    Difference(P, u, -1);
    InvertIsInverse(u + 1);
    Mul(P, y, (u - 1) * n, u + 1, u + 1);
    Mul(P, u - 1, u - 1, n * (u + 1), 1);
    assert ((u - 1) * n) * (u + 1) == (u - 1) * (n * (u + 1)) && n * (u + 1) == (u + 1) * n;
    DifferenceEquation(P, u, 1, y);
    if Eq(y, 1) {
      Mul(P, y, 1, u + 1, u + 1);
      Add(P, u - 1, u + 1, u, u);
    }
  }

  lemma DecompressedPoint(c: Bytes32) returns (a: CurvePoint)
    requires IsPrime(P) && Decompress(c).Some?
    ensures Extends(Decompress(c).value, a) && Eq(a.y, FromBytes(c)) && Eq(a.x, Decompress(c).value.X)
    ensures !Eq(a.x, 0) ==> IsNegative(a.x) == TopBit(c)
  {
    DecompressContract(c);
    var q := Decompress(c).value;
    a := ValidDenotes(q);
    ExtendsForm(q, a);
  }

  lemma EncodedSign(y: FieldElement, sign: bool)
    ensures var c := XorTopBit(ToBytes(y), sign); Eq(FromBytes(c), y) && TopBit(c) == sign
  {
    Residue(P, y);
    assert FromBytes(XorTopBit(ToBytes(y), sign)) == ToBytes(y);
  }

  lemma Coordinate(u: FieldElement, y: FieldElement, a: Affine)
    requires Eq(a.y, y) && Eq(u * (1 - y), 1 + y) && !Eq(y, 1)
    ensures a.y != 1 && IsU(u, a)
  {
    Add(P, 1, 1, a.y, y);
    Mul(P, u, u, 1 - a.y, 1 - y);
  }

  /** The string that is decompressed. */
  lemma EncodedY(m: Bytes32, sign: nat) returns (c: Bytes32)
    requires IsPrime(P) && ToEdwards(m, sign).Some?
    ensures ToEdwards(m, sign) == Decompress(c) && TopBit(c) == (sign % 2 == 1)
    ensures var u, y := FromBytes(m), FromBytes(c); Eq(u * (1 - y), 1 + y) && !Eq(y, 1)
  {
    var u := FromBytes(m);
    var y := (u - 1) * Invert(u + 1);
    c := XorTopBit(ToBytes(y), sign % 2 == 1);
    ToEdwardsIs(m, sign);
    EncodedSign(y, sign % 2 == 1);
    UFromY(u, FromBytes(c));
  }

  /** The point that an accepted string is converted to. */
  lemma ConvertedPoint(m: Bytes32, sign: nat) returns (a: CurvePoint)
    requires IsPrime(P) && ToEdwards(m, sign).Some?
    ensures Extends(ToEdwards(m, sign).value, a) && a.y != 1 && IsU(FromBytes(m), a)
    ensures !Eq(a.x, 0) ==> IsNegative(a.x) == (sign % 2 == 1)
  {
    var c := EncodedY(m, sign);
    a := DecompressedPoint(c);
    Coordinate(FromBytes(m), FromBytes(c), a);
  }

  lemma CoordinateIsConverted(m: Bytes32, sign: nat, a: CurvePoint)
    requires IsPrime(P) && a.y != 1 && IsU(FromBytes(m), a)
    ensures ToEdwards(m, sign).Some?
  {
    var u := FromBytes(m);
    var y := (u - 1) * Invert(u + 1);
    var c := XorTopBit(ToBytes(y), sign % 2 == 1);
    ToEdwardsIs(m, sign);
    EncodedSign(y, sign % 2 == 1);
    YFromU(u, a);
    OnCurveCong(a.x, a.y, a.x, FromBytes(c));
    DecompressContract(c);
  }

  /** A string is converted exactly when it is the u-coordinate of a point other than the identity. */
  lemma ToEdwardsContract(m: Bytes32, sign: nat)
    requires IsPrime(P)
    ensures ToEdwards(m, sign).Some? <==> exists a: CurvePoint :: a.y != 1 && IsU(FromBytes(m), a)
    ensures ToEdwards(m, sign).Some? ==>
              exists a: CurvePoint :: Extends(ToEdwards(m, sign).value, a) && a.y != 1 && IsU(FromBytes(m), a)
                && (!Eq(a.x, 0) ==> IsNegative(a.x) == (sign % 2 == 1))
  {
    if ToEdwards(m, sign).Some? {
      var a := ConvertedPoint(m, sign);
    }
    forall a: CurvePoint | a.y != 1 && IsU(FromBytes(m), a)
      ensures ToEdwards(m, sign).Some?
    {
      CoordinateIsConverted(m, sign, a);
    }
  }

  lemma CanonicalBytes(m: Bytes32)
    requires m < P
    ensures FromBytes(m) == m
  {}

  /** Points with the same y and the same sign are the same. */
  lemma SameY(a: CurvePoint, b: CurvePoint)
    requires IsPrime(P) && Eq(a.y, b.y) && (!Eq(b.x, 0) ==> IsNegative(a.x) == IsNegative(b.x))
    ensures a == b
  {
    Canonical(a.y, b.y);
    CurveAsRatio(a.x, a.y);
    CurveAsRatio(b.x, a.y);
    DenominatorNonZero(a.y);
    RootIsUnique(a.y * a.y - 1, (a.y * a.y) * EDWARDS_D + 1, a.x, b.x);
    if Eq(b.x, 0) {
      Negation(b.x);
    }
    SamePoint(a, b);
  }

  /** The u-coordinate and the sign of a point other than the identity determine it. */
  lemma CoordinateDetermines(m: Bytes32, sign: nat, a: CurvePoint)
    requires IsPrime(P) && a.y != 1 && IsU(FromBytes(m), a) && (sign % 2 == 1) == IsNegative(a.x)
    ensures ToEdwards(m, sign).Some? && Extends(ToEdwards(m, sign).value, a)
  {
    CoordinateIsConverted(m, sign, a);
    var b := ConvertedPoint(m, sign);
    YFromU(FromBytes(m), a);
    YFromU(FromBytes(m), b);
    SameY(a, b);
  }

  lemma IdentityIsNotConverted(m: Bytes32, sign: nat)
    requires IsPrime(P) && ToEdwards(m, sign).Some?
    ensures !Extends(ToEdwards(m, sign).value, ZERO)
  {
    var b := ConvertedPoint(m, sign);
    if Extends(ToEdwards(m, sign).value, ZERO) {
      CtEqIsEquality(ToEdwards(m, sign).value, ZERO, ToEdwards(m, sign).value, b);
    }
  }

  predicate Recovered(m: Bytes32, sign: nat, a: CurvePoint) {
    ToEdwards(m, sign).Some? && Extends(ToEdwards(m, sign).value, a)
  }

  lemma NotRecovered(m: Bytes32, sign: nat)
    requires IsPrime(P)
    ensures !Recovered(m, sign, ZERO)
  {
    if Recovered(m, sign, ZERO) {
      IdentityIsNotConverted(m, sign);
    }
  }

  lemma ZeroX(x: FieldElement, y: FieldElement)
    requires IsPrime(P) && OnCurve(x, y) && Eq(y * y, 1)
    ensures Eq(x, 0)
  {
    Constants();
    CurveEquation(x, y);
    OrderTwoIsZeroX(P, APLUS2_OVER_FOUR, EDWARDS_D, x, y);
  }

  lemma YOne(a: CurvePoint)
    requires IsPrime(P) && a.y == 1
    ensures a == ZERO
  {
    ZeroX(a.x, a.y);
    Canonical(a.x, 0);
  }

  /** A point is recovered from its u-coordinate and its sign exactly when it is not the identity. */
  lemma MontgomeryRoundTrip(p: EdwardsPoint, a: CurvePoint, sign: nat)
    requires IsPrime(P) && Extends(p, a) && (sign % 2 == 1) == IsNegative(a.x)
    ensures Recovered(ToMontgomery(p), sign, a) <==> a != ZERO
  {
    var m := ToMontgomery(p);
    ToMontgomeryContract(p, a);
    CanonicalBytes(m);
    if a.y == 1 {
      YOne(a);
      NotRecovered(m, sign);
    } else {
      CoordinateDetermines(m, sign, a);
    }
  }
}
