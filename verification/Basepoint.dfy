/** The constants of the program for the base point, in its four representations. */
module Basepoint {
  import opened Congruence
  import opened Primes
  import opened Field
  import opened Edwards
  import opened EdwardsGroup
  import opened CurveModels
  import opened Montgomery
  import opened RistrettoEquality
  import opened Ristretto
  import opened RistrettoNorm
  import opened Signing

  const BASEPOINT_X: FieldElement := 0x216936d3cd6e53fec0a4e231fdd6dc5c692cc7609525a7b2c9562d608f25d51a
  const BASEPOINT_Y: FieldElement := 0x6666666666666666666666666666666666666666666666666666666666666658

  const ED25519_BASEPOINT_COMPRESSED: Bytes32 := 0x6666666666666666666666666666666666666666666666666666666666666658
  const X25519_BASEPOINT: Bytes32 := 9
  const RISTRETTO_BASEPOINT_COMPRESSED: Bytes32 := 0x762d8de04559a6b68ddd82a56a0be3585f5100c561a984a8714ebc6a0aaef2e2

  lemma BasepointReduced()
    ensures IsReduced(BASEPOINT_X) && IsReduced(BASEPOINT_Y)
  {
    ReducedRange(BASEPOINT_X);
    ReducedRange(BASEPOINT_Y);
  }

  lemma BasepointEquation()
    ensures var a, b := BASEPOINT_X * BASEPOINT_X, BASEPOINT_Y * BASEPOINT_Y; Eq(b - a, 1 + EDWARDS_D * (a * b))
  {
    var a, b := BASEPOINT_X * BASEPOINT_X, BASEPOINT_Y * BASEPOINT_Y;
    CongIs(P, b - a, 1 + EDWARDS_D * (a * b));
  }

  lemma BasepointOnCurve()
    ensures OnCurve(BASEPOINT_X, BASEPOINT_Y) && IsReduced(BASEPOINT_X) && IsReduced(BASEPOINT_Y)
  {
    BasepointReduced();
    BasepointEquation();
    CurveEquation(BASEPOINT_X, BASEPOINT_Y);
  }

  const BASEPOINT: CurvePoint := (BasepointOnCurve(); EdwardsGroup.Affine(BASEPOINT_X, BASEPOINT_Y))

  /** y = 4 / 5, and x is positive, that is even. */
  lemma BasepointCoordinates()
    ensures Eq(5 * BASEPOINT.y, 4) && BASEPOINT.x % 2 == 0
  {
    CongIs(P, 5 * BASEPOINT_Y, 4);
  }

  /** The compressed base point is its encoding, and is decoded to it. */
  lemma BasepointIsEncoded(c: Bytes32)
    requires IsPrime(P) && c == ED25519_BASEPOINT_COMPRESSED
    ensures Encoding(BASEPOINT) == c && Decompress(c).Some? && Extends(Decompress(c).value, BASEPOINT)
  {
    DecompressEncoding(BASEPOINT);
  }

  lemma NineIsCoordinate()
    ensures IsU(X25519_BASEPOINT, BASEPOINT)
  {
    CongIs(P, 9 * (1 - BASEPOINT_Y), 1 + BASEPOINT_Y);
  }

  /** The Montgomery form of the base point is 9. */
  lemma BasepointIsConverted(p: EdwardsPoint)
    requires IsPrime(P) && Extends(p, BASEPOINT)
    ensures ToMontgomery(p) == X25519_BASEPOINT
  {
    NineIsCoordinate();
    ToMontgomeryUnique(X25519_BASEPOINT, p, BASEPOINT);
  }

  const ROOT_OF_NORM: FieldElement := 0x4cccccccccccccccccccccccccccccccccccccccccccccccccccccccccccccc2

  lemma RootOfBasepoint()
    ensures Eq(ROOT_OF_NORM * ROOT_OF_NORM, 1 - BASEPOINT_Y * BASEPOINT_Y)
  {
    CongIs(P, ROOT_OF_NORM * ROOT_OF_NORM, 1 - BASEPOINT_Y * BASEPOINT_Y);
  }

  /** The base point has a square norm, so that it and its multiples survive encoding as Ristretto points. */
  lemma BasepointHasSquareNorm()
    ensures HasSquareNorm(BASEPOINT)
  {
    RootOfBasepoint();
  }

  // The Ristretto encoding is that of the member of the coset in normal position.

  const NORMAL_X: FieldElement := 0x1063e2cc8cfe80c3dd5bff856803537a40971ffaa8a67c6c2f4183e0918de5d2
  const NORMAL_Y: FieldElement := 0x159a6849e44c3c7f061b3d570fc4ed5b5d14c8ba4253df49cc7edf80f533ad9b

  lemma NormalReduced()
    ensures IsReduced(NORMAL_X) && IsReduced(NORMAL_Y)
  {
    ReducedRange(NORMAL_X);
    ReducedRange(NORMAL_Y);
  }

  lemma NormalEquation()
    ensures var a, b := NORMAL_X * NORMAL_X, NORMAL_Y * NORMAL_Y; Eq(b - a, 1 + EDWARDS_D * (a * b))
  {
    var a, b := NORMAL_X * NORMAL_X, NORMAL_Y * NORMAL_Y;
    CongIs(P, b - a, 1 + EDWARDS_D * (a * b));
  }

  lemma NormalOnCurve()
    ensures OnCurve(NORMAL_X, NORMAL_Y) && IsReduced(NORMAL_X) && IsReduced(NORMAL_Y)
  {
    NormalReduced();
    NormalEquation();
    CurveEquation(NORMAL_X, NORMAL_Y);
  }

  const NORMAL: CurvePoint := (NormalOnCurve(); EdwardsGroup.Affine(NORMAL_X, NORMAL_Y))

  lemma NormalRatio()
    ensures var s := RISTRETTO_BASEPOINT_COMPRESSED; Eq((s * s) * (1 + NORMAL_Y), 1 - NORMAL_Y)
  {
    var s := RISTRETTO_BASEPOINT_COMPRESSED;
    CongIs(P, (s * s) * (1 + NORMAL_Y), 1 - NORMAL_Y);
  }

  lemma NormalSigns()
    ensures !IsNegative(RISTRETTO_BASEPOINT_COMPRESSED) && !IsNegative(NORMAL_X) && !IsNegative(NORMAL_X * NORMAL_Y)
  {
    RemainderIs(P, RISTRETTO_BASEPOINT_COMPRESSED);
    RemainderIs(P, NORMAL_X);
    RemainderIs(P, NORMAL_X * NORMAL_Y);
  }

  lemma NormalIsInCoset()
    ensures AffineEq(BASEPOINT, NORMAL)
  {
    CongIs(P, BASEPOINT_X * NORMAL_X, BASEPOINT_Y * NORMAL_Y);
  }

  /** The compressed Ristretto base point is the encoding of that member, to which it is therefore decoded. */
  lemma RistrettoBasepointIsEncoding()
    ensures Encodes(RISTRETTO_BASEPOINT_COMPRESSED, NORMAL) && RISTRETTO_BASEPOINT_COMPRESSED < P
  {
    NormalRatio();
    NormalSigns();
    EncodesIs(RISTRETTO_BASEPOINT_COMPRESSED, NORMAL);
  }

  /** Which is the Ristretto point of the base point. */
  lemma BasepointIsNormalised(p: EdwardsPoint, q: EdwardsPoint)
    requires IsPrime(P) && Extends(p, BASEPOINT) && Extends(q, NORMAL)
    ensures RistrettoEq(p, q)
  {
    NormalIsInCoset();
    RescaledEq(p, BASEPOINT, q, NORMAL);
  }
}
