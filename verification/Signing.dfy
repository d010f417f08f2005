/** Key derivation, signing and verification. */
module Signing {
  import opened Congruence
  import opened Primes
  import opened SquareRoots
  import opened Field
  import opened Options
  import opened Edwards
  import opened EdwardsGroup
  import opened CurveModels
  import opened Recoding
  import opened ScalarMul
  import opened Multiscalar
  import opened ByteStrings
  import opened ScalarArithmetic
  import opened SecretKeys
  import opened Signatures

  /** The output of the hash function, which is a parameter here. */
  type Digest = b: Bytes | |b| == 64 witness seq(64, _ => 0)

  datatype PublicKey = PublicKey(compressed: Bytes32, point: EdwardsPoint)

  // Points and scalars.

  /** The order of the point divides l; with a counter as in Congruence.RemainderAt. */
  ghost predicate HasOrderLAt(b: CurvePoint, k: nat)
    requires IsPrime(P)
    decreases b, k
  {
    if k > 0 then HasOrderLAt(b, k - 1) else Scale(L, b) == ZERO
  }

  ghost predicate HasOrderL(b: CurvePoint)
    requires IsPrime(P)
  {
    HasOrderLAt(b, 3)
  }

  lemma HasOrderLIs(b: CurvePoint)
    requires IsPrime(P)
    ensures HasOrderL(b) <==> Scale(L, b) == ZERO
  {
    assert HasOrderLAt(b, 1) == HasOrderLAt(b, 0);
    assert HasOrderLAt(b, 2) == HasOrderLAt(b, 1);
  }

  /** Multiples of the base point depend on the scalar modulo l. */
  lemma ScaleModulo(m: int, n: int, b: CurvePoint)
    requires IsPrime(P) && HasOrderL(b) && Cong(L, m, n)
    ensures Scale(m, b) == Scale(n, b)
  {
    HasOrderLIs(b);
    Difference(L, m, n);
    var q := AsMultiple(L, m - n);
    assert m == n + q * L;
    NestMultiples(q, L, b);
    ScaleZero(q);
    AddMultiples(n, q * L, b);
    SumZero(Scale(n, b));
  }

  /** For a prime order, only the multiples of l give the identity. */
  lemma ScaleVanishes(n: int, b: CurvePoint)
    requires IsPrime(P) && IsPrime(L) && HasOrderL(b) && b != ZERO
    ensures Scale(n, b) == ZERO <==> Cong(L, n, 0)
  {
    SmallMultiples(b);
    if Cong(L, n, 0) {
      ScaleModulo(n, 0, b);
    } else if Scale(n, b) == ZERO {
      var i := Pow(n, L - 2);
      Fermat(L, n);
      assert Pow(n, L - 1) == n * i;
      assert n * i == i * n;
      NestMultiples(i, n, b);
      ScaleZero(i);
      ScaleModulo(i * n, 1, b);
    }
  }

  /** The encoding of a point: y, with the low bit of x in the place of the highest bit (section 5.1.2 of RFC 8032). */
  function Encoding(a: CurvePoint): Bytes32 {
    ReducedRange(a.y);
    XorTopBit(a.y, a.x % 2 == 1)
  }

  lemma CanonicalQuotient(X: FieldElement, z: FieldElement, n: FieldElement, x: FieldElement)
    requires Eq(X, x * z) && Eq(z * n, 1) && 0 <= x < P
    ensures ToBytes(X * n) == x
  {
    ClearInverse(P, X, x, z, n);
    SameBytes(ToBytes(X * n), x) by {
      Residue(P, X * n);
    }
  }

  /** Compression is that encoding, for every representative of a point. */
  lemma CompressIsEncoding(p: EdwardsPoint, a: CurvePoint)
    requires IsPrime(P) && Extends(p, a)
    ensures Compress(p) == Encoding(a)
  {
    var n := Invert(p.Z);
    ExtendsForm(p, a);
    InvertIsInverse(p.Z);
    ReducedRange(a.x);
    ReducedRange(a.y);
    CanonicalQuotient(p.X, p.Z, n, a.x);
    CanonicalQuotient(p.Y, p.Z, n, a.y);
  }

  lemma EncodingInjective(a: CurvePoint, b: CurvePoint)
    requires IsPrime(P)
    ensures Encoding(a) == Encoding(b) <==> a == b
  {
    var p, q := WithUnit(a), WithUnit(b);
    WithUnitExtends(a);
    WithUnitExtends(b);
    CompressIsEncoding(p, a);
    CompressIsEncoding(q, b);
    ExtendsIsValid(p, a);
    ExtendsIsValid(q, b);
    CompressDecidesEquality(p, q);
    CtEqIsEquality(p, a, q, b);
  }

  /** Decoding the encoding of a point gives that point. */
  lemma DecompressEncoding(a: CurvePoint)
    requires IsPrime(P)
    ensures Decompress(Encoding(a)).Some? && Extends(Decompress(Encoding(a)).value, a)
  {
    var p := WithUnit(a);
    WithUnitExtends(a);
    CompressIsEncoding(p, a);
    ExtendsIsValid(p, a);
    CompressRoundTrip(p);
    var q := Decompress(Encoding(a)).value;
    var b := ValidDenotes(q);
    CtEqIsEquality(q, b, p, a);
  }

  function NegateExtended(p: EdwardsPoint): EdwardsPoint {
    EdwardsPoint(-p.X, p.Y, p.Z, -p.T)
  }

  lemma NegatedCoordinates(p: int, X: int, T: int, z: int, x: int, y: int, n: int)
    requires p > 0 && Cong(p, X, x * z) && Cong(p, T, (x * y) * z) && Cong(p, n, -x)
    ensures Cong(p, -X, n * z) && Cong(p, -T, (n * y) * z)
  {
    Add(p, 0, 0, X, x * z);
    Add(p, 0, 0, T, (x * y) * z);
    Mul(p, n, -x, z, z);
    Mul(p, n, -x, y * z, y * z);
    assert -x * z == -(x * z) && -x * (y * z) == -((x * y) * z) && n * (y * z) == (n * y) * z;
  }

  lemma NegateExtendedCorrect(p: EdwardsPoint, a: CurvePoint)
    requires Extends(p, a)
    ensures Extends(NegateExtended(p), Negate(a))
  {
    ExtendsForm(p, a);
    ExtendsForm(NegateExtended(p), Negate(a));
    NegatedCoordinates(P, p.X, p.T, p.Z, a.x, a.y, Negate(a).x);
  }

  lemma WideBytes(n: nat)
    requires n == 64
    ensures TwoTo(8 * n) <= RADIX * RADIX
  {
    ThirtyTwoBytes(n / 2);
    TwoToAdd(8 * (n / 2), 8 * (n / 2));
  }

  /** A hash as an integer modulo l. */
  function HashScalar(hash: Bytes -> Digest, input: Bytes): (k: Scalar)
    ensures k < L
  {
    Remainder(L, LittleEndian(hash(input)))
  }

  /** The scalar of a hash, by a reduction of its 512 bits. */
  method FromHash(hash: Bytes -> Digest, input: Bytes) returns (k: Scalar)
    ensures k == HashScalar(hash, input)
  {
    var d := hash(input);
    LittleEndianBound(d);
    WideBytes(|d|);
    FromWideContract(LittleEndian(d));
    k := FromWide(LittleEndian(d));
  }

  /** k = H(R, A, M) */
  function Challenge(hash: Bytes -> Digest, R: Bytes32, A: Bytes32, message: Bytes): (k: Scalar)
    ensures k < L
  {
    HashScalar(hash, Spell32(R) + Spell32(A) + message)
  }

  // Derivation of public keys.

  /** A public key whose point is m b. */
  ghost predicate IsPublicKey(pk: PublicKey, a: CurvePoint) {
    Extends(pk.point, a) && pk.compressed == Encoding(a)
  }

  method PublicKeyOfScalar(scalar: Scalar, tables: seq<seq<AffineNielsPoint>>, ghost b: CurvePoint)
    returns (pk: PublicKey)
    requires IsPrime(P) && |tables| == 32 && IsBasepointTable(tables, b)
    ensures IsPublicKey(pk, Scale(scalar, b))
  {
    var point := BasepointMul(tables, scalar, b);
    CompressIsEncoding(point, Scale(scalar, b));
    pk := PublicKey(Compress(point), point);
  }

  method MangleScalarBitsAndMultiply(bits: array<bv8>, tables: seq<seq<AffineNielsPoint>>, ghost b: CurvePoint)
    returns (pk: PublicKey)
    requires IsPrime(P) && bits.Length == 32 && |tables| == 32 && IsBasepointTable(tables, b)
    modifies bits
    ensures IsPublicKey(pk, Scale(Clamp(Read32(old(bits[..]))), b))
  {
    MangleScalarBits(bits);
    var scalar := FromBits(Read32(bits[..]));
    pk := PublicKeyOfScalar(scalar, tables, b);
  }

  /** The public key of a secret key is the multiple by the scalar that signing uses. */
  method PublicKeyOfSecret(secret: Bytes, hash: Bytes -> Digest, tables: seq<seq<AffineNielsPoint>>,
                           ghost b: CurvePoint)
    returns (pk: PublicKey)
    requires IsPrime(P) && |tables| == 32 && IsBasepointTable(tables, b)
    ensures IsPublicKey(pk, Scale(Clamp(Read32(hash(secret)[..32])), b))
  {
    var h := hash(secret);
    var digest := new bv8[32](i requires 0 <= i < 32 => h[i]);
    assert digest[..] == h[..32];
    pk := MangleScalarBitsAndMultiply(digest, tables, b);
  }

  /** The public key of an expanded key, whose scalar is clamped once more. */
  method PublicKeyOfExpanded(expanded: ExpandedSecretKey, tables: seq<seq<AffineNielsPoint>>, ghost b: CurvePoint)
    returns (pk: PublicKey)
    requires IsPrime(P) && |tables| == 32 && IsBasepointTable(tables, b)
    ensures IsPublicKey(pk, Scale(Clamp(expanded.key), b))
  {
    var s := Spell32(expanded.key);
    RoundTrip32(expanded.key, s);
    var bits := new bv8[32](i requires 0 <= i < 32 => s[i]);
    assert bits[..] == s;
    pk := MangleScalarBitsAndMultiply(bits, tables, b);
  }

  // Signing.

  /** What signing produces: R = r b and s = k key + r, for the nonce r and the challenge k. */
  ghost predicate IsSignature(sig: Bytes, r: Scalar, key: Scalar, A: Bytes32, message: Bytes, hash: Bytes -> Digest,
                              b: CurvePoint)
    requires IsPrime(P)
  {
    var R := Encoding(Scale(r, b));
    var s := Remainder(L, Challenge(hash, R, A, message) * key + r);
    sig == SignatureToBytes(InternalSignature(R, s))
  }

  method MultiplyAndAdd(k: Scalar, key: Scalar, r: Scalar) returns (s: Scalar)
    ensures s == Remainder(L, k * key + r)
  {
    MultiplyScalarsContract(k, key);
    var product := MultiplyScalars(k, key);
    AddScalarsContract(product, r);
    s := AddScalars(product, r);
    Residue(L, k * key);
    Residue(L, product + r);
    Add(L, product, k * key, r, r);
  }

  method Sign(expanded: ExpandedSecretKey, message: Bytes, pk: PublicKey, hash: Bytes -> Digest,
              tables: seq<seq<AffineNielsPoint>>, ghost b: CurvePoint)
    returns (sig: Bytes)
    requires IsPrime(P) && |tables| == 32 && IsBasepointTable(tables, b)
    ensures IsSignature(sig, HashScalar(hash, expanded.nonce + message), expanded.key, pk.compressed, message, hash, b)
  {
    var r := FromHash(hash, expanded.nonce + message);
    var point := BasepointMul(tables, r, b);
    CompressIsEncoding(point, Scale(r, b));
    var R := Compress(point);
    var k := FromHash(hash, Spell32(R) + Spell32(pk.compressed) + message);
    var s := MultiplyAndAdd(k, expanded.key, r);
    sig := SignatureToBytes(InternalSignature(R, s));
  }

  // Verification.

  /** The verification equation R = s b - k a. */
  ghost predicate Accepts(sig: Bytes, A: Bytes32, a: CurvePoint, message: Bytes, hash: Bytes -> Digest, b: CurvePoint)
    requires IsPrime(P)
  {
    match SignatureFromBytes(sig)
    case Err(_) => false
    case Ok(s) => Encoding(Combine2(Challenge(hash, s.R, A, message), Negate(a), s.s, b)) == s.R
  }

  method Verify(pk: PublicKey, message: Bytes, sig: Bytes, hash: Bytes -> Digest, tableB: seq<AffineNielsPoint>,
                ghost a: CurvePoint, ghost b: CurvePoint)
    returns (result: Result<(), SignatureError>)
    requires IsPrime(P) && Extends(pk.point, a) && |tableB| == 64 && IsAffineOddTable(tableB, b)
    ensures result.Ok? <==> Accepts(sig, pk.compressed, a, message, hash, b)
    ensures SignatureFromBytes(sig).Err? ==> result == Err(SignatureFromBytes(sig).error)
    ensures SignatureFromBytes(sig).Ok? && result.Err? ==> result.error == VerifyError
  {
    var decoded := SignatureFromBytes(sig);
    if decoded.Err? {
      return Err(decoded.error);
    }
    var signature := decoded.value;
    var minusA := NegateExtended(pk.point);
    NegateExtendedCorrect(pk.point, a);
    var k := FromHash(hash, Spell32(signature.R) + Spell32(pk.compressed) + message);
    var R := VartimeDoubleBaseMul(k, minusA, signature.s, tableB, Negate(a), b);
    CompressIsEncoding(R, Combine2(k, Negate(a), signature.s, b));
    result := if Compress(R) == signature.R then Ok(()) else Err(VerifyError);
  }

  /** k (-(m b)) + s b, with s = k key + r, is r b and a multiple of the difference of the keys. */
  lemma VerificationPoint(k: int, m: int, key: int, r: int, s: int, b: CurvePoint)
    requires IsPrime(P) && HasOrderL(b) && Cong(L, s, k * key + r)
    ensures Combine2(k, Negate(Scale(m, b)), s, b) == Sum(Scale(k * (key - m), b), Scale(r, b))
  {
    NegateMultiple(m, b);
    NestMultiples(k, -m, b);
    ScaleModulo(s, k * key + r, b);
    AddMultiples(k * -m, k * key + r, b);
    AddMultiples(k * (key - m), r, b);
    assert k * -m + (k * key + r) == k * (key - m) + r;
  }

  lemma DecodedSignature(sig: Bytes, R: Bytes32, s: Scalar)
    requires s < L && sig == SignatureToBytes(InternalSignature(R, s))
    ensures SignatureFromBytes(sig) == Ok(InternalSignature(R, s))
  {
    SignatureRoundTrip(InternalSignature(R, s));
  }

  lemma DecodedScalar(sig: Bytes, r: Scalar, key: Scalar, A: Bytes32, message: Bytes, hash: Bytes -> Digest,
                      b: CurvePoint)
    returns (s: Scalar)
    requires IsPrime(P) && IsSignature(sig, r, key, A, message, hash, b)
    ensures var R := Encoding(Scale(r, b));
            && SignatureFromBytes(sig) == Ok(InternalSignature(R, s))
            && Cong(L, s, Challenge(hash, R, A, message) * key + r)
  {
    var R := Encoding(Scale(r, b));
    var k := Challenge(hash, R, A, message);
    s := Remainder(L, k * key + r);
    Residue(L, k * key + r);
    DecodedSignature(sig, R, s);
  }

  /** The verification equation, for a signature made with the scalar key. */
  lemma AcceptsIsEquation(sig: Bytes, r: Scalar, key: Scalar, m: int, A: Bytes32, message: Bytes,
                          hash: Bytes -> Digest, b: CurvePoint)
    requires IsPrime(P) && HasOrderL(b) && IsSignature(sig, r, key, A, message, hash, b)
    ensures var k := Challenge(hash, Encoding(Scale(r, b)), A, message);
            Accepts(sig, A, Scale(m, b), message, hash, b) <==> Sum(Scale(k * (key - m), b), Scale(r, b)) == Scale(r, b)
  {
    var R := Encoding(Scale(r, b));
    var k := Challenge(hash, R, A, message);
    var s := DecodedScalar(sig, r, key, A, message, hash, b);
    VerificationPoint(k, m, key, r, s, b);
    EncodingInjective(Combine2(k, Negate(Scale(m, b)), s, b), Scale(r, b));
  }

  lemma AddsNothing(d: CurvePoint, a: CurvePoint)
    requires IsPrime(P)
    ensures Sum(d, a) == a <==> d == ZERO
  {
    SumZero(a);
    SumCommutes(d, a);
    if Sum(d, a) == a {
      CancelSum(a, d, ZERO);
    }
  }

  /**
    A signature made with the scalar key verifies under the public key m b exactly when l divides
    k (key - m), k being the challenge.
  */
  lemma SignatureAcceptedIff(sig: Bytes, r: Scalar, key: Scalar, m: int, A: Bytes32, message: Bytes,
                             hash: Bytes -> Digest, b: CurvePoint)
    requires IsPrime(P) && IsPrime(L) && HasOrderL(b) && b != ZERO && IsSignature(sig, r, key, A, message, hash, b)
    ensures Accepts(sig, A, Scale(m, b), message, hash, b)
       <==> Cong(L, Challenge(hash, Encoding(Scale(r, b)), A, message) * (key - m), 0)
  {
    var k := Challenge(hash, Encoding(Scale(r, b)), A, message);
    AcceptsIsEquation(sig, r, key, m, A, message, hash, b);
    AddsNothing(Scale(k * (key - m), b), Scale(r, b));
    ScaleVanishes(k * (key - m), b);
  }

  /** Every signature made with a key verifies under the public key of that key. */
  lemma SignedIsAccepted(sig: Bytes, r: Scalar, key: Scalar, A: Bytes32, message: Bytes, hash: Bytes -> Digest,
                         b: CurvePoint)
    requires IsPrime(P) && HasOrderL(b) && IsSignature(sig, r, key, A, message, hash, b)
    ensures Accepts(sig, A, Scale(key, b), message, hash, b)
  {
    var k := Challenge(hash, Encoding(Scale(r, b)), A, message);
    AcceptsIsEquation(sig, r, key, key, A, message, hash, b);
    assert k * (key - key) == 0;
    SmallMultiples(b);
    AddsNothing(ZERO, Scale(r, b));
  }

  lemma ChallengedDifference(k: nat, m: int, n: int)
    requires IsPrime(L) && k < L
    ensures Cong(L, k * (m - n), 0) <==> k == 0 || Cong(L, m, n)
  {
    Product(L, k, m - n);
    Difference(L, m, n);
    SmallRemainder(L, k);
    SmallRemainder(L, 0);
  }

  lemma SignatureLength(sig: Bytes, r: Scalar, key: Scalar, A: Bytes32, message: Bytes, hash: Bytes -> Digest,
                        b: CurvePoint)
    requires IsPrime(P) && IsSignature(sig, r, key, A, message, hash, b)
    ensures |sig| == 64
  {
    assert |Spell32(Encoding(Scale(r, b)))| == 32;
  }

  /** A keypair signs with the expansion of its secret key. */
  method SignWithKeypair(secret: Bytes, pk: PublicKey, message: Bytes, hash: Bytes -> Digest,
                         tables: seq<seq<AffineNielsPoint>>, ghost b: CurvePoint)
    returns (sig: Bytes)
    requires IsPrime(P) && |tables| == 32 && IsBasepointTable(tables, b)
    ensures IsSignature(sig, HashScalar(hash, hash(secret)[32..] + message), Clamp(Read32(hash(secret)[..32])),
                        pk.compressed, message, hash, b)
  {
    var expanded := Expand(hash(secret));
    sig := Sign(expanded, message, pk, hash, tables, b);
  }

  /**
    From the bytes of a secret key to acceptance: the public key is derived, the secret key is expanded, the
    message is signed, and the signature is verified. The last step never fails.
  */
  method SignThenVerify(secret: Bytes, message: Bytes, hash: Bytes -> Digest, tables: seq<seq<AffineNielsPoint>>,
                        tableB: seq<AffineNielsPoint>, ghost b: CurvePoint)
    returns (sig: Bytes, result: Result<(), SignatureError>)
    requires IsPrime(P) && HasOrderL(b) && |tables| == 32 && IsBasepointTable(tables, b)
    requires |tableB| == 64 && IsAffineOddTable(tableB, b)
    ensures |sig| == 64 && result.Ok?
  {
    ghost var key := Clamp(Read32(hash(secret)[..32]));
    var pk := PublicKeyOfSecret(secret, hash, tables, b);
    sig := SignWithKeypair(secret, pk, message, hash, tables, b);
    ClampContract(Read32(hash(secret)[..32]));
    SignatureLength(sig, HashScalar(hash, hash(secret)[32..] + message), key, pk.compressed, message, hash, b);
    SignedIsAccepted(sig, HashScalar(hash, hash(secret)[32..] + message), key, pk.compressed, message, hash, b);
    result := Verify(pk, message, sig, hash, tableB, Scale(key, b), b);
  }

  /**
    The public key of an expanded key is derived by clamping its scalar again: a signature made with the
    key verifies under it exactly when clamping keeps the scalar modulo l, or the challenge is zero.
  */
  lemma ExpandedKeyAcceptedIff(sig: Bytes, r: Scalar, key: Scalar, A: Bytes32, message: Bytes, hash: Bytes -> Digest,
                               b: CurvePoint)
    requires IsPrime(P) && IsPrime(L) && HasOrderL(b) && b != ZERO && IsSignature(sig, r, key, A, message, hash, b)
    ensures Accepts(sig, A, Scale(Clamp(key), b), message, hash, b)
       <==> Challenge(hash, Encoding(Scale(r, b)), A, message) == 0 || Cong(L, key, Clamp(key))
  {
    var k := Challenge(hash, Encoding(Scale(r, b)), A, message);
    SignatureAcceptedIff(sig, r, key, Clamp(key), A, message, hash, b);
    ChallengedDifference(k, key, Clamp(key));
  }

  lemma ClampOfOne()
    ensures !Cong(L, 1, Clamp(1))
  {
    var r := Clamp(1) - 3 * L;
    SmallRemainder(L, r);
    SmallRemainder(L, 1);
    MultipleIsZero(L, 3);
    Add(L, r, r, 3 * L, 0);
  }

  /**
    An expanded key that is not clamped need not match the public key that is derived from it: under
    the key 1, no message with a nonzero challenge has a signature that verifies, for any hash function.
  */
  lemma UnclampedKeyIsRejected(sig: Bytes, r: Scalar, A: Bytes32, message: Bytes, hash: Bytes -> Digest, b: CurvePoint)
    requires IsPrime(P) && IsPrime(L) && HasOrderL(b) && b != ZERO && IsSignature(sig, r, 1, A, message, hash, b)
    requires Challenge(hash, Encoding(Scale(r, b)), A, message) != 0
    ensures !Accepts(sig, A, Scale(Clamp(1), b), message, hash, b)
  {
    ClampOfOne();
    ExpandedKeyAcceptedIff(sig, r, 1, A, message, hash, b);
  }

  // What acceptance means, in terms of the strings and of the hash function.

  /** r = s b - k a, moved to the side of the scalar. */
  lemma MovedKey(r: CurvePoint, k: int, a: CurvePoint, s: int, b: CurvePoint)
    requires IsPrime(P)
    ensures r == Combine2(k, Negate(a), s, b) <==> Scale(s, b) == Sum(r, Scale(k, a))
  {
    var ka, sb, c := Scale(k, a), Scale(s, b), Combine2(k, Negate(a), s, b);
    SmallMultiples(a);
    NegateMultiple(1, a);
    NestMultiples(k, -1, a);
    assert k * -1 == -k;
    assert c == Sum(Scale(-k, a), sb);
    SumCommutes(Scale(-k, a), sb);
    SumAssociates(sb, Scale(-k, a), ka);
    AddMultiples(-k, k, a);
    SumZero(sb);
    if sb == Sum(r, ka) {
      SumCommutes(r, ka);
      SumCommutes(c, ka);
      CancelSum(ka, r, c);
    }
  }

  /** What decoding gives, in terms of the bytes. */
  lemma DecodedBytes(sig: Bytes)
    ensures SignatureFromBytes(sig).Ok? <==> |sig| == 64 && Read32(sig[32..]) < L
    ensures |sig| == 64 && Read32(sig[32..]) < L
        ==> SignatureFromBytes(sig) == Ok(InternalSignature(Read32(sig[..32]), Read32(sig[32..])))
            && Spell32(Read32(sig[..32])) == sig[..32]
  {
    if |sig| == 64 {
      CheckScalarContract(sig[32..]);
      RoundTrip32(0, sig[..32]);
    }
  }

  /**
    S B = R + k A for the canonically encoded R, where k is the hash of the three strings (section 5.1.7 of
    RFC 8032).
  */
  ghost predicate EquationHolds(R: Bytes, s: int, A: Bytes, a: CurvePoint, message: Bytes, hash: Bytes -> Digest,
                                b: CurvePoint)
    requires IsPrime(P) && |R| == 32
  {
    exists r: CurvePoint :: Encoding(r) == Read32(R)
      && Scale(s, b) == Sum(r, Scale(Remainder(L, LittleEndian(hash(R + A + message))), a))
  }

  /**
    A string is accepted exactly when it is R and a reduced scalar s, of 32 bytes each, that satisfy the
    equation.
  */
  lemma AcceptsIff(sig: Bytes, A: Bytes32, a: CurvePoint, message: Bytes, hash: Bytes -> Digest, b: CurvePoint)
    requires IsPrime(P)
    ensures Accepts(sig, A, a, message, hash, b)
       <==> && |sig| == 64 && LittleEndian(sig[32..]) < L
            && EquationHolds(sig[..32], LittleEndian(sig[32..]), Spell32(A), a, message, hash, b)
  {
    DecodedBytes(sig);
    if |sig| == 64 && Read32(sig[32..]) < L {
      var R, s := sig[..32], Read32(sig[32..]);
      var k := Remainder(L, LittleEndian(hash(R + Spell32(A) + message)));
      assert k == Challenge(hash, Read32(R), A, message);
      var c := Combine2(k, Negate(a), s, b);
      MovedKey(c, k, a, s, b);
      forall r: CurvePoint | Encoding(r) == Read32(R) && Scale(s, b) == Sum(r, Scale(k, a))
        ensures r == c
      {
        MovedKey(r, k, a, s, b);
      }
    }
  }

  lemma BoundChallenge(k: int, k': int, key: int, b: CurvePoint)
    requires IsPrime(P) && IsPrime(L) && HasOrderL(b) && b != ZERO && !Cong(L, key, 0)
    ensures Scale((k - k') * key, b) == ZERO <==> Cong(L, k, k')
  {
    ScaleVanishes((k - k') * key, b);
    Product(L, k - k', key);
    Difference(L, k, k');
  }

  lemma ShiftedPoint(k: int, k': int, key: int, r: int, s: int, b: CurvePoint)
    requires IsPrime(P) && HasOrderL(b) && Cong(L, s, k * key + r)
    ensures Combine2(k', Negate(Scale(key, b)), s, b) == Sum(Scale((k - k') * key, b), Scale(r, b))
  {
    NegateMultiple(key, b);
    NestMultiples(k', -key, b);
    ScaleModulo(s, k * key + r, b);
    AddMultiples(k' * -key, k * key + r, b);
    AddMultiples((k - k') * key, r, b);
    assert k' * -key + (k * key + r) == (k - k') * key + r;
  }

  /**
    A signature is bound to its message and to its public key: for another message or another string for the
    key it is accepted exactly when the hashes agree modulo l.
  */
  lemma SignatureIsBound(sig: Bytes, r: Scalar, key: Scalar, A: Bytes32, m: Bytes, A': Bytes32, m': Bytes,
                         hash: Bytes -> Digest, b: CurvePoint)
    requires IsPrime(P) && IsPrime(L) && HasOrderL(b) && b != ZERO && !Cong(L, key, 0)
    requires IsSignature(sig, r, key, A, m, hash, b)
    ensures var R := Spell32(Encoding(Scale(r, b)));
            var h, h' := LittleEndian(hash(R + Spell32(A) + m)), LittleEndian(hash(R + Spell32(A') + m'));
            Accepts(sig, A', Scale(key, b), m', hash, b) <==> Cong(L, h, h')
  {
    var R := Encoding(Scale(r, b));
    var k, k' := Challenge(hash, R, A, m), Challenge(hash, R, A', m');
    var s := DecodedScalar(sig, r, key, A, m, hash, b);
    SmallRemainder(L, k);
    SmallRemainder(L, k');
    BoundChallenge(k, k', key, b);
    ShiftedPoint(k, k', key, r, s, b);
    AddsNothing(Scale((k - k') * key, b), Scale(r, b));
    EncodingInjective(Combine2(k', Negate(Scale(key, b)), s, b), Scale(r, b));
  }

  lemma ScaleInjective(m: int, n: int, b: CurvePoint)
    requires IsPrime(P) && IsPrime(L) && HasOrderL(b) && b != ZERO
    ensures Scale(m, b) == Scale(n, b) <==> Cong(L, m, n)
  {
    if Cong(L, m, n) {
      ScaleModulo(m, n, b);
    } else if Scale(m, b) == Scale(n, b) {
      AddMultiples(m, -n, b);
      AddMultiples(n, -n, b);
      SmallMultiples(b);
      ScaleVanishes(m - n, b);
      Difference(L, m, n);
    }
  }

  lemma SameScalar(s: nat, s': nat, r: CurvePoint, r': CurvePoint, c: CurvePoint, b: CurvePoint)
    requires IsPrime(P) && IsPrime(L) && HasOrderL(b) && b != ZERO && s < L && s' < L
    requires Encoding(r) == Encoding(r') && Scale(s, b) == Sum(r, c) && Scale(s', b) == Sum(r', c)
    ensures s == s'
  {
    EncodingInjective(r, r');
    ScaleInjective(s, s', b);
    SmallRemainder(L, s);
    SmallRemainder(L, s');
  }

  lemma AcceptedPoint(sig: Bytes, A: Bytes32, a: CurvePoint, message: Bytes, hash: Bytes -> Digest, b: CurvePoint)
    returns (r: CurvePoint)
    requires IsPrime(P) && Accepts(sig, A, a, message, hash, b)
    ensures |sig| == 64 && LittleEndian(sig[32..]) < L && Encoding(r) == Read32(sig[..32])
    ensures Scale(LittleEndian(sig[32..]), b) == Sum(r, Scale(Challenge(hash, Read32(sig[..32]), A, message), a))
  {
    DecodedBytes(sig);
    var k, s := Challenge(hash, Read32(sig[..32]), A, message), Read32(sig[32..]);
    r := Combine2(k, Negate(a), s, b);
    MovedKey(r, k, a, s, b);
  }

  /** For each R, public key and message, at most one scalar is accepted. */
  lemma ScalarIsUnique(sig: Bytes, sig': Bytes, A: Bytes32, a: CurvePoint, message: Bytes, hash: Bytes -> Digest,
                       b: CurvePoint)
    requires IsPrime(P) && IsPrime(L) && HasOrderL(b) && b != ZERO
    requires Accepts(sig, A, a, message, hash, b) && Accepts(sig', A, a, message, hash, b) && sig[..32] == sig'[..32]
    ensures sig == sig'
  {
    var r := AcceptedPoint(sig, A, a, message, hash, b);
    var r' := AcceptedPoint(sig', A, a, message, hash, b);
    var k := Challenge(hash, Read32(sig[..32]), A, message);
    SameScalar(LittleEndian(sig[32..]), LittleEndian(sig'[32..]), r, r', Scale(k, a), b);
    RoundTrip32(0, sig[32..]);
    RoundTrip32(0, sig'[32..]);
    assert sig == sig[..32] + sig[32..] && sig' == sig'[..32] + sig'[32..];
  }

  lemma FirstHalf(sig: Bytes, r: Scalar, key: Scalar, A: Bytes32, message: Bytes, hash: Bytes -> Digest, b: CurvePoint)
    requires IsPrime(P) && IsSignature(sig, r, key, A, message, hash, b)
    ensures |sig| == 64 && sig[..32] == Spell32(Encoding(Scale(r, b)))
  {
    SignatureLength(sig, r, key, A, message, hash, b);
  }

  lemma SpelledEncoding(a: CurvePoint, a': CurvePoint)
    requires IsPrime(P)
    ensures Spell32(Encoding(a)) == Spell32(Encoding(a')) <==> a == a'
  {
    RoundTrip32(Encoding(a), []);
    RoundTrip32(Encoding(a'), []);
    EncodingInjective(a, a');
  }

  lemma HashScalarIs(hash: Bytes -> Digest, input: Bytes)
    ensures Cong(L, HashScalar(hash, input), LittleEndian(hash(input)))
  {
    Residue(L, LittleEndian(hash(input)));
  }

  /**
    The nonce of a signature is bound to the message: two messages are signed with the same R exactly when
    their hashes with the nonce of the key agree modulo l.
  */
  lemma NonceIsBound(sig: Bytes, sig': Bytes, nonce: Bytes, key: Scalar, A: Bytes32, m: Bytes, m': Bytes,
                     hash: Bytes -> Digest, b: CurvePoint)
    requires IsPrime(P) && IsPrime(L) && HasOrderL(b) && b != ZERO
    requires IsSignature(sig, HashScalar(hash, nonce + m), key, A, m, hash, b)
    requires IsSignature(sig', HashScalar(hash, nonce + m'), key, A, m', hash, b)
    ensures |sig| == 64 == |sig'|
    ensures sig[..32] == sig'[..32] <==> Cong(L, LittleEndian(hash(nonce + m)), LittleEndian(hash(nonce + m')))
  {
    var r, r' := HashScalar(hash, nonce + m), HashScalar(hash, nonce + m');
    FirstHalf(sig, r, key, A, m, hash, b);
    FirstHalf(sig', r', key, A, m', hash, b);
    SpelledEncoding(Scale(r, b), Scale(r', b));
    ScaleInjective(r, r', b);
    HashScalarIs(hash, nonce + m);
    HashScalarIs(hash, nonce + m');
  }
}
