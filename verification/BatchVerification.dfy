/** Verification of many signatures by one multiscalar multiplication. */
module BatchVerification {
  import opened Congruence
  import opened Primes
  import opened Field
  import opened Options
  import opened Edwards
  import opened EdwardsGroup
  import opened CurveModels
  import opened Recoding
  import opened Montgomery
  import opened ScalarMul
  import opened Multiscalar
  import opened LinearCombinations
  import opened Straus
  import opened Pippenger
  import opened ByteStrings
  import opened ScalarArithmetic
  import opened Signatures
  import opened Signing

  /** A message, a signature and a public key, with the point of the key. */
  datatype Signed = Signed(message: Bytes, sig: InternalSignature, key: PublicKey)

  // The coefficients.

  function Hram(hash: Bytes -> Digest, i: Signed): (k: Scalar)
    ensures k < L
  {
    Challenge(hash, i.sig.R, i.key.compressed, i.message)
  }

  /** The products z s, with a counter as in Congruence.RemainderAt. */
  ghost function ProductsAt(batch: seq<Signed>, zs: seq<Scalar>, k: nat): (ts: seq<int>)
    requires |zs| == |batch|
    ensures |ts| == |batch|
    decreases batch, zs, k
  {
    if k > 0 then ProductsAt(batch, zs, k - 1)
    else seq(|batch|, i requires 0 <= i < |batch| => zs[i] * batch[i].sig.s)
  }

  ghost function Products(batch: seq<Signed>, zs: seq<Scalar>): (ts: seq<int>)
    requires |zs| == |batch|
    ensures |ts| == |batch|
  {
    ProductsAt(batch, zs, 3)
  }

  lemma ProductsAre(batch: seq<Signed>, zs: seq<Scalar>, i: nat)
    requires |zs| == |batch| && i < |batch|
    ensures Products(batch, zs)[i] == zs[i] * batch[i].sig.s
  {
    assert ProductsAt(batch, zs, 1) == ProductsAt(batch, zs, 0);
    assert ProductsAt(batch, zs, 2) == ProductsAt(batch, zs, 1);
  }

  /** The sum of the first n integers. */
  ghost function Total(ts: seq<int>, n: nat): int
    requires n <= |ts|
  {
    if n == 0 then 0 else Total(ts, n - 1) + ts[n - 1]
  }

  /** The products of the z with the hashes, modulo l. */
  ghost predicate AreKeyCoefficients(cs: seq<int>, batch: seq<Signed>, zs: seq<Scalar>, hash: Bytes -> Digest) {
    |cs| <= |batch| && |cs| <= |zs| && forall i :: 0 <= i < |cs| ==> cs[i] == Remainder(L, Hram(hash, batch[i]) * zs[i])
  }

  method Multiply(a: Scalar, b: Scalar) returns (c: Scalar)
    ensures c == Remainder(L, a * b)
  {
    MultiplyScalarsContract(a, b);
    c := MultiplyScalars(a, b);
  }

  method AddTo(sum: Scalar, a: Scalar, ghost m: int, ghost n: int) returns (c: Scalar)
    requires Cong(L, sum, m) && a == Remainder(L, n)
    ensures Cong(L, c, m + n)
  {
    AddScalarsContract(sum, a);
    c := AddScalars(sum, a);
    Residue(L, n);
    Residue(L, sum + a);
    Add(L, sum, m, a, n);
  }

  method Negated(a: Scalar, ghost n: int) returns (c: Scalar)
    requires Cong(L, a, n)
    ensures c == Remainder(L, -n)
  {
    NegateScalarContract(a);
    c := NegateScalar(a);
    Add(L, c + a, 0, a, n);
    CanonicalResidue(c, -n);
  }

  /** The coefficient of the base point: the sum of the z s, negated. */
  method BasepointCoefficient(batch: seq<Signed>, zs: seq<Scalar>) returns (c: Scalar)
    requires |zs| == |batch|
    ensures c == Remainder(L, -Total(Products(batch, zs), |batch|))
  {
    ghost var ts := Products(batch, zs);
    var sum: Scalar := 0;
    for i := 0 to |batch|
      invariant Cong(L, sum, Total(ts, i))
    {
      ProductsAre(batch, zs, i);
      var product := Multiply(zs[i], batch[i].sig.s);
      sum := AddTo(sum, product, Total(ts, i), ts[i]);
    }
    c := Negated(sum, Total(ts, |batch|));
  }

  method KeyCoefficients(batch: seq<Signed>, zs: seq<Scalar>, hash: Bytes -> Digest) returns (cs: seq<Scalar>)
    requires |zs| == |batch|
    ensures |cs| == |batch| && AreKeyCoefficients(cs, batch, zs, hash)
  {
    cs := [];
    for i := 0 to |batch|
      invariant |cs| == i && AreKeyCoefficients(cs, batch, zs, hash)
    {
      var s := batch[i];
      var hram := FromHash(hash, Spell32(s.sig.R) + Spell32(s.key.compressed) + s.message);
      var product := Multiply(hram, zs[i]);
      cs := cs + [product];
    }
  }

  // The points.

  function Rs(batch: seq<Signed>): (ps: seq<Option<EdwardsPoint>>)
    ensures |ps| == |batch| && forall i :: 0 <= i < |batch| ==> ps[i] == Decompress(batch[i].sig.R)
  {
    seq(|batch|, i requires 0 <= i < |batch| => Decompress(batch[i].sig.R))
  }

  function As(batch: seq<Signed>): (ps: seq<Option<EdwardsPoint>>)
    ensures |ps| == |batch| && forall i :: 0 <= i < |batch| ==> ps[i] == Some(batch[i].key.point)
  {
    seq(|batch|, i requires 0 <= i < |batch| => Some(batch[i].key.point))
  }

  lemma SomePoint(p: EdwardsPoint)
    requires IsPrime(P) && IsValid(p)
    ensures exists a: CurvePoint :: Extends(p, a)
  {
    var a := ValidDenotes(p);
  }

  /** The point of the curve that a string encodes; the identity if it encodes none. */
  ghost function Decoded(c: Bytes32): (a: CurvePoint)
    requires IsPrime(P)
    ensures Decompress(c).Some? ==> Extends(Decompress(c).value, a)
  {
    if Decompress(c).Some? then
      DecompressContract(c);
      SomePoint(Decompress(c).value);
      var a: CurvePoint :| Extends(Decompress(c).value, a);
      a
    else ZERO
  }

  ghost function DecodedRs(batch: seq<Signed>): (rs: seq<CurvePoint>)
    requires IsPrime(P)
    ensures |rs| == |batch| && forall i :: 0 <= i < |batch| ==> rs[i] == Decoded(batch[i].sig.R)
  {
    seq(|batch|, i requires 0 <= i < |batch| => Decoded(batch[i].sig.R))
  }

  ghost predicate KeysDenote(batch: seq<Signed>, ks: seq<CurvePoint>) {
    |ks| == |batch| && forall i :: 0 <= i < |batch| ==> Extends(batch[i].key.point, ks[i])
  }

  // The verification.

  ghost predicate AllDecode(batch: seq<Signed>) {
    forall i :: 0 <= i < |batch| ==> Decompress(batch[i].sig.R).Some?
  }

  /** The z H(R, A, M), modulo l; with a counter as in Congruence.RemainderAt. */
  ghost function KeyProductsAt(batch: seq<Signed>, zs: seq<Scalar>, hash: Bytes -> Digest, k: nat): (cs: seq<int>)
    requires |zs| == |batch|
    ensures |cs| == |batch|
    decreases batch, zs, k
  {
    if k > 0 then KeyProductsAt(batch, zs, hash, k - 1)
    else seq(|batch|, i requires 0 <= i < |batch| => Remainder(L, Hram(hash, batch[i]) * zs[i]))
  }

  ghost function KeyProducts(batch: seq<Signed>, zs: seq<Scalar>, hash: Bytes -> Digest): (cs: seq<int>)
    requires |zs| == |batch|
    ensures |cs| == |batch|
  {
    KeyProductsAt(batch, zs, hash, 3)
  }

  lemma KeyProductsAre(batch: seq<Signed>, zs: seq<Scalar>, hash: Bytes -> Digest)
    requires |zs| == |batch|
    ensures AreKeyCoefficients(KeyProducts(batch, zs, hash), batch, zs, hash)
  {
    assert KeyProductsAt(batch, zs, hash, 1) == KeyProductsAt(batch, zs, hash, 0);
    assert KeyProductsAt(batch, zs, hash, 2) == KeyProductsAt(batch, zs, hash, 1);
  }

  /** c b + sum of z R + sum of the coefficients times the keys. */
  ghost function BatchPoint(c: int, cs: seq<int>, batch: seq<Signed>, zs: seq<Scalar>, ks: seq<CurvePoint>,
                            b: CurvePoint): CurvePoint
    requires IsPrime(P) && |zs| == |batch| == |ks| == |cs|
  {
    Sum(Scale(c, b), Sum(Combination(zs, DecodedRs(batch), |zs|), Combination(cs, ks, |zs|)))
  }

  /** Minus the sum of the z s, modulo l; with a counter as in Congruence.RemainderAt. */
  ghost function BaseFactorAt(batch: seq<Signed>, zs: seq<Scalar>, k: nat): int
    requires |zs| == |batch|
    decreases batch, zs, k
  {
    if k > 0 then BaseFactorAt(batch, zs, k - 1) else Remainder(L, -Total(Products(batch, zs), |batch|))
  }

  ghost function BaseFactor(batch: seq<Signed>, zs: seq<Scalar>): int
    requires |zs| == |batch|
  {
    BaseFactorAt(batch, zs, 3)
  }

  lemma BaseFactorIs(batch: seq<Signed>, zs: seq<Scalar>)
    requires |zs| == |batch|
    ensures BaseFactor(batch, zs) == Remainder(L, -Total(Products(batch, zs), |batch|))
  {
    assert BaseFactorAt(batch, zs, 1) == BaseFactorAt(batch, zs, 0);
    assert BaseFactorAt(batch, zs, 2) == BaseFactorAt(batch, zs, 1);
  }

  /** The equation of the batch: all R decode, and -(sum of z s) b + sum of z R + sum of z H(R, A, M) A = 0. */
  ghost predicate BatchAccepts(batch: seq<Signed>, zs: seq<Scalar>, hash: Bytes -> Digest, ks: seq<CurvePoint>,
                               b: CurvePoint)
    requires IsPrime(P) && |zs| == |batch| == |ks|
  {
    && AllDecode(batch)
    && BatchPoint(BaseFactor(batch, zs), KeyProducts(batch, zs, hash), batch, zs, ks, b) == ZERO
  }

  predicate IsBatch(batch: seq<Signed>, messages: seq<Bytes>, signatures: seq<Bytes>, keys: seq<PublicKey>) {
    && |batch| == |messages| == |signatures| == |keys|
    && forall i :: 0 <= i < |batch|
        ==> SignatureFromBytes(signatures[i]).Ok?
            && batch[i] == Signed(messages[i], SignatureFromBytes(signatures[i]).value, keys[i])
  }

  predicate AllDecodable(signatures: seq<Bytes>) {
    forall i :: 0 <= i < |signatures| ==> SignatureFromBytes(signatures[i]).Ok?
  }

  predicate IsFirstError(signatures: seq<Bytes>, i: nat) {
    i < |signatures| && SignatureFromBytes(signatures[i]).Err? && AllDecodable(signatures[..i])
  }

  ghost predicate IsFirstErrorOf(signatures: seq<Bytes>, error: SignatureError) {
    exists i: nat :: IsFirstError(signatures, i) && error == SignatureFromBytes(signatures[i]).error
  }

  /** All signatures as decoded, or the first error. */
  method DecodeAll(messages: seq<Bytes>, signatures: seq<Bytes>, keys: seq<PublicKey>)
    returns (batch: Result<seq<Signed>, SignatureError>)
    requires |messages| == |signatures| == |keys|
    ensures batch.Ok? <==> AllDecodable(signatures)
    ensures batch.Ok? ==> IsBatch(batch.value, messages, signatures, keys)
    ensures batch.Err? ==> IsFirstErrorOf(signatures, batch.error)
  {
    var s := [];
    for i := 0 to |signatures|
      invariant IsBatch(s, messages[..i], signatures[..i], keys[..i])
    {
      var sig := SignatureFromBytes(signatures[i]);
      if sig.Err? {
        assert IsFirstError(signatures, i);
        return Err(sig.error);
      }
      s := s + [Signed(messages[i], sig.value, keys[i])];
    }
    assert messages[..|messages|] == messages && signatures[..|messages|] == signatures && keys[..|messages|] == keys;
    batch := Ok(s);
  }

  lemma DenoteAppend(ps: seq<Option<EdwardsPoint>>, qs: seq<Option<EdwardsPoint>>, rs: seq<CurvePoint>,
                     ss: seq<CurvePoint>)
    requires Denote(ps, rs) && Denote(qs, ss)
    ensures Denote(ps + qs, rs + ss) && (AllPresent(ps + qs) <==> AllPresent(ps) && AllPresent(qs))
  {
    if AllPresent(ps + qs) {
      forall k | 0 <= k < |ps|
        ensures ps[k].Some?
      {
        assert (ps + qs)[k] == ps[k];
      }
      forall k | 0 <= k < |qs|
        ensures qs[k].Some?
      {
        assert (ps + qs)[|ps| + k] == qs[k];
      }
    }
  }

  lemma PointsDenote(batch: seq<Signed>, B: EdwardsPoint, ks: seq<CurvePoint>, b: CurvePoint)
    requires IsPrime(P) && KeysDenote(batch, ks) && Extends(B, b)
    ensures var points := ([Some(B)] + Rs(batch)) + As(batch);
            Denote(points, ([b] + DecodedRs(batch)) + ks) && (AllPresent(points) <==> AllDecode(batch))
  {
    assert Denote([Some(B)], [b]) && AllPresent([Some(B)]);
    assert Denote(Rs(batch), DecodedRs(batch)) && (AllPresent(Rs(batch)) <==> AllDecode(batch));
    assert Denote(As(batch), ks) && AllPresent(As(batch));
    DenoteAppend([Some(B)], Rs(batch), [b], DecodedRs(batch));
    DenoteAppend([Some(B)] + Rs(batch), As(batch), [b] + DecodedRs(batch), ks);
  }

  lemma CombinationLast(ns: seq<int>, ps: seq<CurvePoint>, n: nat, m: int, q: CurvePoint)
    requires IsPrime(P) && 0 < n <= |ns| && n <= |ps| && ns[n - 1] == m && ps[n - 1] == q
    ensures Combination(ns, ps, n) == Sum(Combination(ns, ps, n - 1), Scale(m, q))
  {}

  lemma {:induction false} CombinationPrefix(ns: seq<int>, ms: seq<int>, ps: seq<CurvePoint>, qs: seq<CurvePoint>,
                                             n: nat)
    requires IsPrime(P) && |ns| == |ps| && n <= |ns|
    ensures Combination(ns + ms, ps + qs, n) == Combination(ns, ps, n)
  {
    if n > 0 {
      CombinationPrefix(ns, ms, ps, qs, n - 1);
    }
  }

  lemma {:induction false} CombinationAppend(ns: seq<int>, ms: seq<int>, ps: seq<CurvePoint>, qs: seq<CurvePoint>,
                                             n: nat)
    requires IsPrime(P) && |ns| == |ps| && n <= |ms| && n <= |qs|
    ensures Combination(ns + ms, ps + qs, |ns| + n) == Sum(Combination(ns, ps, |ns|), Combination(ms, qs, n))
  {
    if n == 0 {
      CombinationPrefix(ns, ms, ps, qs, |ns|);
      SumZero(Combination(ns, ps, |ns|));
    } else {
      CombinationAppend(ns, ms, ps, qs, n - 1);
      CombinationLast(ns + ms, ps + qs, |ns| + n, ms[n - 1], qs[n - 1]);
      SumAssociates(Combination(ns, ps, |ns|), Combination(ms, qs, n - 1), Scale(ms[n - 1], qs[n - 1]));
    }
  }

  lemma OneTerm(c: int, b: CurvePoint)
    requires IsPrime(P)
    ensures Combination([c], [b], |[c]|) == Scale(c, b)
  {
    var ns, ps := [c], [b];
    assert Combination(ns, ps, 1) == Sum(Combination(ns, ps, 0), Scale(ns[0], ps[0]));
    SumZero(Scale(c, b));
  }

  lemma SplitFirst(c: int, zs: seq<int>, b: CurvePoint, rs: seq<CurvePoint>)
    requires IsPrime(P) && |zs| == |rs|
    ensures var ns, ps := [c] + zs, [b] + rs; Combination(ns, ps, |ns|) == Sum(Scale(c, b), Combination(zs, rs, |zs|))
  {
    CombinationAppend([c], zs, [b], rs, |zs|);
    OneTerm(c, b);
  }

  lemma SplitBatch(c: int, zs: seq<int>, cs: seq<int>, b: CurvePoint, rs: seq<CurvePoint>, ks: seq<CurvePoint>)
    requires IsPrime(P) && |zs| == |rs| == |cs| == |ks|
    ensures Combination(([c] + zs) + cs, ([b] + rs) + ks, |(([b] + rs) + ks)|)
         == Sum(Scale(c, b), Sum(Combination(zs, rs, |zs|), Combination(cs, ks, |zs|)))
  {
    var ns, ps := [c] + zs, [b] + rs;
    CombinationAppend(ns, cs, ps, ks, |zs|);
    assert |ns| + |zs| == |ps + ks|;
    SplitFirst(c, zs, b, rs);
    SumAssociates(Scale(c, b), Combination(zs, rs, |zs|), Combination(cs, ks, |zs|));
  }

  /** The combination of a batch, by one multiscalar multiplication. */
  method BatchCombination(batch: seq<Signed>, c: Scalar, cs: seq<Scalar>, zs: seq<Scalar>, B: EdwardsPoint,
                          ghost ks: seq<CurvePoint>, ghost b: CurvePoint)
    returns (id: Option<EdwardsPoint>)
    requires IsPrime(P) && |zs| == |batch| == |cs| && KeysDenote(batch, ks) && Extends(B, b)
    ensures id.Some? <==> AllDecode(batch)
    ensures id.Some? ==> Extends(id.value, BatchPoint(c, cs, batch, zs, ks, b))
  {
    var points := ([Some(B)] + Rs(batch)) + As(batch);
    ghost var ps := ([b] + DecodedRs(batch)) + ks;
    PointsDenote(batch, B, ks, b);
    SplitBatch(c, zs, cs, b, DecodedRs(batch), ks);
    id := OptionalMultiscalarMul(([c] + zs) + cs, points, ps);
  }

  method IsIdentity(p: EdwardsPoint, ghost a: CurvePoint) returns (ok: bool)
    requires IsPrime(P) && Extends(p, a)
    ensures ok <==> a == ZERO
  {
    CtEqIsEquality(p, a, IDENTITY, ZERO);
    ok := CtEq(p, IDENTITY);
  }

  method IsIdentityCombination(batch: seq<Signed>, c: Scalar, cs: seq<Scalar>, zs: seq<Scalar>, B: EdwardsPoint,
                               ghost ks: seq<CurvePoint>, ghost b: CurvePoint)
    returns (ok: bool)
    requires IsPrime(P) && |zs| == |batch| == |cs| && KeysDenote(batch, ks) && Extends(B, b)
    ensures ok <==> AllDecode(batch) && BatchPoint(c, cs, batch, zs, ks, b) == ZERO
  {
    var id := BatchCombination(batch, c, cs, zs, B, ks, b);
    if id.None? {
      return false;
    }
    ok := IsIdentity(id.value, BatchPoint(c, cs, batch, zs, ks, b));
  }

  lemma SameCoefficients(cs: seq<int>, batch: seq<Signed>, zs: seq<Scalar>, hash: Bytes -> Digest)
    requires |zs| == |batch| == |cs| && AreKeyCoefficients(cs, batch, zs, hash)
    ensures cs == KeyProducts(batch, zs, hash)
  {
    KeyProductsAre(batch, zs, hash);
  }

  /** Whether the combination is the identity. */
  method CheckBatch(batch: seq<Signed>, zs: seq<Scalar>, hash: Bytes -> Digest, B: EdwardsPoint,
                    ghost ks: seq<CurvePoint>, ghost b: CurvePoint)
    returns (ok: bool)
    requires IsPrime(P) && |zs| == |batch| && KeysDenote(batch, ks) && Extends(B, b)
    ensures ok <==> BatchAccepts(batch, zs, hash, ks, b)
  {
    var c := BasepointCoefficient(batch, zs);
    var cs := KeyCoefficients(batch, zs, hash);
    BaseFactorIs(batch, zs);
    SameCoefficients(cs, batch, zs, hash);
    ok := IsIdentityCombination(batch, c, cs, zs, B, ks, b);
  }

  lemma BatchIsUnique(batch: seq<Signed>, messages: seq<Bytes>, signatures: seq<Bytes>, keys: seq<PublicKey>)
    requires IsBatch(batch, messages, signatures, keys)
    ensures forall other :: IsBatch(other, messages, signatures, keys) ==> other == batch
  {}

  /** Accepts exactly the batches whose strings decode and whose equation holds. */
  method VerifyBatch(messages: seq<Bytes>, signatures: seq<Bytes>, keys: seq<PublicKey>, zs: seq<Scalar>,
                     hash: Bytes -> Digest,
                     B: EdwardsPoint, ghost ks: seq<CurvePoint>, ghost b: CurvePoint)
    returns (result: Result<(), SignatureError>)
    requires IsPrime(P) && Extends(B, b) && |zs| == |signatures| && |ks| == |keys|
    requires forall i :: 0 <= i < |keys| ==> Extends(keys[i].point, ks[i])
    ensures result.Ok?
            <==> exists batch :: IsBatch(batch, messages, signatures, keys) && BatchAccepts(batch, zs, hash, ks, b)
    ensures !(|messages| == |signatures| == |keys|) ==> result == Err(ArrayLengthError)
    ensures |messages| == |signatures| == |keys| && result.Err? ==>
              if AllDecodable(signatures) then result.error == VerifyError else IsFirstErrorOf(signatures, result.error)
  {
    if |signatures| != |messages| || |signatures| != |keys| || |keys| != |messages| {
      return Err(ArrayLengthError);
    }
    var decoded := DecodeAll(messages, signatures, keys);
    if decoded.Err? {
      return Err(decoded.error);
    }
    var ok := CheckBatch(decoded.value, zs, hash, B, ks, b);
    BatchIsUnique(decoded.value, messages, signatures, keys);
    result := if ok then Ok(()) else Err(VerifyError);
  }

  // What the equation of a batch means.

  /** r + k a - s b */
  ghost function Remaining(r: CurvePoint, k: int, a: CurvePoint, s: int, b: CurvePoint): CurvePoint
    requires IsPrime(P)
  {
    Sum(Sum(r, Scale(k, a)), Scale(-s, b))
  }

  /** R + k A - s B for one signature, where k is the hash of the three strings; with a counter as above. */
  ghost function DefectAt(i: Signed, a: CurvePoint, hash: Bytes -> Digest, b: CurvePoint, n: nat): CurvePoint
    requires IsPrime(P)
    decreases i, a, b, n
  {
    if n > 0 then DefectAt(i, a, hash, b, n - 1)
    else
      var k := Remainder(L, LittleEndian(hash(Spell32(i.sig.R) + Spell32(i.key.compressed) + i.message)));
      Remaining(Decoded(i.sig.R), k, a, i.sig.s, b)
  }

  ghost function Defect(i: Signed, a: CurvePoint, hash: Bytes -> Digest, b: CurvePoint): CurvePoint
    requires IsPrime(P)
  {
    DefectAt(i, a, hash, b, 3)
  }

  lemma DefectIs(i: Signed, a: CurvePoint, hash: Bytes -> Digest, b: CurvePoint)
    requires IsPrime(P)
    ensures Defect(i, a, hash, b) == Remaining(Decoded(i.sig.R), Hram(hash, i), a, i.sig.s, b)
  {
    assert DefectAt(i, a, hash, b, 1) == DefectAt(i, a, hash, b, 0);
    assert DefectAt(i, a, hash, b, 2) == DefectAt(i, a, hash, b, 1);
  }

  ghost function Defects(batch: seq<Signed>, hash: Bytes -> Digest, ks: seq<CurvePoint>, b: CurvePoint)
    : (ds: seq<CurvePoint>)
    requires IsPrime(P) && |ks| == |batch|
    ensures |ds| == |batch| && forall i :: 0 <= i < |batch| ==> ds[i] == Defect(batch[i], ks[i], hash, b)
  {
    seq(|batch|, i requires 0 <= i < |batch| => Defect(batch[i], ks[i], hash, b))
  }

  ghost predicate KeysHaveOrderL(ks: seq<CurvePoint>)
    requires IsPrime(P)
  {
    forall i :: 0 <= i < |ks| ==> HasOrderL(ks[i])
  }

  /** p + q - t b, with a counter as in Congruence.RemainderAt. */
  ghost function JointAt(p: CurvePoint, q: CurvePoint, t: int, b: CurvePoint, k: nat): CurvePoint
    requires IsPrime(P)
    decreases p, q, t, b, k
  {
    if k > 0 then JointAt(p, q, t, b, k - 1) else Sum(Sum(p, q), Scale(-t, b))
  }

  ghost function Joint(p: CurvePoint, q: CurvePoint, t: int, b: CurvePoint): CurvePoint
    requires IsPrime(P)
  {
    JointAt(p, q, t, b, 3)
  }

  lemma JointIs(p: CurvePoint, q: CurvePoint, t: int, b: CurvePoint)
    requires IsPrime(P)
    ensures Joint(p, q, t, b) == Sum(Sum(p, q), Scale(-t, b))
  {
    assert JointAt(p, q, t, b, 1) == JointAt(p, q, t, b, 0);
    assert JointAt(p, q, t, b, 2) == JointAt(p, q, t, b, 1);
  }

  /** The part of one signature in the combination is z d. */
  ghost predicate IsTerm(z: int, r: CurvePoint, c: int, a: CurvePoint, t: int, d: CurvePoint, b: CurvePoint)
    requires IsPrime(P)
  {
    Scale(z, d) == Joint(Scale(z, r), Scale(c, a), t, b)
  }

  lemma RemainingSum(z: int, k: int, s: int, r: CurvePoint, a: CurvePoint, b: CurvePoint)
    requires IsPrime(P) && HasOrderL(a)
    ensures Scale(z, Remaining(r, k, a, s, b))
         == Sum(Sum(Scale(z, r), Scale(Remainder(L, k * z), a)), Scale(-(z * s), b))
  {
    ScaleSum(z, Sum(r, Scale(k, a)), Scale(-s, b));
    ScaleSum(z, r, Scale(k, a));
    NestMultiples(z, k, a);
    NestMultiples(z, -s, b);
    Residue(L, k * z);
    ScaleModulo(Remainder(L, k * z), k * z, a);
    assert z * k == k * z && z * -s == -(z * s);
  }

  lemma RemainingTerm(z: int, k: int, s: int, r: CurvePoint, a: CurvePoint, b: CurvePoint)
    requires IsPrime(P) && HasOrderL(a)
    ensures IsTerm(z, r, Remainder(L, k * z), a, z * s, Remaining(r, k, a, s, b), b)
  {
    RemainingSum(z, k, s, r, a, b);
    JointIs(Scale(z, r), Scale(Remainder(L, k * z), a), z * s, b);
  }

  lemma AddJoint(p: CurvePoint, q: CurvePoint, t: int, p': CurvePoint, q': CurvePoint, t': int, b: CurvePoint)
    requires IsPrime(P)
    ensures Joint(Sum(p, p'), Sum(q, q'), t + t', b) == Sum(Joint(p, q, t, b), Joint(p', q', t', b))
  {
    JointIs(p, q, t, b);
    JointIs(p', q', t', b);
    JointIs(Sum(p, p'), Sum(q, q'), t + t', b);
    ExchangeSums(p, p', q, q');
    AddMultiples(-t, -t', b);
    ExchangeSums(Sum(p, q), Sum(p', q'), Scale(-t, b), Scale(-t', b));
  }

  /** The first n terms, for sequences of all factors and points. */
  ghost predicate AreTerms(zs: seq<int>, rs: seq<CurvePoint>, cs: seq<int>, ks: seq<CurvePoint>, ts: seq<int>,
                           ds: seq<CurvePoint>, b: CurvePoint, n: nat)
    requires IsPrime(P) && |zs| == |rs| == |cs| == |ks| == |ts| == |ds| && n <= |zs|
  {
    n == 0 || (AreTerms(zs, rs, cs, ks, ts, ds, b, n - 1)
        && IsTerm(zs[n - 1], rs[n - 1], cs[n - 1], ks[n - 1], ts[n - 1], ds[n - 1], b))
  }

  lemma NoTerms(b: CurvePoint)
    requires IsPrime(P)
    ensures ZERO == Joint(ZERO, ZERO, 0, b)
  {
    JointIs(ZERO, ZERO, 0, b);
    SmallMultiples(b);
    SumZero(ZERO);
  }

  /** The terms of the R, of the keys and of the base point together. */
  lemma {:induction false} SumOfTerms(zs: seq<int>, rs: seq<CurvePoint>, cs: seq<int>, ks: seq<CurvePoint>,
                                      ts: seq<int>, ds: seq<CurvePoint>, b: CurvePoint, n: nat)
    requires IsPrime(P) && |zs| == |rs| == |cs| == |ks| == |ts| == |ds| && n <= |zs|
    requires AreTerms(zs, rs, cs, ks, ts, ds, b, n)
    ensures Combination(zs, ds, n) == Joint(Combination(zs, rs, n), Combination(cs, ks, n), Total(ts, n), b)
  {
    if n == 0 {
      NoTerms(b);
    } else {
      var i := n - 1;
      SumOfTerms(zs, rs, cs, ks, ts, ds, b, i);
      AddJoint(Combination(zs, rs, i), Combination(cs, ks, i), Total(ts, i), Scale(zs[i], rs[i]), Scale(cs[i], ks[i]),
        ts[i], b);
    }
  }

  lemma ReducedTotal(p: CurvePoint, q: CurvePoint, t: int, b: CurvePoint)
    requires IsPrime(P) && HasOrderL(b)
    ensures Sum(Scale(Remainder(L, -t), b), Sum(p, q)) == Joint(p, q, t, b)
  {
    Residue(L, -t);
    ScaleModulo(Remainder(L, -t), -t, b);
    SumCommutes(Scale(-t, b), Sum(p, q));
    JointIs(p, q, t, b);
  }

  lemma BatchTerm(batch: seq<Signed>, zs: seq<Scalar>, hash: Bytes -> Digest, ks: seq<CurvePoint>, b: CurvePoint,
                  i: nat)
    requires IsPrime(P) && |zs| == |batch| == |ks| && i < |batch| && KeysHaveOrderL(ks)
    ensures IsTerm(zs[i], DecodedRs(batch)[i], KeyProducts(batch, zs, hash)[i], ks[i], Products(batch, zs)[i],
              Defects(batch, hash, ks, b)[i], b)
  {
    DefectIs(batch[i], ks[i], hash, b);
    ProductsAre(batch, zs, i);
    KeyProductsAre(batch, zs, hash);
    RemainingTerm(zs[i], Hram(hash, batch[i]), batch[i].sig.s, Decoded(batch[i].sig.R), ks[i], b);
  }

  lemma {:induction false} BatchTerms(batch: seq<Signed>, zs: seq<Scalar>, hash: Bytes -> Digest, ks: seq<CurvePoint>,
                                      b: CurvePoint, n: nat)
    requires IsPrime(P) && |zs| == |batch| == |ks| && n <= |batch| && KeysHaveOrderL(ks)
    ensures AreTerms(zs, DecodedRs(batch), KeyProducts(batch, zs, hash), ks, Products(batch, zs),
              Defects(batch, hash, ks, b), b, n)
  {
    if n > 0 {
      BatchTerms(batch, zs, hash, ks, b, n - 1);
      BatchTerm(batch, zs, hash, ks, b, n - 1);
    }
  }

  lemma PointOfDefects(cs: seq<int>, batch: seq<Signed>, zs: seq<Scalar>, hash: Bytes -> Digest,
                       ks: seq<CurvePoint>, b: CurvePoint)
    requires IsPrime(P) && HasOrderL(b) && |zs| == |batch| == |ks| && KeysHaveOrderL(ks)
    requires cs == KeyProducts(batch, zs, hash)
    ensures BatchPoint(BaseFactor(batch, zs), cs, batch, zs, ks, b)
            == Combination(zs, Defects(batch, hash, ks, b), |zs|)
  {
    var n := |batch|;
    BatchTerms(batch, zs, hash, ks, b, n);
    SumOfTerms(zs, DecodedRs(batch), cs, ks, Products(batch, zs), Defects(batch, hash, ks, b), b, n);
    BaseFactorIs(batch, zs);
    ReducedTotal(Combination(zs, DecodedRs(batch), n), Combination(cs, ks, n), Total(Products(batch, zs), n), b);
  }

  /**
    A batch is accepted exactly when all R decode and the sum of the defects, each multiplied by its z, is the
    identity.
  */
  lemma BatchAcceptsIff(batch: seq<Signed>, zs: seq<Scalar>, hash: Bytes -> Digest, ks: seq<CurvePoint>,
                        b: CurvePoint)
    requires IsPrime(P) && HasOrderL(b) && |zs| == |batch| == |ks| && KeysHaveOrderL(ks)
    ensures BatchAccepts(batch, zs, hash, ks, b)
       <==> AllDecode(batch) && Combination(zs, Defects(batch, hash, ks, b), |zs|) == ZERO
  {
    PointOfDefects(KeyProducts(batch, zs, hash), batch, zs, hash, ks, b);
  }

  lemma RemainingVanishes(r: CurvePoint, k: int, a: CurvePoint, s: int, b: CurvePoint)
    requires IsPrime(P)
    ensures Remaining(r, k, a, s, b) == ZERO <==> r == Combine2(k, Negate(a), s, b)
  {
    var c := Sum(r, Scale(k, a));
    MovedKey(r, k, a, s, b);
    AddMultiples(s, -s, b);
    SmallMultiples(b);
    SumCommutes(c, Scale(-s, b));
    SumCommutes(Scale(s, b), Scale(-s, b));
    if Remaining(r, k, a, s, b) == ZERO {
      CancelSum(Scale(-s, b), c, Scale(s, b));
    }
  }

  /** The defect is the identity exactly when the equation of the signature holds. */
  lemma DefectVanishes(i: Signed, a: CurvePoint, hash: Bytes -> Digest, b: CurvePoint)
    requires IsPrime(P)
    ensures Defect(i, a, hash, b) == ZERO
       <==> Decoded(i.sig.R) == Combine2(Hram(hash, i), Negate(a), i.sig.s, b)
  {
    DefectIs(i, a, hash, b);
    RemainingVanishes(Decoded(i.sig.R), Hram(hash, i), a, i.sig.s, b);
  }

  // Acceptance.

  lemma {:induction false} ZeroCombination(ns: seq<int>, ps: seq<CurvePoint>, n: nat)
    requires IsPrime(P) && n <= |ns| && n <= |ps| && forall i :: 0 <= i < n ==> ps[i] == ZERO
    ensures Combination(ns, ps, n) == ZERO
  {
    if n > 0 {
      ZeroCombination(ns, ps, n - 1);
      ScaleZero(ns[n - 1]);
      SumZero(ZERO);
    }
  }

  /** Each signature is accepted on its own, under a key of order l. */
  ghost predicate AllAccepted(batch: seq<Signed>, hash: Bytes -> Digest, ks: seq<CurvePoint>, b: CurvePoint)
    requires IsPrime(P) && |batch| == |ks|
  {
    forall i :: 0 <= i < |batch| ==>
      HasOrderL(ks[i]) && Encoding(Combine2(Hram(hash, batch[i]), Negate(ks[i]), batch[i].sig.s, b)) == batch[i].sig.R
  }

  lemma AcceptedR(batch: seq<Signed>, hash: Bytes -> Digest, ks: seq<CurvePoint>, b: CurvePoint, i: nat)
    requires IsPrime(P) && |batch| == |ks| && i < |batch| && AllAccepted(batch, hash, ks, b)
    ensures Decompress(batch[i].sig.R).Some? && HasOrderL(ks[i]) && Defect(batch[i], ks[i], hash, b) == ZERO
  {
    var q := Combine2(Hram(hash, batch[i]), Negate(ks[i]), batch[i].sig.s, b);
    DecompressEncoding(q);
    CtEqIsEquality(Decompress(batch[i].sig.R).value, q, Decompress(batch[i].sig.R).value, Decoded(batch[i].sig.R));
    DefectVanishes(batch[i], ks[i], hash, b);
  }

  /** Signatures that are accepted one by one are accepted together, for every choice of the z. */
  lemma BatchOfAcceptedIsAccepted(batch: seq<Signed>, zs: seq<Scalar>, hash: Bytes -> Digest, ks: seq<CurvePoint>,
                                  b: CurvePoint)
    requires IsPrime(P) && HasOrderL(b) && |zs| == |batch| == |ks| && AllAccepted(batch, hash, ks, b)
    ensures BatchAccepts(batch, zs, hash, ks, b)
  {
    forall i | 0 <= i < |batch|
      ensures Decompress(batch[i].sig.R).Some? && HasOrderL(ks[i]) && Defect(batch[i], ks[i], hash, b) == ZERO
    {
      AcceptedR(batch, hash, ks, b, i);
    }
    ZeroCombination(zs, Defects(batch, hash, ks, b), |zs|);
    BatchAcceptsIff(batch, zs, hash, ks, b);
  }

  lemma MultipleHasOrderL(n: int, b: CurvePoint)
    requires IsPrime(P) && HasOrderL(b)
    ensures HasOrderL(Scale(n, b))
  {
    HasOrderLIs(b);
    HasOrderLIs(Scale(n, b));
    NestMultiples(L, n, b);
    NestMultiples(n, L, b);
    ScaleZero(n);
    assert L * n == n * L;
  }

  /** Signatures made with the keys of the batch are accepted together. */
  lemma BatchOfSignedIsAccepted(batch: seq<Signed>, sigs: seq<Bytes>, nonces: seq<Scalar>, keys: seq<Scalar>,
                                zs: seq<Scalar>,
                                hash: Bytes -> Digest, ks: seq<CurvePoint>, b: CurvePoint)
    requires IsPrime(P) && HasOrderL(b) && |batch| == |sigs| == |nonces| == |keys| == |zs| == |ks|
    requires forall i :: 0 <= i < |batch| ==>
               && IsSignature(sigs[i], nonces[i], keys[i], batch[i].key.compressed, batch[i].message, hash, b)
               && SignatureFromBytes(sigs[i]) == Ok(batch[i].sig) && ks[i] == Scale(keys[i], b)
    ensures BatchAccepts(batch, zs, hash, ks, b)
  {
    forall i | 0 <= i < |batch|
      ensures HasOrderL(ks[i])
              && Encoding(Combine2(Hram(hash, batch[i]), Negate(ks[i]), batch[i].sig.s, b)) == batch[i].sig.R
    {
      SignedIsAccepted(sigs[i], nonces[i], keys[i], batch[i].key.compressed, batch[i].message, hash, b);
      MultipleHasOrderL(keys[i], b);
    }
    BatchOfAcceptedIsAccepted(batch, zs, hash, ks, b);
  }

  /** Strings that are accepted one by one, under keys of order l, are accepted as a batch. */
  lemma BatchOfVerifiedIsAccepted(messages: seq<Bytes>, signatures: seq<Bytes>, keys: seq<PublicKey>,
                                  zs: seq<Scalar>, hash: Bytes -> Digest, ks: seq<CurvePoint>, b: CurvePoint)
    returns (batch: seq<Signed>)
    requires IsPrime(P) && HasOrderL(b) && |messages| == |signatures| == |keys| == |zs| == |ks| && KeysHaveOrderL(ks)
    requires forall i :: 0 <= i < |signatures|
               ==> Accepts(signatures[i], keys[i].compressed, ks[i], messages[i], hash, b)
    ensures IsBatch(batch, messages, signatures, keys) && BatchAccepts(batch, zs, hash, ks, b)
  {
    forall i | 0 <= i < |signatures|
      ensures SignatureFromBytes(signatures[i]).Ok?
    {
      assert Accepts(signatures[i], keys[i].compressed, ks[i], messages[i], hash, b);
    }
    batch := seq(|signatures|, i requires 0 <= i < |signatures| && SignatureFromBytes(signatures[i]).Ok?
        => Signed(messages[i], SignatureFromBytes(signatures[i]).value, keys[i]));
    forall i | 0 <= i < |batch|
      ensures Encoding(Combine2(Hram(hash, batch[i]), Negate(ks[i]), batch[i].sig.s, b)) == batch[i].sig.R
    {
      assert Accepts(signatures[i], keys[i].compressed, ks[i], messages[i], hash, b);
    }
    BatchOfAcceptedIsAccepted(batch, zs, hash, ks, b);
  }

  // Rejection.

  lemma SumHasOrderL(a: CurvePoint, c: CurvePoint)
    requires IsPrime(P) && HasOrderL(a) && HasOrderL(c)
    ensures HasOrderL(Sum(a, c))
  {
    HasOrderLIs(a);
    HasOrderLIs(c);
    HasOrderLIs(Sum(a, c));
    ScaleSum(L, a, c);
    SumZero(ZERO);
  }

  lemma RemainingHasOrderL(r: CurvePoint, k: int, a: CurvePoint, s: int, b: CurvePoint)
    requires IsPrime(P) && HasOrderL(r) && HasOrderL(a) && HasOrderL(b)
    ensures HasOrderL(Remaining(r, k, a, s, b))
  {
    MultipleHasOrderL(k, a);
    MultipleHasOrderL(-s, b);
    SumHasOrderL(r, Scale(k, a));
    SumHasOrderL(Sum(r, Scale(k, a)), Scale(-s, b));
  }

  lemma DefectHasOrderL(i: Signed, a: CurvePoint, hash: Bytes -> Digest, b: CurvePoint)
    requires IsPrime(P) && HasOrderL(b) && HasOrderL(a) && HasOrderL(Decoded(i.sig.R))
    ensures HasOrderL(Defect(i, a, hash, b))
  {
    DefectIs(i, a, hash, b);
    RemainingHasOrderL(Decoded(i.sig.R), Hram(hash, i), a, i.sig.s, b);
  }

  /** Changing the j-th factor changes a combination by a multiple of the j-th point. */
  lemma {:induction false} CombinationChange(ns: seq<int>, ms: seq<int>, ps: seq<CurvePoint>, j: nat, n: nat)
    requires IsPrime(P) && |ns| == |ms| == |ps| && j < |ps| && n <= |ps|
    requires forall i :: 0 <= i < |ns| && i != j ==> ns[i] == ms[i]
    ensures Combination(ns, ps, n) == if j < n then Sum(Combination(ms, ps, n), Scale(ns[j] - ms[j], ps[j]))
                                      else Combination(ms, ps, n)
  {
    if n > 0 {
      var i := n - 1;
      var c, t, d := Combination(ms, ps, i), Scale(ms[i], ps[i]), Scale(ns[j] - ms[j], ps[j]);
      CombinationChange(ns, ms, ps, j, i);
      if i == j {
        AddMultiples(ms[j], ns[j] - ms[j], ps[j]);
        SumAssociates(c, t, d);
      } else if j < i {
        SumAssociates(c, d, t);
        SumCommutes(d, t);
        SumAssociates(c, t, d);
      }
    }
  }

  lemma {:induction false} SingleTerm(ns: seq<int>, ps: seq<CurvePoint>, j: nat, n: nat)
    requires IsPrime(P) && |ns| == |ps| && j < |ps| && n <= |ps|
    requires forall i :: 0 <= i < |ps| && i != j ==> ps[i] == ZERO
    ensures Combination(ns, ps, n) == if j < n then Scale(ns[j], ps[j]) else ZERO
  {
    if n > 0 {
      SingleTerm(ns, ps, j, n - 1);
      ScaleZero(ns[n - 1]);
      SumZero(Combination(ns, ps, n - 1));
      SumZero(Scale(ns[n - 1], ps[n - 1]));
    }
  }

  /**
    The rejecting direction: when the equations of all signatures but one hold, the batch is accepted exactly
    when the equation of that one holds too, or its z is a multiple of l.
  */
  lemma BatchWithOneSuspect(batch: seq<Signed>, zs: seq<Scalar>, hash: Bytes -> Digest, ks: seq<CurvePoint>,
                            b: CurvePoint, j: nat)
    requires IsPrime(P) && IsPrime(L) && HasOrderL(b) && |zs| == |batch| == |ks| && KeysHaveOrderL(ks)
    requires AllDecode(batch) && j < |batch| && HasOrderL(Decoded(batch[j].sig.R))
    requires forall i :: 0 <= i < |batch| && i != j ==>
               Decoded(batch[i].sig.R) == Combine2(Hram(hash, batch[i]), Negate(ks[i]), batch[i].sig.s, b)
    ensures BatchAccepts(batch, zs, hash, ks, b)
       <==> Cong(L, zs[j], 0)
            || Decoded(batch[j].sig.R) == Combine2(Hram(hash, batch[j]), Negate(ks[j]), batch[j].sig.s, b)
  {
    var ds := Defects(batch, hash, ks, b);
    forall i | 0 <= i < |batch| && i != j
      ensures ds[i] == ZERO
    {
      DefectVanishes(batch[i], ks[i], hash, b);
    }
    BatchAcceptsIff(batch, zs, hash, ks, b);
    SingleTerm(zs, ds, j, |zs|);
    DefectVanishes(batch[j], ks[j], hash, b);
    DefectHasOrderL(batch[j], ks[j], hash, b);
    if ds[j] == ZERO {
      ScaleZero(zs[j]);
    } else {
      ScaleVanishes(zs[j], ds[j]);
    }
  }

  lemma OneMultiple(m: int, n: int, d: CurvePoint)
    requires IsPrime(P) && IsPrime(L) && HasOrderL(d) && d != ZERO && Sum(ZERO, Scale(m - n, d)) == ZERO
    ensures Cong(L, m, n)
  {
    SumZero(Scale(m - n, d));
    ScaleVanishes(m - n, d);
    Difference(L, m, n);
  }

  /**
    For a batch with a signature whose equation does not hold, and any choice of the other z, at most one
    residue of its z modulo l makes the batch pass.
  */
  lemma WrongBatchHasOneChance(batch: seq<Signed>, zs: seq<Scalar>, zs': seq<Scalar>, hash: Bytes -> Digest,
                               ks: seq<CurvePoint>, b: CurvePoint, j: nat)
    requires IsPrime(P) && IsPrime(L) && HasOrderL(b) && |zs| == |zs'| == |batch| == |ks| && KeysHaveOrderL(ks)
    requires j < |batch| && HasOrderL(Decoded(batch[j].sig.R))
    requires forall i :: 0 <= i < |zs| && i != j ==> zs[i] == zs'[i]
    requires Decoded(batch[j].sig.R) != Combine2(Hram(hash, batch[j]), Negate(ks[j]), batch[j].sig.s, b)
    requires BatchAccepts(batch, zs, hash, ks, b) && BatchAccepts(batch, zs', hash, ks, b)
    ensures Cong(L, zs[j], zs'[j])
  {
    var ds := Defects(batch, hash, ks, b);
    BatchAcceptsIff(batch, zs, hash, ks, b);
    BatchAcceptsIff(batch, zs', hash, ks, b);
    CombinationChange(zs, zs', ds, j, |zs|);
    DefectVanishes(batch[j], ks[j], hash, b);
    DefectHasOrderL(batch[j], ks[j], hash, b);
    OneMultiple(zs[j], zs'[j], ds[j]);
  }

  // A batch does not ask for canonical encodings.

  /** A signature is accepted on its own exactly when its equation holds and its R is the canonical encoding. */
  lemma AcceptsIffCanonical(i: Signed, a: CurvePoint, hash: Bytes -> Digest, b: CurvePoint)
    requires IsPrime(P) && i.sig.s < L
    ensures Accepts(SignatureToBytes(i.sig), i.key.compressed, a, i.message, hash, b)
       <==> && Decompress(i.sig.R).Some? && Encoding(Decoded(i.sig.R)) == i.sig.R
            && Decoded(i.sig.R) == Combine2(Hram(hash, i), Negate(a), i.sig.s, b)
  {
    var q := Combine2(Hram(hash, i), Negate(a), i.sig.s, b);
    SignatureRoundTrip(i.sig);
    if Encoding(q) == i.sig.R {
      DecompressEncoding(q);
      CtEqIsEquality(Decompress(i.sig.R).value, q, Decompress(i.sig.R).value, Decoded(i.sig.R));
    }
  }

  lemma OtherIdentity(c: Bytes32)
    requires IsPrime(P) && c == P + 1
    ensures Decompress(c).Some? && Decoded(c) == ZERO && Encoding(ZERO) == 1
  {
    MultipleIsZero(P, 1);
    Add(P, 1 * P, 0, 1, 1);
    ZeroOnCurve();
    OnCurveCong(0, 1, 0, FromBytes(c));
    DecompressContract(c);
    var a := DecompressedPoint(c);
    ReducedRange(1);
    Canonical(a.y, 1);
    YOne(a);
    CtEqIsEquality(Decompress(c).value, a, Decompress(c).value, Decoded(c));
  }

  /**
    With the encoding p + 1 of the identity as R and s = k key, a signature passes in a batch for every z,
    although it is refused on its own.
  */
  lemma BatchAcceptsOtherIdentity(i: Signed, key: int, z: Scalar, hash: Bytes -> Digest, b: CurvePoint)
    requires IsPrime(P) && HasOrderL(b)
    requires i.sig.R == P + 1 && i.sig.s == Remainder(L, Hram(hash, i) * key)
    ensures BatchAccepts([i], [z], hash, [Scale(key, b)], b)
    ensures !Accepts(SignatureToBytes(i.sig), i.key.compressed, Scale(key, b), i.message, hash, b)
  {
    var a, k := Scale(key, b), Hram(hash, i);
    OtherIdentity(i.sig.R);
    AcceptsIffCanonical(i, a, hash, b);
    MultipleHasOrderL(key, b);
    NestMultiples(k, key, b);
    Residue(L, k * key);
    ScaleModulo(i.sig.s, k * key, b);
    SumZero(Scale(k, a));
    MovedKey(ZERO, k, a, i.sig.s, b);
    DefectVanishes(i, a, hash, b);
    ZeroCombination([z], Defects([i], hash, [a], b), 1);
    BatchAcceptsIff([i], [z], hash, [a], b);
  }
}
