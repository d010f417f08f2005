/** Scalar multiplication on the curve through tables of precomputed multiples. */
module ScalarMul {
  import opened Congruence
  import opened Primes
  import opened Field
  import opened Digits
  import opened Recoding
  import opened Edwards
  import opened Groups
  import opened EdwardsGroup
  import opened CurveModels

  /** n p on the curve, with a counter as in Congruence.RemainderAt. */
  ghost function ScaleAt(n: int, p: CurvePoint, k: nat): CurvePoint
    requires IsPrime(P)
    decreases n, p, k
  {
    if k > 0 then ScaleAt(n, p, k - 1) else Multiple(CurveGroup(), n, p)
  }

  ghost function Scale(n: int, p: CurvePoint): CurvePoint
    requires IsPrime(P)
  {
    ScaleAt(n, p, 3)
  }

  lemma ScaleIs(n: int, p: CurvePoint)
    requires IsPrime(P)
    ensures Scale(n, p) == Multiple(CurveGroup(), n, p)
  {
    assert ScaleAt(n, p, 1) == ScaleAt(n, p, 0);
    assert ScaleAt(n, p, 2) == ScaleAt(n, p, 1);
  }

  lemma AddMultiples(m: int, n: int, p: CurvePoint)
    requires IsPrime(P)
    ensures Sum(Scale(m, p), Scale(n, p)) == Scale(m + n, p)
  {
    CurveIsAbelian();
    ScaleIs(m, p);
    ScaleIs(n, p);
    ScaleIs(m + n, p);
    MultipleAdd(CurveGroup(), m, n, p);
  }

  lemma NestMultiples(m: int, n: int, p: CurvePoint)
    requires IsPrime(P)
    ensures Scale(m, Scale(n, p)) == Scale(m * n, p)
  {
    CurveIsAbelian();
    ScaleIs(n, p);
    ScaleIs(m, Scale(n, p));
    ScaleIs(m * n, p);
    MultipleMultiple(CurveGroup(), m, n, p);
  }

  lemma SmallMultiples(p: CurvePoint)
    requires IsPrime(P)
    ensures Scale(0, p) == ZERO && Scale(1, p) == p
  {
    CurveIsAbelian();
    ScaleIs(0, p);
    ScaleIs(1, p);
    MultipleSmall(CurveGroup(), p);
  }

  lemma NegateMultiple(n: int, p: CurvePoint)
    requires IsPrime(P)
    ensures Negate(Scale(n, p)) == Scale(-n, p)
  {
    CurveIsAbelian();
    ScaleIs(n, p);
    ScaleIs(-n, p);
    MultipleNeg(CurveGroup(), n, p);
  }

  lemma SumZero(q: CurvePoint)
    requires IsPrime(P)
    ensures Sum(q, ZERO) == q == Sum(ZERO, q)
  {
    SumUnit(q);
    SumCommutes(q, ZERO);
  }

  lemma ScaleSum(m: int, p: CurvePoint, q: CurvePoint)
    requires IsPrime(P)
    ensures Scale(m, Sum(p, q)) == Sum(Scale(m, p), Scale(m, q))
  {
    CurveIsAbelian();
    ScaleIs(m, p);
    ScaleIs(m, q);
    ScaleIs(m, Sum(p, q));
    MultiplePoint(CurveGroup(), m, p, q);
  }

  lemma ExchangeSums(a: CurvePoint, b: CurvePoint, c: CurvePoint, d: CurvePoint)
    requires IsPrime(P)
    ensures Sum(Sum(a, b), Sum(c, d)) == Sum(Sum(a, c), Sum(b, d))
  {
    CurveIsAbelian();
    Exchange(CurveGroup(), a, b, c, d);
  }

  lemma ScaleZero(m: int)
    requires IsPrime(P)
    ensures Scale(m, ZERO) == ZERO
  {
    SmallMultiples(ZERO);
    NestMultiples(m, 0, ZERO);
    assert m * 0 == 0;
  }

  lemma CancelSum(a: CurvePoint, b: CurvePoint, c: CurvePoint)
    requires IsPrime(P) && Sum(a, b) == Sum(a, c)
    ensures b == c
  {
    SumAssociates(Negate(a), a, b);
    SumAssociates(Negate(a), a, c);
    SumUnit(a);
    SumZero(b);
    SumZero(c);
  }

  // Doublings.

  method DoublePoint(s: ProjectivePoint, ghost p: CurvePoint) returns (c: CompletedPoint)
    requires IsPrime(P) && Projects(s, p)
    ensures Completes(c, Sum(p, p))
  {
    DoubleCorrect(s, p);
    c := Double(s);
  }

  /** k successive doublings, with the last one going directly to extended coordinates. */
  method MulByPow2(point: EdwardsPoint, k: nat, ghost p: CurvePoint) returns (r: EdwardsPoint)
    requires IsPrime(P) && k > 0 && Extends(point, p)
    ensures Extends(r, Scale(TwoTo(k), p))
  {
    var s := ToProjective(point);
    ToProjectiveMeaning(point, p);
    SmallMultiples(p);
    for i := 0 to k - 1
      invariant Projects(s, Scale(TwoTo(i), p))
    {
      var c := DoublePoint(s, Scale(TwoTo(i), p));
      AddMultiples(TwoTo(i), TwoTo(i), p);
      CompletedMeaning(c, Scale(TwoTo(i + 1), p));
      s := CompletedToProjective(c);
    }
    var c := DoublePoint(s, Scale(TwoTo(k - 1), p));
    AddMultiples(TwoTo(k - 1), TwoTo(k - 1), p);
    CompletedMeaning(c, Scale(TwoTo(k), p));
    r := CompletedToExtended(c);
  }

  // Tables of the multiples 1 p, ..., 8 p.

  ghost predicate IsTable(t: seq<AffineNielsPoint>, p: CurvePoint)
    requires IsPrime(P)
  {
    |t| == 8 && forall j :: 0 <= j < 8 ==> IsAffineNiels(t[j], Scale(j + 1, p))
  }

  method AddTableEntry(point: EdwardsPoint, n: AffineNielsPoint, ghost p: CurvePoint, ghost q: CurvePoint)
    returns (r: EdwardsPoint)
    requires IsPrime(P) && Extends(point, p) && IsAffineNiels(n, q)
    ensures Extends(r, Sum(p, q))
  {
    AffineNielsCorrect(point, p, n, q);
    CompletedMeaning(AddAffineNiels(point, n), Sum(p, q));
    r := CompletedToExtended(AddAffineNiels(point, n));
  }

  method LookupTable(point: EdwardsPoint, ghost p: CurvePoint) returns (t: seq<AffineNielsPoint>)
    requires IsPrime(P) && Extends(point, p)
    ensures IsTable(t, p)
  {
    var first := ToAffineNiels(point);
    AffineNielsMeaning(point, p);
    SmallMultiples(p);
    var points := new AffineNielsPoint[8](_ => first);
    for j := 0 to 7
      invariant forall i :: 0 <= i <= j ==> IsAffineNiels(points[i], Scale(i + 1, p))
    {
      var next := AddTableEntry(point, points[j], p, Scale(j + 1, p));
      AddMultiples(1, j + 1, p);
      AffineNielsMeaning(next, Scale(j + 2, p));
      points[j + 1] := ToAffineNiels(next);
    }
    t := points[..];
  }

  /** Exclusive or of a signed byte with a mask of equal bits. */
  function XorMask(a: int, mask: int): int
    requires mask == 0 || mask == -1
  {
    if mask == 0 then a else -a - 1
  }

  lemma IdentityNiels()
    ensures IsAffineNiels(AFFINE_NIELS_IDENTITY, ZERO)
  {
    var z, x, y := 1, 0, 1;
    NotZero(P, z);
    NielsForm(WithUnitZ(AFFINE_NIELS_IDENTITY), ZERO);
    assert (y + x) * z == 1 && (y - x) * z == 1 && 2 * (EDWARDS_D * (x * y)) * z == 0;
  }

  lemma NegateEntry(n: AffineNielsPoint, p: CurvePoint)
    requires IsAffineNiels(n, p)
    ensures IsAffineNiels(NegAffineNiels(n), Negate(p))
  {
    NegNiels(WithUnitZ(n), p);
  }

  /** x p for -8 <= x <= 8, by a scan of the whole table. */
  method Select(t: seq<AffineNielsPoint>, x: int, ghost p: CurvePoint) returns (n: AffineNielsPoint)
    requires IsPrime(P) && IsTable(t, p) && -8 <= x <= 8
    ensures IsAffineNiels(n, Scale(x, p))
  {
    var xmask := if x < 0 then -1 else 0;
    var xabs := XorMask(x + xmask, xmask);
    n := AFFINE_NIELS_IDENTITY;
    SmallMultiples(p);
    IdentityNiels();
    for j := 1 to 9
      invariant IsAffineNiels(n, if xabs < j then Scale(xabs, p) else ZERO)
    {
      n := if xabs == j then t[j - 1] else n;
    }
    if xmask == -1 {
      NegateEntry(n, Scale(xabs, p));
      NegateMultiple(xabs, p);
      n := NegAffineNiels(n);
    }
  }

  // Multiplication of a base point.

  /** The i-th table holds the multiples of 256^i p. */
  ghost predicate IsBasepointTable(tables: seq<seq<AffineNielsPoint>>, p: CurvePoint)
    requires IsPrime(P)
  {
    forall i: nat :: i < |tables| ==> IsTable(tables[i], Scale(TwoTo(8 * i), p))
  }

  /** k doublings take the i-th power to the next. */
  lemma NextPower(k: nat, i: nat, p: CurvePoint)
    requires IsPrime(P)
    ensures Scale(TwoTo(k), Scale(TwoTo(k * i), p)) == Scale(TwoTo(k * (i + 1)), p)
  {
    NestMultiples(TwoTo(k), TwoTo(k * i), p);
    TwoToAdd(k, k * i);
    assert k + k * i == k * (i + 1);
  }

  method NextTable(point: EdwardsPoint, ghost i: nat, ghost p: CurvePoint)
    returns (t: seq<AffineNielsPoint>, next: EdwardsPoint)
    requires IsPrime(P) && Extends(point, Scale(TwoTo(8 * i), p))
    ensures IsTable(t, Scale(TwoTo(8 * i), p)) && Extends(next, Scale(TwoTo(8 * (i + 1)), p))
  {
    t := LookupTable(point, Scale(TwoTo(8 * i), p));
    next := MulByPow2(point, 8, Scale(TwoTo(8 * i), p));
    NextPower(8, i, p);
  }

  method CreateBasepointTable(B: EdwardsPoint, ghost p: CurvePoint) returns (tables: seq<seq<AffineNielsPoint>>)
    requires IsPrime(P) && Extends(B, p)
    ensures |tables| == 32 && IsBasepointTable(tables, p)
  {
    var point := B;
    var table := new seq<AffineNielsPoint>[32](_ => []);
    SmallMultiples(p);
    for i := 0 to 32
      invariant Extends(point, Scale(TwoTo(8 * i), p)) && IsBasepointTable(table[..i], p)
    {
      ghost var done := table[..i];
      table[i], point := NextTable(point, i, p);
      assert table[..i + 1] == done + [table[i]];
    }
    tables := table[..];
  }

  /** The sum of the n first digits with the parity of s, in radix 256. */
  function Strided(d: seq<int>, s: nat, n: nat): int
    requires s <= 1 && 2 * n <= |d|
  {
    if n == 0 then 0 else Strided(d, s, n - 1) + d[2 * (n - 1) + s] * TwoTo(8 * (n - 1))
  }

  lemma {:induction false} StridedSum(d: seq<int>, n: nat)
    requires 2 * n <= |d|
    ensures Value(d, 4, 2 * n) == 16 * Strided(d, 1, n) + Strided(d, 0, n)
  {
    if n > 0 {
      var k := 2 * (n - 1);
      StridedSum(d, n - 1);
      assert TwoTo(4) == 16;
      TwoToAdd(4 * k, 4);
      assert TwoTo(4 * (k + 1)) == TwoTo(4 * k) * 16 && TwoTo(8 * (n - 1)) == TwoTo(4 * k);
      assert Value(d, 4, k + 2) == Value(d, 4, k) + d[k] * TwoTo(4 * k) + d[k + 1] * TwoTo(4 * (k + 1));
      assert d[k + 1] * (TwoTo(4 * k) * 16) == 16 * (d[k + 1] * TwoTo(4 * k));
    }
  }

  predicate IsSignedRadix16(a: seq<int>) {
    |a| == 64 && forall i :: 0 <= i < 64 ==> -8 <= a[i] <= 8
  }

  method PassStep(tables: seq<seq<AffineNielsPoint>>, a: seq<int>, i: nat, point: EdwardsPoint, ghost j: nat,
                  ghost s: nat, ghost m: int, ghost p: CurvePoint)
    returns (r: EdwardsPoint)
    requires IsPrime(P) && |tables| == 32 && IsBasepointTable(tables, p) && IsSignedRadix16(a)
    requires s <= 1 && j < 32 && i == 2 * j + s && Extends(point, Scale(m + Strided(a, s, j), p))
    ensures Extends(r, Scale(m + Strided(a, s, j + 1), p))
  {
    assert i / 2 == j;
    ghost var q := Scale(TwoTo(8 * j), p);
    var n := Select(tables[i / 2], a[i], q);
    NestMultiples(a[i], TwoTo(8 * j), p);
    AddMultiples(m + Strided(a, s, j), a[i] * TwoTo(8 * j), p);
    r := AddTableEntry(point, n, Scale(m + Strided(a, s, j), p), Scale(a[i], q));
  }

  /** One pass over the digits of one parity. */
  method Pass(tables: seq<seq<AffineNielsPoint>>, a: seq<int>, s: nat, point: EdwardsPoint, ghost m: int,
              ghost p: CurvePoint)
    returns (r: EdwardsPoint)
    requires IsPrime(P) && |tables| == 32 && IsBasepointTable(tables, p) && IsSignedRadix16(a)
    requires s <= 1 && Extends(point, Scale(m, p))
    ensures Extends(r, Scale(m + Strided(a, s, |a| / 2), p))
  {
    r := point;
    assert Strided(a, s, 0) == 0;
    for j := 0 to 32
      invariant Extends(r, Scale(m + Strided(a, s, j), p))
    {
      r := PassStep(tables, a, 2 * j + s, r, j, s, m, p);
    }
  }

  method ShiftByFour(point: EdwardsPoint, ghost n: int, ghost p: CurvePoint) returns (r: EdwardsPoint)
    requires IsPrime(P) && Extends(point, Scale(n, p))
    ensures Extends(r, Scale(16 * n, p))
  {
    r := MulByPow2(point, 4, Scale(n, p));
    assert TwoTo(4) == 16;
    NestMultiples(16, n, p);
  }

  /** The multiple of the base point by a scalar: odd digits, four doublings, even digits. */
  method BasepointMul(tables: seq<seq<AffineNielsPoint>>, scalar: Scalar, ghost p: CurvePoint) returns (r: EdwardsPoint)
    requires IsPrime(P) && |tables| == 32 && IsBasepointTable(tables, p)
    ensures Extends(r, Scale(scalar, p))
  {
    var a := ToRadix16(scalar);
    SmallMultiples(p);
    r := Pass(tables, a, 1, IDENTITY, 0, p);
    ghost var odd := Strided(a, 1, |a| / 2);
    r := ShiftByFour(r, odd, p);
    r := Pass(tables, a, 0, r, 16 * odd, p);
    StridedSum(a, |a| / 2);
  }
}
