/** Sums of several multiples: double-base multiplication, Straus with sparse digits, and Pippenger. */
module Multiscalar {
  import opened Congruence
  import opened Primes
  import opened Field
  import opened Digits
  import opened Recoding
  import opened Edwards
  import opened Groups
  import opened EdwardsGroup
  import opened CurveModels
  import opened ScalarMul

  // Tables of the odd multiples 1 p, 3 p, 5 p, ...

  ghost predicate IsOddTable(t: seq<ProjectiveNielsPoint>, p: CurvePoint)
    requires IsPrime(P)
  {
    forall j :: 0 <= j < |t| ==> IsNiels(t[j], Scale(2 * j + 1, p))
  }

  ghost predicate IsAffineOddTable(t: seq<AffineNielsPoint>, p: CurvePoint)
    requires IsPrime(P)
  {
    forall j :: 0 <= j < |t| ==> IsAffineNiels(t[j], Scale(2 * j + 1, p))
  }

  method AddEntry(point: EdwardsPoint, n: ProjectiveNielsPoint, ghost p: CurvePoint, ghost q: CurvePoint)
    returns (c: CompletedPoint)
    requires IsPrime(P) && Extends(point, p) && IsNiels(n, q)
    ensures Completes(c, Sum(p, q)) && Extends(CompletedToExtended(c), Sum(p, q))
  {
    c := AddProjectiveNiels(point, n);
    AddProjectiveNielsCorrect(point, p, n, q);
    CompletedMeaning(c, Sum(p, q));
  }

  /** The double of a point, in extended coordinates. */
  method DoubleExtended(point: EdwardsPoint, ghost p: CurvePoint) returns (r: EdwardsPoint)
    requires IsPrime(P) && Extends(point, p)
    ensures Extends(r, Scale(2, p))
  {
    ToProjectiveMeaning(point, p);
    var c := DoublePoint(ToProjective(point), p);
    CompletedMeaning(c, Sum(p, p));
    SmallMultiples(p);
    AddMultiples(1, 1, p);
    r := CompletedToExtended(c);
  }

  /** The next odd multiple. */
  method NextOdd(P2: EdwardsPoint, n: ProjectiveNielsPoint, ghost i: nat, ghost p: CurvePoint)
    returns (next: EdwardsPoint)
    requires IsPrime(P) && Extends(P2, Scale(2, p)) && IsNiels(n, Scale(2 * i + 1, p))
    ensures Extends(next, Scale(2 * (i + 1) + 1, p))
  {
    var c := AddEntry(P2, n, Scale(2, p), Scale(2 * i + 1, p));
    AddMultiples(2, 2 * i + 1, p);
    next := CompletedToExtended(c);
  }

  method NextEntry(P2: EdwardsPoint, n: ProjectiveNielsPoint, ghost i: nat, ghost p: CurvePoint)
    returns (next: ProjectiveNielsPoint)
    requires IsPrime(P) && Extends(P2, Scale(2, p)) && IsNiels(n, Scale(2 * i + 1, p))
    ensures IsNiels(next, Scale(2 * (i + 1) + 1, p))
  {
    var sum := NextOdd(P2, n, i, p);
    NielsMeaning(sum, Scale(2 * (i + 1) + 1, p));
    next := ToProjectiveNiels(sum);
  }

  lemma ExtendOddTable(t: seq<ProjectiveNielsPoint>, n: ProjectiveNielsPoint, p: CurvePoint)
    requires IsPrime(P) && IsOddTable(t, p) && IsNiels(n, Scale(2 * |t| + 1, p))
    ensures IsOddTable(t + [n], p)
  {}

  method NafLookupTable5(A: EdwardsPoint, ghost p: CurvePoint) returns (t: seq<ProjectiveNielsPoint>)
    requires IsPrime(P) && Extends(A, p)
    ensures |t| == 8 && IsOddTable(t, p)
  {
    var first := ToProjectiveNiels(A);
    NielsMeaning(A, p);
    SmallMultiples(p);
    var A2 := DoubleExtended(A, p);
    var Ai := new ProjectiveNielsPoint[8](_ => first);
    for i := 0 to 7
      invariant IsOddTable(Ai[..i + 1], p)
    {
      ghost var done := Ai[..i + 1];
      assert done[i] == Ai[i];
      var next := NextEntry(A2, Ai[i], i, p);
      ExtendOddTable(done, next, p);
      Ai[i + 1] := next;
      assert Ai[..i + 2] == done + [next];
    }
    t := Ai[..];
  }

  method NextAffineEntry(P2: EdwardsPoint, n: AffineNielsPoint, ghost i: nat, ghost p: CurvePoint)
    returns (next: AffineNielsPoint)
    requires IsPrime(P) && Extends(P2, Scale(2, p)) && IsAffineNiels(n, Scale(2 * i + 1, p))
    ensures IsAffineNiels(next, Scale(2 * (i + 1) + 1, p))
  {
    var sum := NextOdd(P2, WithUnitZ(n), i, p);
    AffineNielsMeaning(sum, Scale(2 * (i + 1) + 1, p));
    next := ToAffineNiels(sum);
  }

  method NafLookupTable8(A: EdwardsPoint, ghost p: CurvePoint) returns (t: seq<AffineNielsPoint>)
    requires IsPrime(P) && Extends(A, p)
    ensures |t| == 64 && IsAffineOddTable(t, p)
  {
    var first := ToAffineNiels(A);
    AffineNielsMeaning(A, p);
    SmallMultiples(p);
    var A2 := DoubleExtended(A, p);
    var Ai := new AffineNielsPoint[64](_ => first);
    for i := 0 to 63
      invariant IsAffineOddTable(Ai[..i + 1], p)
    {
      assert IsAffineNiels(Ai[..i + 1][i], Scale(2 * i + 1, p));
      ghost var done := Ai[..i + 1];
      Ai[i + 1] := NextAffineEntry(A2, Ai[i], i, p);
      assert Ai[..i + 2] == done + [Ai[i + 1]];
    }
    t := Ai[..];
  }

  /** Adds the multiple of p by one sparse digit. */
  method AddDigit(t: CompletedPoint, table: seq<ProjectiveNielsPoint>, x: int, ghost q: CurvePoint, ghost p: CurvePoint)
    returns (r: CompletedPoint)
    requires IsPrime(P) && Completes(t, q) && IsOddTable(table, p)
    requires x != 0 ==> x % 2 == 1 && -2 * |table| < x < 2 * |table|
    ensures Completes(r, Sum(q, Scale(x, p)))
  {
    SmallMultiples(p);
    CompletedMeaning(t, q);
    if x > 0 {
      assert 2 * (x / 2) + 1 == x;
      r := AddEntry(CompletedToExtended(t), table[x / 2], q, Scale(x, p));
    } else if x < 0 {
      assert 2 * (-x / 2) + 1 == -x;
      NegateMultiple(-x, p);
      SubProjectiveNielsCorrect(CompletedToExtended(t), q, table[-x / 2], Scale(-x, p));
      r := SubProjectiveNiels(CompletedToExtended(t), table[-x / 2]);
    } else {
      SumZero(q);
      r := t;
    }
  }

  /** The same with a table of affine entries. */
  method AddAffineDigit(t: CompletedPoint, table: seq<AffineNielsPoint>, x: int, ghost q: CurvePoint,
                        ghost p: CurvePoint)
    returns (r: CompletedPoint)
    requires IsPrime(P) && Completes(t, q) && IsAffineOddTable(table, p)
    requires x != 0 ==> x % 2 == 1 && -2 * |table| < x < 2 * |table|
    ensures Completes(r, Sum(q, Scale(x, p)))
  {
    SmallMultiples(p);
    CompletedMeaning(t, q);
    if x > 0 {
      assert 2 * (x / 2) + 1 == x;
      AffineNielsCorrect(CompletedToExtended(t), q, table[x / 2], Scale(x, p));
      r := AddAffineNiels(CompletedToExtended(t), table[x / 2]);
    } else if x < 0 {
      assert 2 * (-x / 2) + 1 == -x;
      NegateMultiple(-x, p);
      AffineNielsCorrect(CompletedToExtended(t), q, table[-x / 2], Scale(-x, p));
      r := SubAffineNiels(CompletedToExtended(t), table[-x / 2]);
    } else {
      SumZero(q);
      r := t;
    }
  }

  // Evaluation of digits from the top.

  /** The value of the digits from the i-th on, in radix 2^b. */
  function High(d: seq<int>, b: nat, i: nat): int
    requires i <= |d|
    decreases |d| - i
  {
    if i == |d| then 0 else d[i] + TwoTo(b) * High(d, b, i + 1)
  }

  lemma SplitTop(m: int, r: int, x: int, h: int)
    ensures m * (x + r * h) == x * m + (m * r) * h
  {}

  lemma {:induction false} HighIsValue(d: seq<int>, b: nat, i: nat)
    requires i <= |d|
    ensures Value(d, b, i) + TwoTo(b * i) * High(d, b, i) == Value(d, b, |d|)
    decreases |d| - i
  {
    if i < |d| {
      HighIsValue(d, b, i + 1);
      TwoToAdd(b * i, b);
      assert b * i + b == b * (i + 1);
      SplitTop(TwoTo(b * i), TwoTo(b), d[i], High(d, b, i + 1));
    }
  }

  /** The digits from index 0 on are all of them. */
  lemma HighAll(d: seq<int>, b: nat)
    ensures High(d, b, 0) == Value(d, b, |d|)
  {
    HighIsValue(d, b, 0);
    assert b * 0 == 0;
  }

  // a A + b B.

  ghost function Combine2(a: int, p: CurvePoint, b: int, q: CurvePoint): CurvePoint
    requires IsPrime(P)
  {
    Sum(Scale(a, p), Scale(b, q))
  }

  /** Doubling a combination and adding a digit of each scalar. */
  lemma CombinationStep(a: int, x: int, p: CurvePoint, b: int, y: int, q: CurvePoint)
    requires IsPrime(P)
    ensures var c := Combine2(a, p, b, q);
            Sum(Sum(Sum(c, c), Scale(x, p)), Scale(y, q)) == Combine2(2 * a + x, p, 2 * b + y, q)
  {
    var ap, bq, xp, yq := Scale(a, p), Scale(b, q), Scale(x, p), Scale(y, q);
    CurveIsAbelian();
    AddMultiples(a, a, p);
    AddMultiples(b, b, q);
    AddMultiples(2 * a, x, p);
    AddMultiples(2 * b, y, q);
    Exchange(CurveGroup(), ap, bq, ap, bq);
    SumAssociates(Sum(Sum(ap, ap), Sum(bq, bq)), xp, yq);
    Exchange(CurveGroup(), Sum(ap, ap), Sum(bq, bq), xp, yq);
  }

  /** The digits of a sparse form index the tables of the odd multiples. */
  lemma DigitInTable(d: seq<int>, w: nat, i: nat)
    requires 2 <= w <= 8 && i < |d| && IsSparse(d, w)
    ensures d[i] != 0 ==> d[i] % 2 == 1 && -TwoTo(w - 1) < d[i] < TwoTo(w - 1)
    ensures TwoTo(4) == 16 && TwoTo(7) == 128
  {}

  /** One column: a doubling, and an addition for each digit that is not zero. */
  method DoubleBaseStep(r: ProjectivePoint, x: int, y: int, tableA: seq<ProjectiveNielsPoint>,
                        tableB: seq<AffineNielsPoint>,
                        ghost a: int, ghost b: int, ghost p: CurvePoint, ghost q: CurvePoint)
    returns (r': ProjectivePoint)
    requires IsPrime(P) && IsOddTable(tableA, p) && IsAffineOddTable(tableB, q)
    requires Projects(r, Combine2(a, p, b, q))
    requires x != 0 ==> x % 2 == 1 && -2 * |tableA| < x < 2 * |tableA|
    requires y != 0 ==> y % 2 == 1 && -2 * |tableB| < y < 2 * |tableB|
    ensures Projects(r', Combine2(2 * a + x, p, 2 * b + y, q))
  {
    ghost var c := Combine2(a, p, b, q);
    var t := DoublePoint(r, c);
    t := AddDigit(t, tableA, x, Sum(c, c), p);
    t := AddAffineDigit(t, tableB, y, Sum(Sum(c, c), Scale(x, p)), q);
    CombinationStep(a, x, p, b, y, q);
    CompletedMeaning(t, Combine2(2 * a + x, p, 2 * b + y, q));
    r' := CompletedToProjective(t);
  }

  lemma IdentityProjects()
    ensures Projects(PROJECTIVE_IDENTITY, ZERO)
  {}

  /** Where every digit from i on is zero, so is their value. */
  lemma {:induction false} HighZero(d: seq<int>, b: nat, i: nat)
    requires i <= |d| && forall k :: i <= k < |d| ==> d[k] == 0
    ensures High(d, b, i) == 0
    decreases |d| - i
  {
    if i < |d| {
      HighZero(d, b, i + 1);
    }
  }

  /** The index of the highest digit of either scalar that is not zero, or 0. */
  method StartingIndex(a: seq<int>, b: seq<int>) returns (i: nat)
    requires |a| == |b| == 256
    ensures i < 256 && forall k :: i < k < 256 ==> a[k] == 0 && b[k] == 0
  {
    i := 255;
    while i > 0 && !(a[i] != 0 || b[i] != 0)
      invariant i < 256 && forall k :: i < k < 256 ==> a[k] == 0 && b[k] == 0
    {
      i := i - 1;
    }
  }

  /** What the columns from i on contribute. */
  ghost function Upper(d: seq<int>, e: seq<int>, i: nat, p: CurvePoint, q: CurvePoint): CurvePoint
    requires IsPrime(P) && i <= |d| == |e|
  {
    Combine2(High(d, 1, i), p, High(e, 1, i), q)
  }

  lemma UpperZero(d: seq<int>, e: seq<int>, i: nat, p: CurvePoint, q: CurvePoint)
    requires IsPrime(P) && i <= |d| == |e| && forall k :: i <= k < |d| ==> d[k] == 0 && e[k] == 0
    ensures Upper(d, e, i, p, q) == ZERO
  {
    HighZero(d, 1, i);
    HighZero(e, 1, i);
    SmallMultiples(p);
    SmallMultiples(q);
    SumZero(ZERO);
  }

  lemma HighBinary(d: seq<int>, i: nat)
    requires i < |d|
    ensures High(d, 1, i) == 2 * High(d, 1, i + 1) + d[i]
  {
    assert TwoTo(1) == 2;
  }

  lemma UpperStep(d: seq<int>, e: seq<int>, i: nat, p: CurvePoint, q: CurvePoint)
    requires IsPrime(P) && i < |d| == |e|
    ensures Upper(d, e, i, p, q) == Combine2(2 * High(d, 1, i + 1) + d[i], p, 2 * High(e, 1, i + 1) + e[i], q)
  {
    HighBinary(d, i);
    HighBinary(e, i);
  }

  method DoubleBaseColumn(r: ProjectivePoint, d: seq<int>, e: seq<int>, i: nat, tableA: seq<ProjectiveNielsPoint>,
                          tableB: seq<AffineNielsPoint>,
                          ghost p: CurvePoint, ghost q: CurvePoint)
    returns (r': ProjectivePoint)
    requires IsPrime(P) && |tableA| == 8 && |tableB| == 64 && IsOddTable(tableA, p) && IsAffineOddTable(tableB, q)
    requires i < |d| == |e| && IsSparse(d, 5) && IsSparse(e, 8) && Projects(r, Upper(d, e, i + 1, p, q))
    ensures Projects(r', Upper(d, e, i, p, q))
  {
    DigitInTable(d, 5, i);
    DigitInTable(e, 8, i);
    UpperStep(d, e, i, p, q);
    r' := DoubleBaseStep(r, d[i], e[i], tableA, tableB, High(d, 1, i + 1), High(e, 1, i + 1), p, q);
  }

  /** The loop over the columns, from the i-th down. */
  method DoubleBaseColumns(d: seq<int>, e: seq<int>, start: nat, tableA: seq<ProjectiveNielsPoint>,
                           tableB: seq<AffineNielsPoint>,
                           ghost p: CurvePoint, ghost q: CurvePoint)
    returns (r: ProjectivePoint)
    requires IsPrime(P) && |tableA| == 8 && |tableB| == 64 && IsOddTable(tableA, p) && IsAffineOddTable(tableB, q)
    requires start <= |d| == |e| && IsSparse(d, 5) && IsSparse(e, 8)
    requires Upper(d, e, start, p, q) == ZERO
    ensures Projects(r, Upper(d, e, 0, p, q))
  {
    r := PROJECTIVE_IDENTITY;
    IdentityProjects();
    var i := start;
    while i > 0
      invariant 0 <= i <= |d| && Projects(r, Upper(d, e, i, p, q))
    {
      i := i - 1;
      r := DoubleBaseColumn(r, d, e, i, tableA, tableB, p, q);
    }
  }

  /** a A + b B in variable time, B being a base point with a precomputed table of odd multiples. */
  method VartimeDoubleBaseMul(a: Scalar, A: EdwardsPoint, b: Scalar, tableB: seq<AffineNielsPoint>,
                              ghost p: CurvePoint, ghost q: CurvePoint)
    returns (r: EdwardsPoint)
    requires IsPrime(P) && Extends(A, p) && |tableB| == 64 && IsAffineOddTable(tableB, q)
    ensures Extends(r, Combine2(a, p, b, q))
  {
    var aNaf := NonAdjacentForm(a, 5);
    var bNaf := NonAdjacentForm(b, 8);
    var i := StartingIndex(aNaf, bNaf);
    var tableA := NafLookupTable5(A, p);
    UpperZero(aNaf, bNaf, i + 1, p, q);
    var s := DoubleBaseColumns(aNaf, bNaf, i + 1, tableA, tableB, p, q);
    HighAll(aNaf, 1);
    HighAll(bNaf, 1);
    ProjectiveMeaning(s, Combine2(a, p, b, q));
    r := ProjectiveToExtended(s);
  }
}
