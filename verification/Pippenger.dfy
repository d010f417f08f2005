/** Multiscalar multiplication by buckets, for many points, and the choice between it and Straus. */
module Pippenger {
  import opened Congruence
  import opened Primes
  import opened Field
  import opened Recoding
  import opened Options
  import opened Edwards
  import opened EdwardsGroup
  import opened CurveModels
  import opened ScalarMul
  import opened Multiscalar
  import opened LinearCombinations
  import opened Straus

  // The value of the buckets.

  /** The sum of the buckets from the i-th on, the j-th counted j + 1 times. */
  ghost function Weighted(bs: seq<CurvePoint>, i: nat): CurvePoint
    requires IsPrime(P) && i <= |bs|
    decreases |bs| - i
  {
    if i == |bs| then ZERO else Sum(Scale(i + 1, bs[i]), Weighted(bs, i + 1))
  }

  /** The plain sum of the buckets from the i-th on. */
  ghost function Suffix(bs: seq<CurvePoint>, i: nat): CurvePoint
    requires IsPrime(P) && i <= |bs|
    decreases |bs| - i
  {
    if i == |bs| then ZERO else Sum(bs[i], Suffix(bs, i + 1))
  }

  /** The sum of the plain sums. */
  ghost function SuffixSums(bs: seq<CurvePoint>, i: nat): CurvePoint
    requires IsPrime(P) && i <= |bs|
    decreases |bs| - i
  {
    if i == |bs| then ZERO else Sum(SuffixSums(bs, i + 1), Suffix(bs, i))
  }

  /** (w + i q) + (i + 1) b regrouped */
  lemma Regroup(i: nat, b: CurvePoint, s: CurvePoint, q: CurvePoint)
    requires IsPrime(P)
    ensures Sum(Scale(i + 1, b), Sum(s, Scale(i + 1, q))) == Sum(Sum(s, Sum(b, q)), Scale(i, Sum(b, q)))
  {
    var bq := Sum(b, q);
    ScaleSum(i + 1, b, q);
    AddMultiples(1, i, bq);
    SmallMultiples(bq);
    SumAssociates(s, bq, Scale(i, bq));
    SumCommutes(Scale(i + 1, b), Sum(s, Scale(i + 1, q)));
    SumAssociates(s, Scale(i + 1, q), Scale(i + 1, b));
    SumCommutes(Scale(i + 1, q), Scale(i + 1, b));
  }

  /** Two running sums apply the weights. */
  lemma {:induction false} RunningSums(bs: seq<CurvePoint>, i: nat)
    requires IsPrime(P) && i <= |bs|
    ensures Weighted(bs, i) == Sum(SuffixSums(bs, i), Scale(i, Suffix(bs, i)))
    decreases |bs| - i
  {
    if i == |bs| {
      ScaleZero(i);
      SumZero(ZERO);
    } else {
      RunningSums(bs, i + 1);
      Regroup(i, bs[i], SuffixSums(bs, i + 1), Suffix(bs, i + 1));
    }
  }

  lemma SwapLast(a: CurvePoint, b: CurvePoint, c: CurvePoint)
    requires IsPrime(P)
    ensures Sum(Sum(a, b), c) == Sum(Sum(a, c), b)
  {
    SumAssociates(a, b, c);
    SumAssociates(a, c, b);
    SumCommutes(b, c);
  }

  /** Adding a point to the b-th bucket adds its (b + 1)-fold to the value. */
  lemma {:induction false} WeightedUpdate(bs: seq<CurvePoint>, b: nat, q: CurvePoint, i: nat)
    requires IsPrime(P) && i <= |bs| && b < |bs|
    ensures Weighted(bs[b := Sum(bs[b], q)], i)
         == if i <= b then Sum(Weighted(bs, i), Scale(b + 1, q)) else Weighted(bs, i)
    decreases |bs| - i
  {
    var bs' := bs[b := Sum(bs[b], q)];
    if i < |bs| {
      WeightedUpdate(bs, b, q, i + 1);
      var w, d := Weighted(bs, i + 1), Scale(b + 1, q);
      if i == b {
        ScaleSum(b + 1, bs[b], q);
        SwapLast(Scale(b + 1, bs[b]), d, w);
      } else if i < b {
        SumAssociates(Scale(i + 1, bs[i]), w, d);
      }
    }
  }

  lemma EmptyBucket(i: nat)
    requires IsPrime(P)
    ensures Sum(Scale(i + 1, ZERO), ZERO) == ZERO
  {
    ScaleZero(i + 1);
    SumZero(ZERO);
  }

  lemma {:induction false} WeightedEmpty(bs: seq<CurvePoint>, i: nat)
    requires IsPrime(P) && i <= |bs| && forall j :: 0 <= j < |bs| ==> bs[j] == ZERO
    ensures Weighted(bs, i) == ZERO
    decreases |bs| - i
  {
    if i < |bs| {
      WeightedEmpty(bs, i + 1);
      EmptyBucket(i);
    }
  }

  // The buckets.

  predicate Hold(buckets: seq<EdwardsPoint>, bs: seq<CurvePoint>) {
    |buckets| == |bs| && forall j :: 0 <= j < |bs| ==> Extends(buckets[j], bs[j])
  }

  lemma IdentityExtends()
    ensures Extends(IDENTITY, ZERO)
  {}

  method AddPoints(point: EdwardsPoint, other: EdwardsPoint, ghost p: CurvePoint, ghost q: CurvePoint)
    returns (r: EdwardsPoint)
    requires IsPrime(P) && Extends(point, p) && Extends(other, q)
    ensures Extends(r, Sum(p, q))
  {
    NielsMeaning(other, q);
    var c := AddEntry(point, ToProjectiveNiels(other), p, q);
    r := CompletedToExtended(c);
  }

  method SubEntry(point: EdwardsPoint, n: ProjectiveNielsPoint, ghost p: CurvePoint, ghost q: CurvePoint)
    returns (r: EdwardsPoint)
    requires IsPrime(P) && Extends(point, p) && IsNiels(n, q)
    ensures Extends(r, Sum(p, Negate(q)))
  {
    SubProjectiveNielsCorrect(point, p, n, q);
    CompletedMeaning(SubProjectiveNiels(point, n), Sum(p, Negate(q)));
    r := CompletedToExtended(SubProjectiveNiels(point, n));
  }

  lemma NegatedTwice(x: int, p: CurvePoint)
    requires IsPrime(P)
    ensures Scale(-x, Negate(p)) == Scale(x, p)
  {
    SmallMultiples(p);
    NegateMultiple(1, p);
    NestMultiples(-x, -1, p);
  }

  /** Sorts one point into the buckets by its digit. */
  method AddToBucket(buckets: array<EdwardsPoint>, x: int, n: ProjectiveNielsPoint, ghost bs: seq<CurvePoint>,
                     ghost p: CurvePoint)
    returns (ghost bs': seq<CurvePoint>)
    requires IsPrime(P) && Hold(buckets[..], bs) && IsNiels(n, p) && -|bs| <= x <= |bs|
    modifies buckets
    ensures |bs'| == |bs| && Hold(buckets[..], bs')
    ensures Weighted(bs', 0) == Sum(Weighted(bs, 0), Scale(x, p))
  {
    bs' := bs;
    if x > 0 {
      var b := x - 1;
      var c := AddEntry(buckets[b], n, bs[b], p);
      buckets[b] := CompletedToExtended(c);
      bs' := bs[b := Sum(bs[b], p)];
      WeightedUpdate(bs, b, p, 0);
    } else if x < 0 {
      var b := -x - 1;
      buckets[b] := SubEntry(buckets[b], n, bs[b], p);
      bs' := bs[b := Sum(bs[b], Negate(p))];
      WeightedUpdate(bs, b, Negate(p), 0);
      NegatedTwice(x, p);
    } else {
      SmallMultiples(p);
      SumZero(Weighted(bs, 0));
    }
  }

  /** Empties the buckets. */
  method ClearBuckets(buckets: array<EdwardsPoint>) returns (ghost bs: seq<CurvePoint>)
    requires IsPrime(P)
    modifies buckets
    ensures |bs| == buckets.Length && Hold(buckets[..], bs) && Weighted(bs, 0) == ZERO
  {
    IdentityExtends();
    for i := 0 to buckets.Length
      invariant forall j :: 0 <= j < i ==> buckets[j] == IDENTITY
    {
      buckets[i] := IDENTITY;
    }
    bs := seq(buckets.Length, j => ZERO);
    WeightedEmpty(bs, 0);
  }

  lemma LastBucket(bs: seq<CurvePoint>)
    requires IsPrime(P) && |bs| > 0
    ensures Suffix(bs, |bs| - 1) == bs[|bs| - 1] == SuffixSums(bs, |bs| - 1)
  {
    SumZero(bs[|bs| - 1]);
    assert Suffix(bs, |bs|) == ZERO == SuffixSums(bs, |bs|);
  }

  /** The weighted sum of the buckets, by an intermediate sum and a sum of the intermediate sums. */
  method SumBuckets(buckets: array<EdwardsPoint>, ghost bs: seq<CurvePoint>) returns (sum: EdwardsPoint)
    requires IsPrime(P) && Hold(buckets[..], bs) && |bs| > 0
    ensures Extends(sum, Weighted(bs, 0))
  {
    ghost var last := |bs| - 1;
    var intermediate := buckets[buckets.Length - 1];
    sum := buckets[buckets.Length - 1];
    LastBucket(bs);
    for i := buckets.Length - 1 downto 0
      invariant Extends(intermediate, Suffix(bs, i)) && Extends(sum, SuffixSums(bs, i))
    {
      assert Extends(buckets[..][i], bs[i]);
      SumCommutes(bs[i], Suffix(bs, i + 1));
      intermediate := AddPoints(intermediate, buckets[i], Suffix(bs, i + 1), bs[i]);
      sum := AddPoints(sum, intermediate, SuffixSums(bs, i + 1), Suffix(bs, i));
    }
    RunningSums(bs, 0);
    SmallMultiples(Suffix(bs, 0));
    SumZero(SuffixSums(bs, 0));
  }

  // The columns of digits.

  predicate AreNiels(ns: seq<ProjectiveNielsPoint>, ps: seq<CurvePoint>) {
    |ns| <= |ps| && forall k :: 0 <= k < |ns| ==> IsNiels(ns[k], ps[k])
  }

  /** The digits of a column fit the buckets. */
  predicate ColumnFits(digits: seq<seq<int>>, i: nat, count: int) {
    HasColumns(digits, 43) && i < 43 && forall k :: 0 <= k < |digits| ==> -count <= digits[k][i] <= count
  }

  lemma ColumnDigit(digits: seq<seq<int>>, i: nat, count: int, k: nat)
    requires ColumnFits(digits, i, count) && k < |digits|
    ensures |digits[k]| == 43 && -count <= digits[k][i] <= count && Column(digits, 43, i)[k] == digits[k][i]
  {}

  /** The combination of the points by one column of digits. */
  method ColumnSum(buckets: array<EdwardsPoint>, digits: seq<seq<int>>, i: nat, ns: seq<ProjectiveNielsPoint>,
                   ghost ps: seq<CurvePoint>)
    returns (sum: EdwardsPoint)
    requires IsPrime(P) && buckets.Length > 0 && ColumnFits(digits, i, buckets.Length)
    requires |digits| == |ns| == |ps| && AreNiels(ns, ps)
    modifies buckets
    ensures Extends(sum, Combination(Column(digits, 43, i), ps, |ps|))
  {
    ghost var xs := Column(digits, 43, i);
    ghost var bs := ClearBuckets(buckets);
    for k := 0 to |ns|
      invariant |bs| == buckets.Length && Hold(buckets[..], bs)
      invariant Weighted(bs, 0) == Combination(xs, ps, k)
    {
      ColumnDigit(digits, i, |bs|, k);
      var x := digits[k][i];
      bs := AddToBucket(buckets, x, ns[k], bs, ps[k]);
    }
    sum := SumBuckets(buckets, bs);
  }

  /** One more column from the top. */
  method PippengerStep(buckets: array<EdwardsPoint>, total: EdwardsPoint, w: nat, digits: seq<seq<int>>, i: nat,
                       ns: seq<ProjectiveNielsPoint>, ghost ps: seq<CurvePoint>)
    returns (r: EdwardsPoint)
    requires IsPrime(P) && buckets.Length > 0 && ColumnFits(digits, i, buckets.Length)
    requires |digits| == |ns| == |ps| && AreNiels(ns, ps) && w > 0
    requires Extends(total, Columns(digits, 43, w, i + 1, ps))
    modifies buckets
    ensures Extends(r, Columns(digits, 43, w, i, ps))
  {
    ghost var c := Columns(digits, 43, w, i + 1, ps);
    var column := ColumnSum(buckets, digits, i, ns, ps);
    var shifted := MulByPow2(total, w, c);
    r := AddPoints(shifted, column, Scale(TwoTo(w), c), Combination(Column(digits, 43, i), ps, |ps|));
    ColumnsStep(digits, 43, w, i, ps);
  }

  /** Above the highest column there is nothing, so that it needs no doubling. */
  lemma HighestColumn(digits: seq<seq<int>>, w: nat, i: nat, ps: seq<CurvePoint>)
    requires IsPrime(P) && HasColumns(digits, 43) && i < 43 && |digits| == |ps|
    requires forall k, j :: 0 <= k < |digits| && i + 1 <= j < 43 ==> digits[k][j] == 0
    ensures Columns(digits, 43, w, i, ps) == Combination(Column(digits, 43, i), ps, |ps|)
  {
    ColumnsNone(digits, 43, w, i + 1, ps);
    ColumnsStep(digits, 43, w, i, ps);
    ScaleZero(TwoTo(w));
    SumZero(Combination(Column(digits, 43, i), ps, |ps|));
  }

  ghost predicate AreRadix2w(digits: seq<seq<int>>, scalars: seq<Scalar>, w: nat)
    requires 6 <= w <= 8
  {
    |digits| <= |scalars| && forall k :: 0 <= k < |digits| ==> IsRadix2w(digits[k], scalars[k], w)
  }

  method RadixForms(scalars: seq<Scalar>, w: nat) returns (digits: seq<seq<int>>)
    requires 6 <= w <= 8
    ensures |digits| == |scalars| && AreRadix2w(digits, scalars, w)
  {
    digits := [];
    for k := 0 to |scalars|
      invariant |digits| == k && AreRadix2w(digits, scalars, w)
    {
      var d := ToRadix2w(scalars[k], w);
      digits := digits + [d];
    }
  }

  method NielsForms(points: seq<Option<EdwardsPoint>>, ghost ps: seq<CurvePoint>)
    returns (ns: Option<seq<ProjectiveNielsPoint>>)
    requires Denote(points, ps)
    ensures ns.Some? <==> AllPresent(points)
    ensures ns.Some? ==> |ns.value| == |points| && AreNiels(ns.value, ps)
  {
    var s := [];
    for k := 0 to |points|
      invariant |s| == k && AreNiels(s, ps)
      invariant forall j :: 0 <= j < k ==> points[j].Some?
    {
      if points[k].None? {
        return None;
      }
      NielsMeaning(points[k].value, ps[k]);
      s := s + [ToProjectiveNiels(points[k].value)];
    }
    ns := Some(s);
  }

  lemma DigitsFit(digits: seq<seq<int>>, scalars: seq<Scalar>, w: nat, i: nat)
    requires 6 <= w <= 8 && i < 43 && AreRadix2w(digits, scalars, w)
    ensures ColumnFits(digits, i, TwoTo(w - 1)) && TwoTo(w) / 2 == TwoTo(w - 1)
  {}

  /** The digit width for a number of points. */
  function Width(size: nat): (w: nat)
    ensures 6 <= w <= 8
  {
    if size < 500 then 6 else if size < 800 then 7 else 8
  }

  /** The sum of all multiples, or nothing if one point is missing. */
  method PippengerMul(scalars: seq<Scalar>, points: seq<Option<EdwardsPoint>>, ghost ps: seq<CurvePoint>)
    returns (r: Option<EdwardsPoint>)
    requires IsPrime(P) && |scalars| == |points| && Denote(points, ps)
    ensures r.Some? <==> AllPresent(points)
    ensures r.Some? ==> Extends(r.value, Combination(scalars, ps, |ps|))
  {
    var w := Width(|scalars|);
    var digitsCount := SizeHint(w);
    var digits := RadixForms(scalars, w);
    var ns := NielsForms(points, ps);
    if ns.None? {
      return None;
    }
    DigitsFit(digits, scalars, w, 0);
    var buckets := new EdwardsPoint[TwoTo(w) / 2](_ => IDENTITY);
    var i := digitsCount - 1;
    DigitsFit(digits, scalars, w, i);
    HighestColumn(digits, w, i, ps);
    var total := ColumnSum(buckets, digits, i, ns.value, ps);
    while i > 0
      invariant 0 <= i < 43 && Extends(total, Columns(digits, 43, w, i, ps))
    {
      i := i - 1;
      DigitsFit(digits, scalars, w, i);
      total := PippengerStep(buckets, total, w, digits, i, ns.value, ps);
    }
    ColumnsAll(digits, 43, w, scalars, ps);
    r := Some(total);
  }

  /** The multiscalar multiplication of the library: one result, whichever of the two algorithms the size selects. */
  method OptionalMultiscalarMul(scalars: seq<Scalar>, points: seq<Option<EdwardsPoint>>, ghost ps: seq<CurvePoint>)
    returns (r: Option<EdwardsPoint>)
    requires IsPrime(P) && |scalars| == |points| && Denote(points, ps)
    ensures r.Some? <==> AllPresent(points)
    ensures r.Some? ==> Extends(r.value, Combination(scalars, ps, |ps|))
  {
    if |scalars| < 190 {
      r := StrausMul(scalars, points, ps);
    } else {
      r := PippengerMul(scalars, points, ps);
    }
  }
}
