/** Sums of multiples n_0 p_0 + n_1 p_1 + ... of points of the curve. */
module LinearCombinations {
  import opened Congruence
  import opened Primes
  import opened Field
  import opened Digits
  import opened EdwardsGroup
  import opened ScalarMul
  import opened Multiscalar

  /** The sum of the first n multiples. */
  ghost function Combination(ns: seq<int>, ps: seq<CurvePoint>, n: nat): CurvePoint
    requires IsPrime(P) && n <= |ns| && n <= |ps|
  {
    if n == 0 then ZERO else Sum(Combination(ns, ps, n - 1), Scale(ns[n - 1], ps[n - 1]))
  }

  /** m (m' p) + x p = (m m' + x) p */
  lemma HornerStep(m: int, n: int, x: int, p: CurvePoint)
    requires IsPrime(P)
    ensures Sum(Scale(m, Scale(n, p)), Scale(x, p)) == Scale(m * n + x, p)
  {
    NestMultiples(m, n, p);
    AddMultiples(m * n, x, p);
  }

  lemma NextHornerStep(m: int, c: CurvePoint, d: CurvePoint, n: int, x: int, p: CurvePoint)
    requires IsPrime(P)
    ensures Sum(Scale(m, Sum(c, Scale(n, p))), Sum(d, Scale(x, p))) == Sum(Sum(Scale(m, c), d), Scale(m * n + x, p))
  {
    ScaleSum(m, c, Scale(n, p));
    ExchangeSums(Scale(m, c), Scale(m, Scale(n, p)), d, Scale(x, p));
    HornerStep(m, n, x, p);
  }

  /** One step of a simultaneous Horner evaluation. */
  lemma {:induction false} CombinationStep(m: int, ns: seq<int>, xs: seq<int>, rs: seq<int>, ps: seq<CurvePoint>,
                                           n: nat)
    requires IsPrime(P) && n <= |ns| && n <= |xs| && n <= |rs| && n <= |ps|
    requires forall k :: 0 <= k < n ==> rs[k] == m * ns[k] + xs[k]
    ensures Sum(Scale(m, Combination(ns, ps, n)), Combination(xs, ps, n)) == Combination(rs, ps, n)
  {
    if n == 0 {
      ScaleZero(m);
      SumZero(ZERO);
    } else {
      CombinationStep(m, ns, xs, rs, ps, n - 1);
      NextHornerStep(m, Combination(ns, ps, n - 1), Combination(xs, ps, n - 1), ns[n - 1], xs[n - 1], ps[n - 1]);
    }
  }

  lemma {:induction false} CombinationZero(ns: seq<int>, ps: seq<CurvePoint>, n: nat)
    requires IsPrime(P) && n <= |ns| && n <= |ps| && forall k :: 0 <= k < n ==> ns[k] == 0
    ensures Combination(ns, ps, n) == ZERO
  {
    if n > 0 {
      CombinationZero(ns, ps, n - 1);
      SmallMultiples(ps[n - 1]);
      SumZero(ZERO);
    }
  }

  lemma {:induction false} SameCombination(ns: seq<int>, ms: seq<int>, ps: seq<CurvePoint>, n: nat)
    requires IsPrime(P) && n <= |ns| && n <= |ms| && n <= |ps| && forall k :: 0 <= k < n ==> ns[k] == ms[k]
    ensures Combination(ns, ps, n) == Combination(ms, ps, n)
  {
    if n > 0 {
      SameCombination(ns, ms, ps, n - 1);
    }
  }

  // Digits of many scalars.

  predicate HasColumns(ds: seq<seq<int>>, width: nat) {
    forall k :: 0 <= k < |ds| ==> |ds[k]| == width
  }

  /** The i-th digit of each scalar. */
  function Column(ds: seq<seq<int>>, width: nat, i: nat): (c: seq<int>)
    requires HasColumns(ds, width) && i < width
    ensures |c| == |ds| && forall k :: 0 <= k < |ds| ==> c[k] == ds[k][i]
  {
    seq(|ds|, k requires 0 <= k < |ds| => ds[k][i])
  }

  /** The value of the digits of each scalar from the i-th on. */
  function Highs(ds: seq<seq<int>>, width: nat, b: nat, i: nat): (c: seq<int>)
    requires HasColumns(ds, width) && i <= width
    ensures |c| == |ds| && forall k :: 0 <= k < |ds| ==> c[k] == High(ds[k], b, i)
  {
    seq(|ds|, k requires 0 <= k < |ds| => High(ds[k], b, i))
  }

  /** What the columns from i on contribute to the combination. */
  ghost function Columns(ds: seq<seq<int>>, width: nat, b: nat, i: nat, ps: seq<CurvePoint>): CurvePoint
    requires IsPrime(P) && HasColumns(ds, width) && i <= width && |ds| == |ps|
  {
    Combination(Highs(ds, width, b, i), ps, |ps|)
  }

  lemma ColumnsStep(ds: seq<seq<int>>, width: nat, b: nat, i: nat, ps: seq<CurvePoint>)
    requires IsPrime(P) && HasColumns(ds, width) && i < width && |ds| == |ps|
    ensures Sum(Scale(TwoTo(b), Columns(ds, width, b, i + 1, ps)), Combination(Column(ds, width, i), ps, |ps|))
            == Columns(ds, width, b, i, ps)
  {
    CombinationStep(TwoTo(b), Highs(ds, width, b, i + 1), Column(ds, width, i), Highs(ds, width, b, i), ps, |ps|);
  }

  lemma ColumnsNone(ds: seq<seq<int>>, width: nat, b: nat, i: nat, ps: seq<CurvePoint>)
    requires IsPrime(P) && HasColumns(ds, width) && i <= width && |ds| == |ps|
    requires forall k, j :: 0 <= k < |ds| && i <= j < width ==> ds[k][j] == 0
    ensures Columns(ds, width, b, i, ps) == ZERO
  {
    forall k | 0 <= k < |ds|
      ensures High(ds[k], b, i) == 0
    {
      HighZero(ds[k], b, i);
    }
    CombinationZero(Highs(ds, width, b, i), ps, |ps|);
  }

  lemma ColumnsAll(ds: seq<seq<int>>, width: nat, b: nat, ns: seq<int>, ps: seq<CurvePoint>)
    requires IsPrime(P) && HasColumns(ds, width) && |ds| == |ps| == |ns|
    requires forall k :: 0 <= k < |ds| ==> Value(ds[k], b, width) == ns[k]
    ensures Columns(ds, width, b, 0, ps) == Combination(ns, ps, |ps|)
  {
    forall k | 0 <= k < |ds|
      ensures High(ds[k], b, 0) == ns[k]
    {
      HighAll(ds[k], b);
    }
    SameCombination(Highs(ds, width, b, 0), ns, ps, |ps|);
  }
}
