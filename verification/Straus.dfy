/** Multiscalar multiplication by interleaved sparse digits. */
module Straus {
  import opened Congruence
  import opened Primes
  import opened Field
  import opened Digits
  import opened Recoding
  import opened Options
  import opened Edwards
  import opened EdwardsGroup
  import opened CurveModels
  import opened ScalarMul
  import opened Multiscalar
  import opened LinearCombinations

  /** Optional points, together with the points of the curve that those present stand for. */
  ghost predicate Denote(points: seq<Option<EdwardsPoint>>, ps: seq<CurvePoint>) {
    |points| == |ps| && forall k :: 0 <= k < |points| && points[k].Some? ==> Extends(points[k].value, ps[k])
  }

  predicate AllPresent(points: seq<Option<EdwardsPoint>>) {
    forall k :: 0 <= k < |points| ==> points[k].Some?
  }

  ghost predicate AreSparse(nafs: seq<seq<int>>) {
    HasColumns(nafs, 256) && forall k :: 0 <= k < |nafs| ==> IsSparse(nafs[k], 5)
  }

  method SparseForms(scalars: seq<Scalar>) returns (nafs: seq<seq<int>>)
    ensures |nafs| == |scalars| && AreSparse(nafs)
    ensures forall k :: 0 <= k < |nafs| ==> Value(nafs[k], 1, 256) == scalars[k]
  {
    nafs := [];
    for k := 0 to |scalars|
      invariant |nafs| == k && AreSparse(nafs)
      invariant forall j :: 0 <= j < k ==> Value(nafs[j], 1, 256) == scalars[j]
    {
      var naf := NonAdjacentForm(scalars[k], 5);
      nafs := nafs + [naf];
    }
  }

  ghost predicate AreTables(ts: seq<seq<ProjectiveNielsPoint>>, ps: seq<CurvePoint>)
    requires IsPrime(P)
  {
    |ts| <= |ps| && forall k :: 0 <= k < |ts| ==> |ts[k]| == 8 && IsOddTable(ts[k], ps[k])
  }

  /** The tables of all points, or nothing if one point is missing. */
  method Tables(points: seq<Option<EdwardsPoint>>, ghost ps: seq<CurvePoint>)
    returns (ts: Option<seq<seq<ProjectiveNielsPoint>>>)
    requires IsPrime(P) && Denote(points, ps)
    ensures ts.Some? <==> AllPresent(points)
    ensures ts.Some? ==> |ts.value| == |points| && AreTables(ts.value, ps)
  {
    var tables := [];
    for k := 0 to |points|
      invariant |tables| == k && AreTables(tables, ps)
      invariant forall j :: 0 <= j < k ==> points[j].Some?
    {
      if points[k].None? {
        return None;
      }
      var table := NafLookupTable5(points[k].value, ps[k]);
      tables := tables + [table];
    }
    ts := Some(tables);
  }

  /** Adds the digits of one column to t. */
  method AddColumn(t: CompletedPoint, nafs: seq<seq<int>>, i: nat, tables: seq<seq<ProjectiveNielsPoint>>,
                   ghost q: CurvePoint, ghost ps: seq<CurvePoint>)
    returns (r: CompletedPoint)
    requires IsPrime(P) && AreSparse(nafs) && i < 256 && |nafs| == |tables| == |ps| && AreTables(tables, ps)
             && Completes(t, q)
    ensures Completes(r, Sum(q, Combination(Column(nafs, 256, i), ps, |ps|)))
  {
    ghost var xs := Column(nafs, 256, i);
    r := t;
    SumZero(q);
    for k := 0 to |nafs|
      invariant Completes(r, Sum(q, Combination(xs, ps, k)))
    {
      DigitInTable(nafs[k], 5, i);
      r := AddDigit(r, tables[k], nafs[k][i], Sum(q, Combination(xs, ps, k)), ps[k]);
      SumAssociates(q, Combination(xs, ps, k), Scale(xs[k], ps[k]));
    }
  }

  /** One column: a doubling shared by all points, and their digits. */
  method StrausStep(r: ProjectivePoint, nafs: seq<seq<int>>, i: nat, tables: seq<seq<ProjectiveNielsPoint>>,
                    ghost ps: seq<CurvePoint>)
    returns (r': ProjectivePoint)
    requires IsPrime(P) && AreSparse(nafs) && i < 256 && |nafs| == |tables| == |ps| && AreTables(tables, ps)
    requires Projects(r, Columns(nafs, 256, 1, i + 1, ps))
    ensures Projects(r', Columns(nafs, 256, 1, i, ps))
  {
    ghost var c := Columns(nafs, 256, 1, i + 1, ps);
    var t := DoublePoint(r, c);
    t := AddColumn(t, nafs, i, tables, Sum(c, c), ps);
    SmallMultiples(c);
    AddMultiples(1, 1, c);
    assert TwoTo(1) == 2;
    ColumnsStep(nafs, 256, 1, i, ps);
    CompletedMeaning(t, Columns(nafs, 256, 1, i, ps));
    r' := CompletedToProjective(t);
  }

  /** The sum of all multiples, or nothing if one point is missing. */
  method StrausMul(scalars: seq<Scalar>, points: seq<Option<EdwardsPoint>>, ghost ps: seq<CurvePoint>)
    returns (r: Option<EdwardsPoint>)
    requires IsPrime(P) && |scalars| == |points| && Denote(points, ps)
    ensures r.Some? <==> AllPresent(points)
    ensures r.Some? ==> Extends(r.value, Combination(scalars, ps, |ps|))
  {
    var nafs := SparseForms(scalars);
    var tables := Tables(points, ps);
    if tables.None? {
      return None;
    }
    var s := PROJECTIVE_IDENTITY;
    IdentityProjects();
    ColumnsNone(nafs, 256, 1, 256, ps);
    for i := 256 downto 0
      invariant Projects(s, Columns(nafs, 256, 1, i, ps))
    {
      s := StrausStep(s, nafs, i, tables.value, ps);
    }
    ColumnsAll(nafs, 256, 1, scalars, ps);
    ProjectiveMeaning(s, Combination(scalars, ps, |ps|));
    r := Some(ProjectiveToExtended(s));
  }
}
