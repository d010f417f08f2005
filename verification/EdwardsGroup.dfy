/** The points of the curve, and the abelian group that they form under the addition law. */
module EdwardsGroup {
  import opened Congruence
  import opened Primes
  import opened Field
  import opened Edwards
  import opened Groups
  import opened EdwardsLaw

  datatype Affine = Affine(x: FieldElement, y: FieldElement)

  /** 0 <= a < p, with a counter as in Congruence.RemainderAt. */
  predicate IsReducedAt(a: FieldElement, k: nat)
    decreases a, k
  {
    if k == 0 then 0 <= a < P else IsReducedAt(a, k - 1)
  }

  predicate IsReduced(a: FieldElement) {
    IsReducedAt(a, 3)
  }

  lemma ReducedRange(a: FieldElement)
    ensures IsReduced(a) <==> 0 <= a < P
  {
    assert IsReducedAt(a, 1) == IsReducedAt(a, 0);
    assert IsReducedAt(a, 2) == IsReducedAt(a, 1);
  }

  lemma ZeroOnCurve()
    ensures OnCurve(0, 1) && IsReduced(0) && IsReduced(1)
  {
    CurveEquation(0, 1);
    ReducedRange(0);
    ReducedRange(1);
  }

  /** A point of the curve in canonical affine coordinates. */
  type CurvePoint = a: Affine | IsReduced(a.x) && IsReduced(a.y) && OnCurve(a.x, a.y)
    witness (ZeroOnCurve(); Affine(0, 1))

  /** The canonical coordinates of a point. */
  lemma CanonicalPoint(x: FieldElement, y: FieldElement)
    requires OnCurve(x, y)
    ensures var x', y' := Remainder(P, x), Remainder(P, y);
            IsReduced(x') && IsReduced(y') && OnCurve(x', y') && Eq(x', x) && Eq(y', y)
  {
    Residue(P, x);
    Residue(P, y);
    ReducedRange(Remainder(P, x));
    ReducedRange(Remainder(P, y));
    OnCurveCong(x, y, Remainder(P, x), Remainder(P, y));
  }

  function Delta(x1: FieldElement, y1: FieldElement, x2: FieldElement, y2: FieldElement): FieldElement {
    EDWARDS_D * ((x1 * y1) * (x2 * y2))
  }

  /** The addition law is complete: its denominators never vanish on the curve. */
  lemma Complete(x1: FieldElement, y1: FieldElement, x2: FieldElement, y2: FieldElement)
    requires IsPrime(P) && OnCurve(x1, y1) && OnCurve(x2, y2)
    ensures var dl := Delta(x1, y1, x2, y2); !Eq(1 + dl, 0) && !Eq(1 - dl, 0)
  {
    CurveHasLaw();
    CurveEquation(x1, y1);
    CurveEquation(x2, y2);
    LawIsComplete(P, EDWARDS_D, x1, y1, x2, y2);
  }

  // The sum.

  /** (x3, y3) is the sum of (x1, y1) and (x2, y2), stated without division. */
  predicate IsSum(x1: FieldElement, y1: FieldElement, x2: FieldElement, y2: FieldElement, x3: FieldElement,
                  y3: FieldElement) {
    AddsUpAt(P, EDWARDS_D, x1, y1, x2, y2, x3, y3, 3)
  }

  lemma SumLaw(x1: FieldElement, y1: FieldElement, x2: FieldElement, y2: FieldElement, x3: FieldElement,
               y3: FieldElement)
    ensures IsSum(x1, y1, x2, y2, x3, y3)
       <==> var dl := Delta(x1, y1, x2, y2);
            Eq(x3 * (1 + dl), x1 * y2 + x2 * y1) && Eq(y3 * (1 - dl), y1 * y2 + x1 * x2)
  {
    UnfoldedSum(P, EDWARDS_D, x1, y1, x2, y2, x3, y3);
  }

  lemma CurveForm(x: FieldElement, y: FieldElement)
    requires OnCurve(x, y)
    ensures Eq(EDWARDS_D * ((x * y) * (x * y)), y * y - x * x - 1)
  {
    CurveEquation(x, y);
    EdwardsForm(P, EDWARDS_D, x, y);
  }

  /** Adding the point (i, 0) of order four takes (x, y) to (i y, i x). */
  lemma ShiftOnCurve(x: FieldElement, y: FieldElement)
    requires OnCurve(x, y)
    ensures OnCurve(SQRT_M1 * y, SQRT_M1 * x)
  {
    var i := SQRT_M1;
    Constants();
    CurveEquation(x, y);
    CurveEquation(i * y, i * x);
    ShiftOnEdwards(P, EDWARDS_D, i, x, y);
  }

  // The group.

  lemma SumExists(a: CurvePoint, b: CurvePoint)
    requires IsPrime(P)
    ensures exists c: CurvePoint :: IsSum(a.x, a.y, b.x, b.y, c.x, c.y)
  {
    CurveHasLaw();
    CurveEquation(a.x, a.y);
    CurveEquation(b.x, b.y);
    var x, y := LawHasSum(P, EDWARDS_D, a.x, a.y, b.x, b.y);
    CurveEquation(x, y);
    ReducedRange(x);
    ReducedRange(y);
    SumLaw(a.x, a.y, b.x, b.y, x, y);
    var c: CurvePoint := Affine(x, y);
    assert IsSum(a.x, a.y, b.x, b.y, c.x, c.y);
  }

  /** The sum of two points: by completeness and closure, the one point that the law determines. */
  ghost function Sum(a: CurvePoint, b: CurvePoint): (c: CurvePoint)
    requires IsPrime(P)
    ensures IsSum(a.x, a.y, b.x, b.y, c.x, c.y)
  {
    SumExists(a, b);
    var c: CurvePoint :| IsSum(a.x, a.y, b.x, b.y, c.x, c.y);
    c
  }

  lemma SumEquations(a: CurvePoint, b: CurvePoint)
    requires IsPrime(P)
    ensures var c, dl := Sum(a, b), Delta(a.x, a.y, b.x, b.y);
            Eq(c.x * (1 + dl), a.x * b.y + b.x * a.y) && Eq(c.y * (1 - dl), a.y * b.y + a.x * b.x)
  {
    SumLaw(a.x, a.y, b.x, b.y, Sum(a, b).x, Sum(a, b).y);
  }

  lemma NegateOnCurve(x: FieldElement, y: FieldElement)
    requires OnCurve(x, y)
    ensures OnCurve(Remainder(P, -x), y) && Eq(Remainder(P, -x), -x) && IsReduced(Remainder(P, -x))
  {
    Residue(P, -x);
    ReducedRange(Remainder(P, -x));
    CurveEquation(x, y);
    CurveEquation(-x, y);
    assert (-x) * (-x) == x * x;
    OnCurveCong(-x, y, Remainder(P, -x), y);
  }

  function Negate(a: CurvePoint): (c: CurvePoint)
    ensures Eq(c.x, -a.x) && c.y == a.y
  {
    NegateOnCurve(a.x, a.y);
    Affine(Remainder(P, -a.x), a.y)
  }

  const ZERO: CurvePoint := (ZeroOnCurve(); Affine(0, 1))

  ghost function CurveGroup(): Group<CurvePoint>
    requires IsPrime(P)
  {
    Group(ZERO, (a: CurvePoint, b: CurvePoint) => Sum(a, b), (a: CurvePoint) => Negate(a))
  }

  lemma SameBytes(x: FieldElement, y: FieldElement)
    requires 0 <= x < P && 0 <= y < P && Eq(x, y)
    ensures x == y
  {
    SmallRemainder(P, x);
    SmallRemainder(P, y);
  }

  lemma Canonical(x: FieldElement, y: FieldElement)
    requires IsReduced(x) && IsReduced(y) && Eq(x, y)
    ensures x == y
  {
    ReducedRange(x);
    ReducedRange(y);
    SameBytes(x, y);
  }

  lemma SamePoint(a: CurvePoint, b: CurvePoint)
    requires Eq(a.x, b.x) && Eq(a.y, b.y)
    ensures a == b
  {
    Canonical(a.x, b.x);
    Canonical(a.y, b.y);
  }

  /** A point that satisfies the division-free form of the sum is the sum. */
  lemma SumIs(a: CurvePoint, b: CurvePoint, c: CurvePoint)
    requires IsPrime(P) && IsSum(a.x, a.y, b.x, b.y, c.x, c.y)
    ensures Sum(a, b) == c
  {
    var c' := Sum(a, b);
    CurveHasLaw();
    CurveEquation(a.x, a.y);
    CurveEquation(b.x, b.y);
    SumLaw(a.x, a.y, b.x, b.y, c.x, c.y);
    SumLaw(a.x, a.y, b.x, b.y, c'.x, c'.y);
    LawIsUnique(P, EDWARDS_D, a.x, a.y, b.x, b.y, c.x, c.y, c'.x, c'.y);
    SamePoint(c', c);
  }

  lemma SumAssociates(a: CurvePoint, b: CurvePoint, c: CurvePoint)
    requires IsPrime(P)
    ensures Sum(Sum(a, b), c) == Sum(a, Sum(b, c))
  {
    var ab, bc := Sum(a, b), Sum(b, c);
    var l, r := Sum(ab, c), Sum(a, bc);
    CurveHasLaw();
    CurveEquation(a.x, a.y);
    CurveEquation(b.x, b.y);
    CurveEquation(c.x, c.y);
    SumLaw(a.x, a.y, b.x, b.y, ab.x, ab.y);
    SumLaw(ab.x, ab.y, c.x, c.y, l.x, l.y);
    SumLaw(b.x, b.y, c.x, c.y, bc.x, bc.y);
    SumLaw(a.x, a.y, bc.x, bc.y, r.x, r.y);
    LawAssociates(P, EDWARDS_D, a.x, a.y, b.x, b.y, c.x, c.y, ab.x, ab.y, bc.x, bc.y, l.x, l.y, r.x, r.y);
    SamePoint(l, r);
  }

  lemma SumCommutes(a: CurvePoint, b: CurvePoint)
    requires IsPrime(P)
    ensures Sum(a, b) == Sum(b, a)
  {
    var c := Sum(b, a);
    SumLaw(b.x, b.y, a.x, a.y, c.x, c.y);
    SumLaw(a.x, a.y, b.x, b.y, c.x, c.y);
    LawCommutes(P, EDWARDS_D, b.x, b.y, a.x, a.y, c.x, c.y);
    SumIs(a, b, c);
  }

  lemma SumUnit(a: CurvePoint)
    requires IsPrime(P)
    ensures Sum(ZERO, a) == a && Sum(Negate(a), a) == ZERO
  {
    LawHasZero(P, EDWARDS_D, a.x, a.y);
    SumLaw(0, 1, a.x, a.y, a.x, a.y);
    SumIs(ZERO, a, a);
    var n := Negate(a);
    CurveEquation(a.x, a.y);
    LawHasInverse(P, EDWARDS_D, n.x, a.x, a.y);
    SumLaw(n.x, n.y, a.x, a.y, 0, 1);
    SumIs(n, a, ZERO);
  }

  /** The points of the curve form an abelian group. */
  lemma CurveIsAbelian()
    requires IsPrime(P)
    ensures IsAbelian(CurveGroup())
  {
    var g := CurveGroup();
    forall a: CurvePoint, b: CurvePoint, c: CurvePoint
      ensures Associates(g, a, b, c)
    {
      SumAssociates(a, b, c);
    }
    forall a: CurvePoint, b: CurvePoint
      ensures Commutes(g, a, b)
    {
      SumCommutes(a, b);
    }
    forall a: CurvePoint
      ensures HasUnit(g, a)
    {
      SumUnit(a);
    }
  }
}
