/** The coordinate systems of the backend, and the points of the curve that their values stand for. */
module CurveModels {
  import opened Congruence
  import opened Primes
  import opened SquareRoots
  import opened Field
  import opened Edwards
  import opened EdwardsGroup

  const EDWARDS_D2: int := 0x2406d9dc56dffce7198e80f2eef3d13000e0149a8283b156ebd69b9426b2f159

  datatype ProjectivePoint = ProjectivePoint(X: FieldElement, Y: FieldElement, Z: FieldElement)

  datatype CompletedPoint = CompletedPoint(X: FieldElement, Y: FieldElement, Z: FieldElement, T: FieldElement)

  datatype ProjectiveNielsPoint = ProjectiveNielsPoint(yPlusX: FieldElement, yMinusX: FieldElement, Z: FieldElement,
      t2d: FieldElement)

  datatype AffineNielsPoint = AffineNielsPoint(yPlusX: FieldElement, yMinusX: FieldElement, xy2d: FieldElement)

  // Conversions.

  function ToProjective(p: EdwardsPoint): ProjectivePoint {
    ProjectivePoint(p.X, p.Y, p.Z)
  }

  function CompletedToProjective(c: CompletedPoint): ProjectivePoint {
    ProjectivePoint(c.X * c.T, c.Y * c.Z, c.Z * c.T)
  }

  function CompletedToExtended(c: CompletedPoint): EdwardsPoint {
    EdwardsPoint(c.X * c.T, c.Y * c.Z, c.Z * c.T, c.X * c.Y)
  }

  function ProjectiveToExtended(p: ProjectivePoint): EdwardsPoint {
    EdwardsPoint(p.X * p.Z, p.Y * p.Z, Square(p.Z), p.X * p.Y)
  }

  function ToProjectiveNiels(p: EdwardsPoint): ProjectiveNielsPoint {
    ProjectiveNielsPoint(p.Y + p.X, p.Y - p.X, p.Z, p.T * EDWARDS_D2)
  }

  function ToAffineNiels(p: EdwardsPoint): AffineNielsPoint {
    var recip := Invert(p.Z);
    var x := p.X * recip;
    var y := p.Y * recip;
    var xy2d := (x * y) * EDWARDS_D2;
    AffineNielsPoint(y + x, y - x, xy2d)
  }

  const AFFINE_NIELS_IDENTITY := AffineNielsPoint(1, 1, 0)

  const PROJECTIVE_IDENTITY := ProjectivePoint(0, 1, 1)

  // Arithmetic.

  function Double(p: ProjectivePoint): CompletedPoint {
    var xx := Square(p.X);
    var yy := Square(p.Y);
    var zz2 := 2 * Square(p.Z);
    var xPlusYSq := Square(p.X + p.Y);
    var yyPlusXx := yy + xx;
    var yyMinusXx := yy - xx;
    CompletedPoint(xPlusYSq - yyPlusXx, yyPlusXx, yyMinusXx, zz2 - yyMinusXx)
  }

  function AddProjectiveNiels(p: EdwardsPoint, n: ProjectiveNielsPoint): CompletedPoint {
    var pp := (p.Y + p.X) * n.yPlusX;
    var mm := (p.Y - p.X) * n.yMinusX;
    var tt2d := p.T * n.t2d;
    var zz := p.Z * n.Z;
    var zz2 := zz + zz;
    CompletedPoint(pp - mm, pp + mm, zz2 + tt2d, zz2 - tt2d)
  }

  function SubProjectiveNiels(p: EdwardsPoint, n: ProjectiveNielsPoint): CompletedPoint {
    var pm := (p.Y + p.X) * n.yMinusX;
    var mp := (p.Y - p.X) * n.yPlusX;
    var tt2d := p.T * n.t2d;
    var zz := p.Z * n.Z;
    var zz2 := zz + zz;
    CompletedPoint(pm - mp, pm + mp, zz2 - tt2d, zz2 + tt2d)
  }

  function AddAffineNiels(p: EdwardsPoint, n: AffineNielsPoint): CompletedPoint {
    var pp := (p.Y + p.X) * n.yPlusX;
    var mm := (p.Y - p.X) * n.yMinusX;
    var txy2d := p.T * n.xy2d;
    var z2 := p.Z + p.Z;
    CompletedPoint(pp - mm, pp + mm, z2 + txy2d, z2 - txy2d)
  }

  function SubAffineNiels(p: EdwardsPoint, n: AffineNielsPoint): CompletedPoint {
    var pm := (p.Y + p.X) * n.yMinusX;
    var mp := (p.Y - p.X) * n.yPlusX;
    var txy2d := p.T * n.xy2d;
    var z2 := p.Z + p.Z;
    CompletedPoint(pm - mp, pm + mp, z2 - txy2d, z2 + txy2d)
  }

  function NegAffineNiels(n: AffineNielsPoint): AffineNielsPoint {
    AffineNielsPoint(n.yMinusX, n.yPlusX, -n.xy2d)
  }

  // The points that coordinates stand for.

  /** With a counter as in Congruence.RemainderAt, here and below. */
  predicate ExtendsAt(p: EdwardsPoint, a: Affine, k: nat)
    decreases p, a, k
  {
    if k > 0 then ExtendsAt(p, a, k - 1)
    else !Eq(p.Z, 0) && Eq(p.X, a.x * p.Z) && Eq(p.Y, a.y * p.Z) && Eq(p.T, (a.x * a.y) * p.Z)
  }

  predicate Extends(p: EdwardsPoint, a: Affine) {
    ExtendsAt(p, a, 3)
  }

  lemma ExtendsForm(p: EdwardsPoint, a: Affine)
    ensures Extends(p, a) <==> !Eq(p.Z, 0) && Eq(p.X, a.x * p.Z) && Eq(p.Y, a.y * p.Z) && Eq(p.T, (a.x * a.y) * p.Z)
  {
    assert ExtendsAt(p, a, 1) == ExtendsAt(p, a, 0);
    assert ExtendsAt(p, a, 2) == ExtendsAt(p, a, 1);
  }

  predicate ProjectsAt(p: ProjectivePoint, a: Affine, k: nat)
    decreases p, a, k
  {
    if k > 0 then ProjectsAt(p, a, k - 1) else !Eq(p.Z, 0) && Eq(p.X, a.x * p.Z) && Eq(p.Y, a.y * p.Z)
  }

  predicate Projects(p: ProjectivePoint, a: Affine) {
    ProjectsAt(p, a, 3)
  }

  lemma ProjectsForm(p: ProjectivePoint, a: Affine)
    ensures Projects(p, a) <==> !Eq(p.Z, 0) && Eq(p.X, a.x * p.Z) && Eq(p.Y, a.y * p.Z)
  {
    assert ProjectsAt(p, a, 1) == ProjectsAt(p, a, 0);
    assert ProjectsAt(p, a, 2) == ProjectsAt(p, a, 1);
  }

  predicate CompletesAt(c: CompletedPoint, a: Affine, k: nat)
    decreases c, a, k
  {
    if k > 0 then CompletesAt(c, a, k - 1)
    else !Eq(c.Z, 0) && !Eq(c.T, 0) && Eq(c.X, a.x * c.Z) && Eq(c.Y, a.y * c.T)
  }

  predicate Completes(c: CompletedPoint, a: Affine) {
    CompletesAt(c, a, 3)
  }

  lemma CompletesForm(c: CompletedPoint, a: Affine)
    ensures Completes(c, a) <==> !Eq(c.Z, 0) && !Eq(c.T, 0) && Eq(c.X, a.x * c.Z) && Eq(c.Y, a.y * c.T)
  {
    assert CompletesAt(c, a, 1) == CompletesAt(c, a, 0);
    assert CompletesAt(c, a, 2) == CompletesAt(c, a, 1);
  }

  predicate IsNielsAt(n: ProjectiveNielsPoint, a: Affine, k: nat)
    decreases n, a, k
  {
    if k > 0 then IsNielsAt(n, a, k - 1)
    else
      && !Eq(n.Z, 0)
      && Eq(n.yPlusX, (a.y + a.x) * n.Z)
      && Eq(n.yMinusX, (a.y - a.x) * n.Z)
      && Eq(n.t2d, 2 * (EDWARDS_D * (a.x * a.y)) * n.Z)
  }

  predicate IsNiels(n: ProjectiveNielsPoint, a: Affine) {
    IsNielsAt(n, a, 3)
  }

  lemma NielsForm(n: ProjectiveNielsPoint, a: Affine)
    ensures IsNiels(n, a) <==>
              && !Eq(n.Z, 0)
              && Eq(n.yPlusX, (a.y + a.x) * n.Z)
              && Eq(n.yMinusX, (a.y - a.x) * n.Z)
              && Eq(n.t2d, 2 * (EDWARDS_D * (a.x * a.y)) * n.Z)
  {
    assert IsNielsAt(n, a, 1) == IsNielsAt(n, a, 0);
    assert IsNielsAt(n, a, 2) == IsNielsAt(n, a, 1);
  }

  function WithUnitZ(n: AffineNielsPoint): ProjectiveNielsPoint {
    ProjectiveNielsPoint(n.yPlusX, n.yMinusX, 1, n.xy2d)
  }

  predicate IsAffineNiels(n: AffineNielsPoint, a: Affine) {
    IsNiels(WithUnitZ(n), a)
  }

  lemma ScaleBoth(p: int, x: int, a: int, z: int, k: int)
    requires p > 0 && Cong(p, x, a * z)
    ensures Cong(p, x * k, a * (z * k))
  {
    Mul(p, x, a * z, k, k);
    assert (a * z) * k == a * (z * k);
  }

  lemma CompletedMeaning(c: CompletedPoint, a: Affine)
    requires IsPrime(P) && Completes(c, a)
    ensures Projects(CompletedToProjective(c), a) && Extends(CompletedToExtended(c), a)
  {
    CompletesForm(c, a);
    ProjectsForm(CompletedToProjective(c), a);
    ExtendsForm(CompletedToExtended(c), a);
    Product(P, c.Z, c.T);
    ScaleBoth(P, c.X, a.x, c.Z, c.T);
    ScaleBoth(P, c.Y, a.y, c.T, c.Z);
    assert c.T * c.Z == c.Z * c.T;
    Mul(P, c.X, a.x * c.Z, c.Y, a.y * c.T);
    Interchange(a.x, c.Z, a.y, c.T);
  }

  lemma ProjectiveMeaning(p: ProjectivePoint, a: Affine)
    requires IsPrime(P) && Projects(p, a)
    ensures Extends(ProjectiveToExtended(p), a)
  {
    ProjectsForm(p, a);
    ExtendsForm(ProjectiveToExtended(p), a);
    Product(P, p.Z, p.Z);
    ScaleBoth(P, p.X, a.x, p.Z, p.Z);
    ScaleBoth(P, p.Y, a.y, p.Z, p.Z);
    Mul(P, p.X, a.x * p.Z, p.Y, a.y * p.Z);
    Interchange(a.x, p.Z, a.y, p.Z);
  }

  lemma ToProjectiveMeaning(p: EdwardsPoint, a: Affine)
    requires Extends(p, a)
    ensures Projects(ToProjective(p), a)
  {
    ExtendsForm(p, a);
    ProjectsForm(ToProjective(p), a);
  }

  /** The representative of a point with Z = 1. */
  function WithUnit(a: Affine): EdwardsPoint {
    EdwardsPoint(a.x, a.y, 1, a.x * a.y)
  }

  lemma WithUnitExtends(a: Affine)
    ensures Extends(WithUnit(a), a)
  {
    SmallUnits(P);
    ExtendsForm(WithUnit(a), a);
  }

  lemma TwiceDConstant()
    ensures Eq(EDWARDS_D2, 2 * EDWARDS_D)
  {
    CongIs(P, EDWARDS_D2, 2 * EDWARDS_D);
  }

  lemma TwiceD(d: int, s: int, z: int)
    ensures (s * z) * (2 * d) == 2 * (d * s) * z
  {}

  lemma NielsMeaning(p: EdwardsPoint, a: Affine)
    requires Extends(p, a)
    ensures IsNiels(ToProjectiveNiels(p), a)
  {
    var z := p.Z;
    ExtendsForm(p, a);
    Add(P, p.Y, a.y * z, p.X, a.x * z);
    assert a.y * z + a.x * z == (a.y + a.x) * z && a.y * z - a.x * z == (a.y - a.x) * z;
    TwiceDConstant();
    Mul(P, p.T, (a.x * a.y) * z, EDWARDS_D2, 2 * EDWARDS_D);
    TwiceD(EDWARDS_D, a.x * a.y, z);
    NielsForm(ToProjectiveNiels(p), a);
  }

  lemma UnitNiels(x: FieldElement, y: FieldElement, a: Affine)
    requires Eq(x, a.x) && Eq(y, a.y)
    ensures IsAffineNiels(AffineNielsPoint(y + x, y - x, (x * y) * EDWARDS_D2), a)
  {
    SmallUnits(P);
    NielsForm(WithUnitZ(AffineNielsPoint(y + x, y - x, (x * y) * EDWARDS_D2)), a);
    Add(P, y, a.y, x, a.x);
    Mul(P, x, a.x, y, a.y);
    TwiceDConstant();
    Mul(P, x * y, a.x * a.y, EDWARDS_D2, 2 * EDWARDS_D);
    TwiceD(EDWARDS_D, a.x * a.y, 1);
  }

  lemma AffineNielsMeaning(p: EdwardsPoint, a: Affine)
    requires IsPrime(P) && Extends(p, a)
    ensures IsAffineNiels(ToAffineNiels(p), a)
  {
    var n := Invert(p.Z);
    ExtendsForm(p, a);
    InvertIsInverse(p.Z);
    ScaleBoth(P, p.X, a.x, p.Z, n);
    ScaleBoth(P, p.Y, a.y, p.Z, n);
    Mul(P, a.x, a.x, p.Z * n, 1);
    Mul(P, a.y, a.y, p.Z * n, 1);
    UnitNiels(p.X * n, p.Y * n, a);
  }

  // The formulas compute the group law.

  lemma PlusMinus(x1: int, y1: int, x2: int, y2: int, m: int)
    ensures ((y1 + x1) * (y2 + x2)) * m - ((y1 - x1) * (y2 - x2)) * m == (2 * m) * (x1 * y2 + x2 * y1)
    ensures ((y1 + x1) * (y2 + x2)) * m + ((y1 - x1) * (y2 - x2)) * m == (2 * m) * (y1 * y2 + x1 * x2)
  {
    assert (y1 + x1) * (y2 + x2) == (y1 * y2 + x1 * x2) + (x1 * y2 + x2 * y1);
    assert (y1 - x1) * (y2 - x2) == (y1 * y2 + x1 * x2) - (x1 * y2 + x2 * y1);
  }

  lemma SumAndDifferenceOfProducts(p: int, x1: int, y1: int, x2: int, y2: int, m: int, pp: int, mm: int)
    requires p > 0 && Cong(p, pp, ((y1 + x1) * (y2 + x2)) * m) && Cong(p, mm, ((y1 - x1) * (y2 - x2)) * m)
    ensures Cong(p, pp - mm, (2 * m) * (x1 * y2 + x2 * y1))
    ensures Cong(p, pp + mm, (2 * m) * (y1 * y2 + x1 * x2))
  {
    Add(p, pp, ((y1 + x1) * (y2 + x2)) * m, mm, ((y1 - x1) * (y2 - x2)) * m);
    PlusMinus(x1, y1, x2, y2, m);
  }

  lemma ScaledProduct(p: int, x: int, a: int, z: int, y: int, b: int, w: int)
    requires p > 0 && Cong(p, x, a * z) && Cong(p, y, b * w)
    ensures Cong(p, x * y, (a * b) * (z * w))
  {
    Mul(p, x, a * z, y, b * w);
    Interchange(a, z, b, w);
  }

  /** The addition formulas, with 2 Z1 Z2 the common factor and dl the delta of the two points. */
  lemma AdditionNumerators(p: int, x1: int, y1: int, z1: int, x2: int, y2: int, z2: int,
                           plus1: int, minus1: int, plus2: int, minus2: int)
    requires p > 0 && Cong(p, plus1, (y1 + x1) * z1) && Cong(p, minus1, (y1 - x1) * z1)
    requires Cong(p, plus2, (y2 + x2) * z2) && Cong(p, minus2, (y2 - x2) * z2)
    ensures var k := 2 * (z1 * z2);
            && Cong(p, plus1 * plus2 - minus1 * minus2, k * (x1 * y2 + x2 * y1))
            && Cong(p, plus1 * plus2 + minus1 * minus2, k * (y1 * y2 + x1 * x2))
  {
    ScaledProduct(p, plus1, y1 + x1, z1, plus2, y2 + x2, z2);
    ScaledProduct(p, minus1, y1 - x1, z1, minus2, y2 - x2, z2);
    SumAndDifferenceOfProducts(p, x1, y1, x2, y2, z1 * z2, plus1 * plus2, minus1 * minus2);
  }

  lemma Distributes(a: int, b: int, k: int)
    ensures a * k + b * k == k * (a + b) == (a + b) * k && a * k - b * k == k * (a - b) == (a - b) * k
  {}

  lemma PlusAndMinus(p: int, x: int, y: int, z: int, X: int, Y: int)
    requires p > 0 && Cong(p, X, x * z) && Cong(p, Y, y * z)
    ensures Cong(p, Y + X, (y + x) * z) && Cong(p, Y - X, (y - x) * z)
  {
    Add(p, Y, y * z, X, x * z);
    Distributes(y, x, z);
  }

  lemma AdditionDenominators(p: int, d: int, s: int, z1: int, t: int, z2: int, T: int, t2d: int)
    requires p > 0 && Cong(p, T, s * z1) && Cong(p, t2d, 2 * (d * t) * z2)
    ensures var k, dl := 2 * (z1 * z2), d * (s * t);
            && Cong(p, z1 * z2 + z1 * z2 + T * t2d, k * (1 + dl))
            && Cong(p, z1 * z2 + z1 * z2 - T * t2d, k * (1 - dl))
  {
    var m, dl := z1 * z2, d * (s * t);
    ScaledProduct(p, T, s, z1, t2d, 2 * (d * t), z2);
    assert (s * (2 * (d * t))) * m == (2 * m) * dl;
    Add(p, m + m, m + m, T * t2d, (2 * m) * dl);
    assert (2 * m) * (1 + dl) == m + m + (2 * m) * dl && (2 * m) * (1 - dl) == m + m - (2 * m) * dl;
  }

  lemma CommonMultiple(p: int, k: int, s: int, q: int, n: int, X: int, Z: int)
    requires p > 0 && Cong(p, s * q, n) && Cong(p, X, k * n) && Cong(p, Z, k * q)
    ensures Cong(p, X, s * Z)
  {
    Mul(p, k, k, s * q, n);
    Mul(p, s, s, Z, k * q);
    assert s * (k * q) == k * (s * q);
  }

  /**
    A completed point whose coordinates are a common multiple of the numerators and denominators of a sum is
    that sum.
  */
  lemma CompletesSum(c: CompletedPoint, k: FieldElement, a: CurvePoint, b: CurvePoint)
    requires IsPrime(P) && !Eq(k, 0)
    requires var dl := Delta(a.x, a.y, b.x, b.y);
             && Eq(c.X, k * (a.x * b.y + b.x * a.y)) && Eq(c.Y, k * (a.y * b.y + a.x * b.x))
             && Eq(c.Z, k * (1 + dl)) && Eq(c.T, k * (1 - dl))
    ensures Completes(c, Sum(a, b))
  {
    var dl, s := Delta(a.x, a.y, b.x, b.y), Sum(a, b);
    CompletesForm(c, s);
    SumEquations(a, b);
    Complete(a.x, a.y, b.x, b.y);
    Product(P, k, 1 + dl);
    Product(P, k, 1 - dl);
    CommonMultiple(P, k, s.x, 1 + dl, a.x * b.y + b.x * a.y, c.X, c.Z);
    CommonMultiple(P, k, s.y, 1 - dl, a.y * b.y + a.x * b.x, c.Y, c.T);
  }

  lemma AddProjectiveNielsCorrect(p: EdwardsPoint, a: CurvePoint, n: ProjectiveNielsPoint, b: CurvePoint)
    requires IsPrime(P) && Extends(p, a) && IsNiels(n, b)
    ensures Completes(AddProjectiveNiels(p, n), Sum(a, b))
  {
    ExtendsForm(p, a);
    NielsForm(n, b);
    Product(P, p.Z, n.Z);
    Constants();
    Product(P, 2, p.Z * n.Z);
    PlusAndMinus(P, a.x, a.y, p.Z, p.X, p.Y);
    AdditionNumerators(P, a.x, a.y, p.Z, b.x, b.y, n.Z, p.Y + p.X, p.Y - p.X, n.yPlusX, n.yMinusX);
    AdditionDenominators(P, EDWARDS_D, a.x * a.y, p.Z, b.x * b.y, n.Z, p.T, n.t2d);
    CompletesSum(AddProjectiveNiels(p, n), 2 * (p.Z * n.Z), a, b);
  }

  lemma MoveFactor(d: int, x: int, y: int, z: int)
    ensures x * (2 * (d * y) * z) == 2 * (d * (x * y)) * z
  {}

  lemma MoveSign(d: int, x: int, y: int, z: int)
    ensures 2 * (d * (-x * y)) * z == -(2 * (d * (x * y)) * z)
  {}

  lemma NegT2d(p: int, d: int, x': int, x: int, y: int, z: int, t2d: int)
    requires p > 0 && Cong(p, x', -x) && Cong(p, t2d, 2 * (d * (x * y)) * z)
    ensures Cong(p, -t2d, 2 * (d * (x' * y)) * z)
  {
    Add(p, 0, 0, t2d, 2 * (d * (x * y)) * z);
    Mul(p, x', -x, 2 * (d * y) * z, 2 * (d * y) * z);
    MoveFactor(d, x', y, z);
    MoveFactor(d, -x, y, z);
    MoveSign(d, x, y, z);
  }

  lemma NegNiels(n: ProjectiveNielsPoint, b: CurvePoint)
    requires IsNiels(n, b)
    ensures IsNiels(ProjectiveNielsPoint(n.yMinusX, n.yPlusX, n.Z, -n.t2d), Negate(b))
  {
    var b', z := Negate(b), n.Z;
    NielsForm(n, b);
    NielsForm(ProjectiveNielsPoint(n.yMinusX, n.yPlusX, n.Z, -n.t2d), b');
    Add(P, b.y, b.y, b'.x, -b.x);
    Mul(P, b'.y + b'.x, b.y - b.x, z, z);
    Mul(P, b'.y - b'.x, b.y + b.x, z, z);
    NegT2d(P, EDWARDS_D, b'.x, b.x, b.y, z, n.t2d);
  }

  lemma SubIsAdd(p: EdwardsPoint, n: ProjectiveNielsPoint)
    ensures AddProjectiveNiels(p, ProjectiveNielsPoint(n.yMinusX, n.yPlusX, n.Z, -n.t2d)) == SubProjectiveNiels(p, n)
  {
    assert p.T * -n.t2d == -(p.T * n.t2d);
  }

  lemma SubProjectiveNielsCorrect(p: EdwardsPoint, a: CurvePoint, n: ProjectiveNielsPoint, b: CurvePoint)
    requires IsPrime(P) && Extends(p, a) && IsNiels(n, b)
    ensures Completes(SubProjectiveNiels(p, n), Sum(a, Negate(b)))
  {
    var n' := ProjectiveNielsPoint(n.yMinusX, n.yPlusX, n.Z, -n.t2d);
    NegNiels(n, b);
    AddProjectiveNielsCorrect(p, a, n', Negate(b));
    SubIsAdd(p, n);
  }

  lemma AffineNielsCorrect(p: EdwardsPoint, a: CurvePoint, n: AffineNielsPoint, b: CurvePoint)
    requires IsPrime(P) && Extends(p, a) && IsAffineNiels(n, b)
    ensures Completes(AddAffineNiels(p, n), Sum(a, b))
    ensures Completes(SubAffineNiels(p, n), Sum(a, Negate(b)))
    ensures IsAffineNiels(NegAffineNiels(n), Negate(b))
  {
    AddProjectiveNielsCorrect(p, a, WithUnitZ(n), b);
    SubProjectiveNielsCorrect(p, a, WithUnitZ(n), b);
    NegNiels(WithUnitZ(n), b);
    assert AddAffineNiels(p, n) == AddProjectiveNiels(p, WithUnitZ(n));
    assert SubAffineNiels(p, n) == SubProjectiveNiels(p, WithUnitZ(n));
  }

  lemma DoublingDenominators(p: int, k: int, dl: int, c: int, v: int)
    requires p > 0 && Cong(p, dl, c - 1) && Cong(p, v, k * c)
    ensures Cong(p, v, k * (1 + dl)) && Cong(p, 2 * k - v, k * (1 - dl))
  {
    Add(p, 1, 1, dl, c - 1);
    Mul(p, k, k, 1 + dl, c);
    Add(p, 2 * k, 2 * k, v, k * (1 + dl));
    assert 2 * k - k * (1 + dl) == k * (1 - dl);
  }

  lemma DoublingFormula(p: int, d: int, x: int, y: int, z: int, X: int, Y: int)
    requires p > 0 && Cong(p, X, x * z) && Cong(p, Y, y * z)
    requires Cong(p, d * ((x * y) * (x * y)), y * y - x * x - 1)
    ensures var k, dl := z * z, d * ((x * y) * (x * y));
            && Cong(p, (X + Y) * (X + Y) - (Y * Y + X * X), k * (x * y + x * y))
            && Cong(p, Y * Y + X * X, k * (y * y + x * x))
            && Cong(p, Y * Y - X * X, k * (1 + dl))
            && Cong(p, 2 * (z * z) - (Y * Y - X * X), k * (1 - dl))
  {
    var k := z * z;
    ScaledProduct(p, X, x, z, X, x, z);
    ScaledProduct(p, Y, y, z, Y, y, z);
    ScaledProduct(p, X, x, z, Y, y, z);
    Add(p, Y * Y, (y * y) * k, X * X, (x * x) * k);
    Add(p, X * Y, (x * y) * k, X * Y, (x * y) * k);
    assert (X + Y) * (X + Y) - (Y * Y + X * X) == X * Y + X * Y;
    Distributes(x * y, x * y, k);
    Distributes(y * y, x * x, k);
    DoublingDenominators(p, k, d * ((x * y) * (x * y)), y * y - x * x, Y * Y - X * X);
  }

  lemma DoubleCorrect(p: ProjectivePoint, a: CurvePoint)
    requires IsPrime(P) && Projects(p, a)
    ensures Completes(Double(p), Sum(a, a))
  {
    ProjectsForm(p, a);
    Product(P, p.Z, p.Z);
    CurveForm(a.x, a.y);
    DoublingFormula(P, EDWARDS_D, a.x, a.y, p.Z, p.X, p.Y);
    CompletesSum(Double(p), p.Z * p.Z, a, a);
  }

  // Valid representatives are those of the points of the curve.

  lemma FourthCoordinate(p: int, X: int, Y: int, z: int, T: int, x: int, y: int)
    requires IsPrime(p) && !Cong(p, z, 0) && Cong(p, X, x * z) && Cong(p, Y, y * z) && Cong(p, X * Y, z * T)
    ensures Cong(p, T, (x * y) * z)
  {
    Mul(p, X, x * z, Y, y * z);
    Interchange(x, z, y, z);
    assert z * ((x * y) * z) == (x * y) * (z * z);
    Cancel(p, z, T, (x * y) * z);
  }

  lemma ValidDenotes(p: EdwardsPoint) returns (a: CurvePoint)
    requires IsPrime(P) && IsValid(p)
    ensures Extends(p, a)
  {
    var n := Invert(p.Z);
    var x, y := p.X * n, p.Y * n;
    Edwards.Affine(p);
    ValidForm(p);
    CanonicalPoint(x, y);
    a := EdwardsGroup.Affine(Remainder(P, x), Remainder(P, y));
    Mul(P, a.x, x, p.Z, p.Z);
    Mul(P, a.y, y, p.Z, p.Z);
    FourthCoordinate(P, p.X, p.Y, p.Z, p.T, a.x, a.y);
    ExtendsForm(p, a);
  }

  lemma ScaledCurve(p: int, d: int, a: int, b: int, k: int, A: int, B: int)
    requires p > 0 && Cong(p, A, a * k) && Cong(p, B, b * k) && Cong(p, b - a, 1 + d * (a * b))
    ensures Cong(p, (B - A) * k, k * k + d * (A * B))
  {
    Add(p, B, b * k, A, a * k);
    Mul(p, B - A, b * k - a * k, k, k);
    assert (b * k - a * k) * k == (b - a) * (k * k);
    Mul(p, b - a, 1 + d * (a * b), k * k, k * k);
    Mul(p, A, a * k, B, b * k);
    Interchange(a, k, b, k);
    Mul(p, d, d, A * B, (a * b) * (k * k));
    Add(p, k * k, k * k, d * (A * B), d * ((a * b) * (k * k)));
    assert (1 + d * (a * b)) * (k * k) == k * k + d * ((a * b) * (k * k));
  }

  lemma ExtendsIsValid(p: EdwardsPoint, a: CurvePoint)
    requires Extends(p, a)
    ensures IsValid(p)
  {
    var z := p.Z;
    ExtendsForm(p, a);
    ValidForm(p);
    Mul(P, p.X, a.x * z, p.X, a.x * z);
    Mul(P, p.Y, a.y * z, p.Y, a.y * z);
    Mul(P, p.X, a.x * z, p.Y, a.y * z);
    Mul(P, z, z, p.T, (a.x * a.y) * z);
    Interchange(a.x, z, a.x, z);
    Interchange(a.y, z, a.y, z);
    Interchange(a.x, z, a.y, z);
    assert z * ((a.x * a.y) * z) == (a.x * a.y) * (z * z);
    CurveEquation(a.x, a.y);
    ScaledCurve(P, EDWARDS_D, a.x * a.x, a.y * a.y, z * z, p.X * p.X, p.Y * p.Y);
  }

  lemma CompareRatios(X: FieldElement, z: FieldElement, x: FieldElement, X': FieldElement, z': FieldElement,
                      x': FieldElement)
    requires IsPrime(P) && !Eq(z, 0) && !Eq(z', 0) && Eq(X, x * z) && Eq(X', x' * z')
    ensures Eq(X * z', X' * z) <==> Eq(x, x')
  {
    Mul(P, X, x * z, z', z');
    Mul(P, X', x' * z', z, z);
    assert (x * z) * z' == (z * z') * x && (x' * z') * z == (z * z') * x';
    Product(P, z, z');
    if Eq(X * z', X' * z) {
      Cancel(P, z * z', x, x');
    } else if Eq(x, x') {
      Mul(P, z * z', z * z', x, x');
    }
  }

  /** The equality test decides equality of the points. */
  lemma CtEqIsEquality(p: EdwardsPoint, a: CurvePoint, q: EdwardsPoint, b: CurvePoint)
    requires IsPrime(P) && Extends(p, a) && Extends(q, b)
    ensures CtEq(p, q) <==> a == b
  {
    ExtendsForm(p, a);
    ExtendsForm(q, b);
    CompareRatios(p.X, p.Z, a.x, q.X, q.Z, b.x);
    CompareRatios(p.Y, p.Z, a.y, q.Y, q.Z, b.y);
    if CtEq(p, q) {
      SamePoint(a, b);
    }
  }

  /** Addition of two points in extended coordinates. */
  function AddExtended(p: EdwardsPoint, q: EdwardsPoint): EdwardsPoint {
    CompletedToExtended(AddProjectiveNiels(p, ToProjectiveNiels(q)))
  }

  lemma AddExtendedCorrect(p: EdwardsPoint, a: CurvePoint, q: EdwardsPoint, b: CurvePoint)
    requires IsPrime(P) && Extends(p, a) && Extends(q, b)
    ensures Extends(AddExtended(p, q), Sum(a, b))
  {
    NielsMeaning(q, b);
    AddProjectiveNielsCorrect(p, a, ToProjectiveNiels(q), b);
    CompletedMeaning(AddProjectiveNiels(p, ToProjectiveNiels(q)), Sum(a, b));
  }
}
