/**
  The addition law of the curves -x^2 + y^2 = 1 + d x^2 y^2 modulo a prime p: where -1 has a root and
  d has none, it is complete, closed and associative.
*/
module EdwardsLaw {
  import opened Congruence
  import opened Primes
  import opened SquareRoots
  import opened EdwardsAssociativity

  predicate OnEdwards(p: int, d: int, x: int, y: int)
    requires p > 0
  {
    Cong(p, y * y - x * x, 1 + d * ((x * x) * (y * y)))
  }

  /** With a counter as in Congruence.RemainderAt. */
  predicate OnEdwardsAt(p: int, d: int, x: int, y: int, k: nat)
    requires p > 0
    decreases p, d, x, y, k
  {
    if k == 0 then OnEdwards(p, d, x, y) else OnEdwardsAt(p, d, x, y, k - 1)
  }

  /** (x3, y3) is the sum of (x1, y1) and (x2, y2), stated without division. */
  predicate AddsUp(p: int, d: int, x1: int, y1: int, x2: int, y2: int, x3: int, y3: int)
    requires p > 0
  {
    var dl := d * ((x1 * y1) * (x2 * y2));
    Cong(p, x3 * (1 + dl), x1 * y2 + x2 * y1) && Cong(p, y3 * (1 - dl), y1 * y2 + x1 * x2)
  }

  /** With a counter as in Congruence.RemainderAt. */
  predicate AddsUpAt(p: int, d: int, x1: int, y1: int, x2: int, y2: int, x3: int, y3: int, k: nat)
    requires p > 0
    decreases p, d, x1, y1, x2, y2, x3, y3, k
  {
    if k == 0 then AddsUp(p, d, x1, y1, x2, y2, x3, y3) else AddsUpAt(p, d, x1, y1, x2, y2, x3, y3, k - 1)
  }

  lemma Unfolded(p: int, d: int, x: int, y: int)
    requires p > 0
    ensures OnEdwardsAt(p, d, x, y, 3) <==> OnEdwards(p, d, x, y)
  {
    assert OnEdwardsAt(p, d, x, y, 1) == OnEdwardsAt(p, d, x, y, 0);
    assert OnEdwardsAt(p, d, x, y, 2) == OnEdwardsAt(p, d, x, y, 1);
  }

  lemma UnfoldedSum(p: int, d: int, x1: int, y1: int, x2: int, y2: int, x3: int, y3: int)
    requires p > 0
    ensures AddsUpAt(p, d, x1, y1, x2, y2, x3, y3, 3) <==> AddsUp(p, d, x1, y1, x2, y2, x3, y3)
  {
    assert AddsUpAt(p, d, x1, y1, x2, y2, x3, y3, 1) == AddsUpAt(p, d, x1, y1, x2, y2, x3, y3, 0);
    assert AddsUpAt(p, d, x1, y1, x2, y2, x3, y3, 2) == AddsUpAt(p, d, x1, y1, x2, y2, x3, y3, 1);
  }

  /** What completeness rests on: -1 has a root and d has none. */
  ghost predicate HasLaw(p: int, d: int) {
    && IsPrime(p)
    && p > 2
    && (exists i :: Root(p, -1, 1, i))
    && forall s :: !Root(p, d, 1, s)
  }

  lemma RootOfQuotient(p: int, n: int, m: int, k: int, d: int)
    requires p > 0 && Cong(p, n * n, d * (m * m)) && Cong(p, m * k, 1)
    ensures Cong(p, (n * k) * (n * k), d)
  {
    Mul(p, n * n, d * (m * m), k * k, k * k);
    Mul(p, m * k, 1, m * k, 1);
    Mul(p, d, d, (m * k) * (m * k), 1);
    Interchange(n, k, n, k);
    Interchange(m, k, m, k);
    assert (d * (m * m)) * (k * k) == d * ((m * m) * (k * k));
  }

  lemma InverseExists(p: int, m: int) returns (n: int)
    requires IsPrime(p) && !Cong(p, m, 0)
    ensures Cong(p, m * n, 1)
  {
    n := Pow(m, p - 2);
    Fermat(p, m);
  }

  lemma RootFromRatio(p: int, d: int, n: int, m: int) returns (s: int)
    requires IsPrime(p) && Cong(p, n * n, d * (m * m)) && !Cong(p, m, 0)
    ensures Cong(p, s * s, d)
  {
    var k := InverseExists(p, m);
    s := n * k;
    RootOfQuotient(p, n, m, k, d);
  }

  lemma SquareRatio(p: int, d: int, n: int, m: int)
    requires HasLaw(p, d) && Cong(p, n * n, d * (m * m))
    ensures Cong(p, m, 0)
  {
    if !Cong(p, m, 0) {
      var s := RootFromRatio(p, d, n, m);
      assert Root(p, d, 1, s);
    }
  }

  // Completeness: the denominators 1 + delta and 1 - delta never vanish.

  lemma FirstExpansion(x: int, y: int, i: int, e: int)
    ensures (i * x + e * y) * (i * x + e * y) == (i * i) * (x * x) + 2 * ((i * (x * y)) * e) + (e * e) * (y * y)
  {
    Interchange(i, x, i, x);
    Interchange(e, y, e, y);
    Interchange(i, x, e, y);
    assert (i * e) * (x * y) == (i * (x * y)) * e;
  }

  lemma Shuffle(d: int, s: int, i: int, t: int)
    ensures (d * (s * s)) * (2 * (i * t)) == 2 * ((i * s) * (d * (s * t)))
  {}

  lemma Distribute3(k: int, a: int, b: int, c: int)
    ensures k * (a + b + c) == k * a + k * b + k * c
  {}

  lemma SecondExpansion(s: int, x: int, y: int, i: int, d: int)
    ensures var m, t := s * (i * x + y), x * y;
            d * (m * m) == (d * (s * s)) * ((i * i) * (x * x)) + 2 * ((i * s) * (d * (s * t))) + (d * (s * s)) * (y * y)
  {
    var k, t := i * x + y, x * y;
    Interchange(s, k, s, k);
    FirstExpansion(x, y, i, 1);
    Shuffle(d, s, i, t);
    Distribute3(d * (s * s), (i * i) * (x * x), 2 * (i * t), y * y);
    assert d * ((s * s) * (k * k)) == (d * (s * s)) * (k * k);
  }

  lemma CompletenessCombination(xx1: int, yy1: int, xx2: int, yy2: int, ds: int, dt: int, dl: int, e: int, ii: int,
                                si: int,
                                nn: int, dmm: int, h1: int, h2: int)
    requires nn == ii * xx1 + 2 * (si * e) + (e * e) * yy1
    requires dmm == ds * (ii * xx2) + 2 * (si * dl) + ds * yy2
    requires h1 == yy1 - xx1 - (1 + ds) && h2 == yy2 - xx2 - (1 + dt) && ds * dt == dl * dl
    ensures nn - dmm
            == 1 * h1 + -ds * h2 + (xx1 - ds * xx2) * (ii - -1) + (yy1 - 1) * (e * e - 1)
                + -(dl + e + 2 * si) * (dl - e)
  {}

  /** With e = d x1 y1 x2 y2 and e^2 = 1: (i x1 + e y1)^2 = d (x1 y1 (i x2 + y2))^2. */
  lemma CompletenessIdentity(p: int, i: int, d: int, x1: int, y1: int, x2: int, y2: int, e: int)
    requires p > 0 && Cong(p, i * i, -1) && Cong(p, e * e, 1) && Cong(p, d * ((x1 * y1) * (x2 * y2)), e)
    requires Cong(p, y1 * y1 - x1 * x1, 1 + d * ((x1 * x1) * (y1 * y1)))
    requires Cong(p, y2 * y2 - x2 * x2, 1 + d * ((x2 * x2) * (y2 * y2)))
    ensures var n, m := i * x1 + e * y1, (x1 * y1) * (i * x2 + y2);
            Cong(p, n * n, d * (m * m))
  {
    var s, t := x1 * y1, x2 * y2;
    var n, m := i * x1 + e * y1, s * (i * x2 + y2);
    var c1, c2, dl := y1 * y1 - x1 * x1, y2 * y2 - x2 * x2, d * (s * t);
    var h1, h2 := c1 - (1 + d * (s * s)), c2 - (1 + d * (t * t));
    Interchange(x1, y1, x1, y1);
    Interchange(x2, y2, x2, y2);
    Difference(p, c1, 1 + d * (s * s));
    Difference(p, c2, 1 + d * (t * t));
    Difference(p, dl, e);
    Difference(p, e * e, 1);
    Difference(p, i * i, -1);
    Combine5(p, 1, h1, -(d * (s * s)), h2, x1 * x1 - d * (s * s) * (x2 * x2), i * i - -1,
             y1 * y1 - 1, e * e - 1, -(dl + e + 2 * (i * s)), dl - e);
    FirstExpansion(x1, y1, i, e);
    SecondExpansion(s, x2, y2, i, d);
    Interchange(d, s * s, d, t * t);
    Interchange(d, s * t, d, s * t);
    Interchange(s, s, t, t);
    CompletenessCombination(x1 * x1, y1 * y1, x2 * x2, y2 * y2, d * (s * s), d * (t * t), dl, e, i * i, i * s,
      n * n, d * (m * m), h1, h2);
    Difference(p, n * n, d * (m * m));
  }

  lemma MinusY(p: int, d: int, x: int, y: int)
    requires p > 0
    ensures OnEdwards(p, d, x, -y) == OnEdwards(p, d, x, y)
  {
    assert (-y) * (-y) == y * y;
  }

  lemma NegativeDelta(p: int, d: int, x1: int, y1: int, x2: int, y2: int, e: int)
    requires p > 0 && Cong(p, d * ((x1 * y1) * (x2 * y2)), e)
    ensures Cong(p, d * ((x1 * y1) * (x2 * -y2)), -e)
  {
    var s := x1 * y1;
    assert s * (x2 * -y2) == -(s * (x2 * y2));
    assert d * -(s * (x2 * y2)) == -(d * (s * (x2 * y2)));
    Add(p, 0, 0, d * (s * (x2 * y2)), e);
  }

  lemma BothVanish(p: int, s: int, a: int, b: int)
    requires IsPrime(p) && p > 2 && Cong(p, s * (a + b), 0) && Cong(p, s * (a + -b), 0)
    ensures Cong(p, s, 0) || Cong(p, b, 0)
  {
    Add(p, s * (a + b), 0, s * (a + -b), 0);
    assert s * (a + b) - s * (a + -b) == 2 * (s * b);
    SmallUnits(p);
    Product(p, 2, s * b);
    Product(p, s, b);
  }

  /** For two points of the curve, delta is neither 1 nor -1. */
  lemma DeltaNotUnit(p: int, d: int, x1: int, y1: int, x2: int, y2: int, e: int)
    requires HasLaw(p, d) && OnEdwards(p, d, x1, y1) && OnEdwards(p, d, x2, y2) && (e == 1 || e == -1)
    ensures !Cong(p, d * ((x1 * y1) * (x2 * y2)), e)
  {
    if Cong(p, d * ((x1 * y1) * (x2 * y2)), e) {
      var i :| Root(p, -1, 1, i);
      var s := x1 * y1;
      CompletenessIdentity(p, i, d, x1, y1, x2, y2, e);
      SquareRatio(p, d, i * x1 + e * y1, s * (i * x2 + y2));
      MinusY(p, d, x2, y2);
      NegativeDelta(p, d, x1, y1, x2, y2, e);
      CompletenessIdentity(p, i, d, x1, y1, x2, -y2, -e);
      SquareRatio(p, d, i * x1 + -e * y1, s * (i * x2 + -y2));
      BothVanish(p, s, i * x2, y2);
      Product(p, d, s * (x2 * y2));
      Product(p, s, x2 * y2);
      Product(p, x2, y2);
      SmallUnits(p);
    }
  }

  /** The addition law is complete: its denominators never vanish on the curve. */
  lemma LawIsComplete(p: int, d: int, x1: int, y1: int, x2: int, y2: int)
    requires HasLaw(p, d) && OnEdwards(p, d, x1, y1) && OnEdwards(p, d, x2, y2)
    ensures var dl := d * ((x1 * y1) * (x2 * y2)); !Cong(p, 1 + dl, 0) && !Cong(p, 1 - dl, 0)
  {
    var dl := d * ((x1 * y1) * (x2 * y2));
    DeltaNotUnit(p, d, x1, y1, x2, y2, 1);
    DeltaNotUnit(p, d, x1, y1, x2, y2, -1);
    Difference(p, 1 + dl, 0);
    Difference(p, 1 - dl, 0);
    Difference(p, dl, -1);
    Difference(p, 1, dl);
  }

  // Closure.

  lemma SumAndDifference(a: int, b: int)
    ensures (a + b) * (a + b) == (b - a) * (b - a) + 4 * (a * b)
  {}

  lemma SquareOfSum(a: int, b: int, c: int, d: int)
    ensures (a * b + c * d) * (a * b + c * d) == (a * a) * (b * b) + 2 * ((a * c) * (b * d)) + (c * c) * (d * d)
  {
    Interchange(a, b, a, b);
    Interchange(c, d, c, d);
    Interchange(a, b, c, d);
  }

  lemma TwoByTwo(a: int, b: int, c: int, d: int)
    ensures (b - a) * (d - c) == b * d - b * c - a * d + a * c
    ensures (a + b) * (c + d) == a * c + a * d + b * c + b * d
  {}

  lemma NumeratorSquares(x1: int, y1: int, x2: int, y2: int)
    ensures var a, b, st := x1 * y2 + x2 * y1, y1 * y2 + x1 * x2, (x1 * y1) * (x2 * y2);
            && b * b - a * a == (y1 * y1 - x1 * x1) * (y2 * y2 - x2 * x2)
            && b * b + a * a == (x1 * x1 + y1 * y1) * (x2 * x2 + y2 * y2) + 4 * st
  {
    SquareOfSum(x1, y2, x2, y1);
    SquareOfSum(y1, y2, x1, x2);
    assert (x1 * x2) * (y2 * y1) == (x1 * y1) * (x2 * y2);
    assert (y1 * x1) * (y2 * x2) == (x1 * y1) * (x2 * y2);
    TwoByTwo(x1 * x1, y1 * y1, x2 * x2, y2 * y2);
  }

  lemma NumeratorProduct(x1: int, y1: int, x2: int, y2: int)
    ensures (x1 * y2 + x2 * y1) * (y1 * y2 + x1 * x2)
         == (x1 * y1) * (x2 * x2 + y2 * y2) + (x2 * y2) * (x1 * x1 + y1 * y1)
  {
    assert (x1 * y2) * (y1 * y2) == (x1 * y1) * (y2 * y2);
    assert (x1 * y2) * (x1 * x2) == (x2 * y2) * (x1 * x1);
    assert (x2 * y1) * (y1 * y2) == (x2 * y2) * (y1 * y1);
    assert (x2 * y1) * (x1 * x2) == (x1 * y1) * (x2 * x2);
    TwoByTwo(x1 * y2, x2 * y1, y1 * y2, x1 * x2);
  }

  /** The two numerators of the sum, combined into quantities of each summand. */
  lemma SumQuantities(x1: int, y1: int, x2: int, y2: int)
    ensures var a, b, s, t := x1 * y2 + x2 * y1, y1 * y2 + x1 * x2, x1 * y1, x2 * y2;
            var m, n, c1, c2 := x1 * x1 + y1 * y1, x2 * x2 + y2 * y2, y1 * y1 - x1 * x1, y2 * y2 - x2 * x2;
            && b * b - a * a == c1 * c2
            && b * b + a * a == m * n + 4 * (s * t)
            && a * b == s * n + t * m
            && m * m == c1 * c1 + 4 * (s * s)
            && n * n == c2 * c2 + 4 * (t * t)
  {
    NumeratorSquares(x1, y1, x2, y2);
    NumeratorProduct(x1, y1, x2, y2);
    Interchange(x1, y1, x1, y1);
    Interchange(x2, y2, x2, y2);
    SumAndDifference(x1 * x1, y1 * y1);
    SumAndDifference(x2 * x2, y2 * y2);
  }

  lemma LeftSide(aa: int, bb: int, dl: int)
    ensures bb * ((1 + dl) * (1 + dl)) - aa * ((1 - dl) * (1 - dl))
            == (bb - aa) + (dl * dl) * (bb - aa) + 2 * dl * (bb + aa)
    ensures ((1 + dl) * (1 + dl)) * ((1 - dl) * (1 - dl)) == 1 - 2 * (dl * dl) + (dl * dl) * (dl * dl)
  {
    assert (1 + dl) * (1 - dl) == 1 - dl * dl;
    Interchange(1 + dl, 1 + dl, 1 - dl, 1 - dl);
  }

  /** (a b)^2 with a b = s n + t m, in terms of the squares of m and n. */
  lemma SquareOfProducts(s: int, t: int, m: int, n: int, c1: int, c2: int, q: int)
    requires q == m * n + 4 * (s * t)
    requires m * m == c1 * c1 + 4 * (s * s) && n * n == c2 * c2 + 4 * (t * t)
    ensures (s * n + t * m) * (s * n + t * m) == (s * s) * (c2 * c2) + (t * t) * (c1 * c1) + 2 * ((s * t) * q)
  {
    var ss, tt, st := s * s, t * t, s * t;
    SquareOfSum(s, n, t, m);
    Interchange(s, s, t, t);
    Interchange(s, t, s, t);
    Distribute3(ss, c2 * c2, 4 * tt, 0);
    Distribute3(tt, c1 * c1, 4 * ss, 0);
    Distribute3(st, m * n, 4 * st, 0);
    assert (s * t) * (n * m) == st * (m * n);
  }

  lemma ProductAssociates(x: int, y: int, z: int)
    ensures x * (y * z) == (x * y) * z
  {}

  /** d a^2 b^2, with the common part 2 delta (a^2 + b^2) that the left side shares. */
  lemma ProductTerm(d: int, s: int, t: int, m: int, n: int, c1: int, c2: int, a: int, b: int)
    requires b * b + a * a == m * n + 4 * (s * t) && a * b == s * n + t * m
    requires m * m == c1 * c1 + 4 * (s * s) && n * n == c2 * c2 + 4 * (t * t)
    ensures d * ((a * a) * (b * b))
            == (d * (s * s)) * (c2 * c2) + (d * (t * t)) * (c1 * c1) + 2 * (d * (s * t)) * (b * b + a * a)
  {
    var q := b * b + a * a;
    Interchange(a, a, b, b);
    SquareOfProducts(s, t, m, n, c1, c2, q);
    Distribute3(d, (s * s) * (c2 * c2), (t * t) * (c1 * c1), 2 * ((s * t) * q));
    ProductAssociates(d, s * s, c2 * c2);
    ProductAssociates(d, t * t, c1 * c1);
    ProductAssociates(d, s * t, q);
  }

  lemma FinalExpansion(al: int, be: int, c1: int, c2: int)
    ensures c1 * c2
            + (al * be) * (c1 * c2) - (1 - 2 * (al * be) + (al * be) * (al * be)) - al * (c2 * c2) - be * (c1 * c1)
         == (1 + al * be) * (c1 * c2 - (1 + al) * (1 + be)) + -al * (c2 * c2 - (1 + be) * (1 + be))
            + -be * (c1 * c1 - (1 + al) * (1 + al))
  {}

  lemma ClosureCombination(d: int, s: int, t: int, m: int, n: int, c1: int, c2: int, al: int, be: int, dl: int, a: int,
                           b: int)
    requires al == d * (s * s) && be == d * (t * t) && dl == d * (s * t) && dl * dl == al * be
    requires b * b - a * a == c1 * c2 && b * b + a * a == m * n + 4 * (s * t) && a * b == s * n + t * m
    requires m * m == c1 * c1 + 4 * (s * s) && n * n == c2 * c2 + 4 * (t * t)
    ensures ((b * b) * ((1 + dl) * (1 + dl)) - (a * a) * ((1 - dl) * (1 - dl)))
            - (((1 + dl) * (1 + dl)) * ((1 - dl) * (1 - dl)) + d * ((a * a) * (b * b)))
         == (1 + dl * dl) * (c1 * c2 - (1 + al) * (1 + be)) + -al * (c2 * c2 - (1 + be) * (1 + be))
            + -be * (c1 * c1 - (1 + al) * (1 + al)) + 0 * 0 + 0 * 0
  {
    ProductTerm(d, s, t, m, n, c1, c2, a, b);
    LeftSide(a * a, b * b, dl);
    FinalExpansion(al, be, c1, c2);
    assert (dl * dl) * (c1 * c2) == (al * be) * (c1 * c2);
  }

  /** The curve equation of the sum, cleared of denominators. */
  lemma ClosureIdentity(p: int, d: int, x1: int, y1: int, x2: int, y2: int)
    requires p > 0
    requires Cong(p, y1 * y1 - x1 * x1, 1 + d * ((x1 * x1) * (y1 * y1)))
    requires Cong(p, y2 * y2 - x2 * x2, 1 + d * ((x2 * x2) * (y2 * y2)))
    ensures var dl := d * ((x1 * y1) * (x2 * y2));
            var a, b, q, r := x1 * y2 + x2 * y1, y1 * y2 + x1 * x2, 1 + dl, 1 - dl;
            Cong(p, (b * b) * (q * q) - (a * a) * (r * r), (q * q) * (r * r) + d * ((a * a) * (b * b)))
  {
    var s, t := x1 * y1, x2 * y2;
    var c1, c2 := y1 * y1 - x1 * x1, y2 * y2 - x2 * x2;
    var al, be := d * (s * s), d * (t * t);
    var dl := d * (s * t);
    var a, b := x1 * y2 + x2 * y1, y1 * y2 + x1 * x2;
    Interchange(x1, y1, x1, y1);
    Interchange(x2, y2, x2, y2);
    Mul(p, c1, 1 + al, c2, 1 + be);
    Mul(p, c1, 1 + al, c1, 1 + al);
    Mul(p, c2, 1 + be, c2, 1 + be);
    Difference(p, c1 * c2, (1 + al) * (1 + be));
    Difference(p, c1 * c1, (1 + al) * (1 + al));
    Difference(p, c2 * c2, (1 + be) * (1 + be));
    Combine5(p, 1 + dl * dl, c1 * c2 - (1 + al) * (1 + be), -al, c2 * c2 - (1 + be) * (1 + be),
             -be, c1 * c1 - (1 + al) * (1 + al), 0, 0, 0, 0);
    SumQuantities(x1, y1, x2, y2);
    Interchange(d, s * t, d, s * t);
    Interchange(s, t, s, t);
    Interchange(d, s * s, d, t * t);
    ClosureCombination(d, s, t, x1 * x1 + y1 * y1, x2 * x2 + y2 * y2, c1, c2, al, be, dl, a, b);
    Difference(p, (b * b) * ((1 + dl) * (1 + dl)) - (a * a) * ((1 - dl) * (1 - dl)),
                  ((1 + dl) * (1 + dl)) * ((1 - dl) * (1 - dl)) + d * ((a * a) * (b * b)));
  }

  lemma CommonFactor(d: int, x: int, y: int, q: int, r: int)
    ensures (y * r) * q - (x * q) * r == (q * r) * (y - x)
    ensures q * r + d * ((x * q) * (y * r)) == (q * r) * (1 + d * (x * y))
  {
    Interchange(x, q, y, r);
    assert d * ((x * y) * (q * r)) == (q * r) * (d * (x * y));
  }

  lemma ClearSquares(p: int, d: int, x: int, y: int, a: int, b: int, q: int, r: int)
    requires IsPrime(p) && Cong(p, x * q, a) && Cong(p, y * r, b) && !Cong(p, q * r, 0)
    requires Cong(p, b * q - a * r, q * r + d * (a * b))
    ensures Cong(p, y - x, 1 + d * (x * y))
  {
    var e := q * r;
    Mul(p, y * r, b, q, q);
    Mul(p, x * q, a, r, r);
    Add(p, (y * r) * q, b * q, (x * q) * r, a * r);
    Mul(p, x * q, a, y * r, b);
    Mul(p, d, d, (x * q) * (y * r), a * b);
    Add(p, e, e, d * ((x * q) * (y * r)), d * (a * b));
    CommonFactor(d, x, y, q, r);
    Cancel(p, e, y - x, 1 + d * (x * y));
  }

  lemma ClearDenominators(p: int, d: int, x: int, y: int, a: int, b: int, q: int, r: int)
    requires IsPrime(p) && Cong(p, x * q, a) && Cong(p, y * r, b) && !Cong(p, q, 0) && !Cong(p, r, 0)
    requires Cong(p, (b * b) * (q * q) - (a * a) * (r * r), (q * q) * (r * r) + d * ((a * a) * (b * b)))
    ensures Cong(p, y * y - x * x, 1 + d * ((x * x) * (y * y)))
  {
    Product(p, q, q);
    Product(p, r, r);
    Product(p, q * q, r * r);
    Mul(p, x * q, a, x * q, a);
    Mul(p, y * r, b, y * r, b);
    Interchange(x, q, x, q);
    Interchange(y, r, y, r);
    ClearSquares(p, d, x * x, y * y, a * a, b * b, q * q, r * r);
  }

  lemma LawIsClosed(p: int, d: int, x1: int, y1: int, x2: int, y2: int, x3: int, y3: int)
    requires HasLaw(p, d) && OnEdwards(p, d, x1, y1) && OnEdwards(p, d, x2, y2)
    requires AddsUp(p, d, x1, y1, x2, y2, x3, y3)
    ensures OnEdwards(p, d, x3, y3)
  {
    var dl := d * ((x1 * y1) * (x2 * y2));
    LawIsComplete(p, d, x1, y1, x2, y2);
    ClosureIdentity(p, d, x1, y1, x2, y2);
    ClearDenominators(p, d, x3, y3, x1 * y2 + x2 * y1, y1 * y2 + x1 * x2, 1 + dl, 1 - dl);
  }

  lemma Quotient(p: int, a: int, b: int) returns (q: int)
    requires IsPrime(p) && !Cong(p, b, 0)
    ensures 0 <= q < p && Cong(p, q * b, a)
  {
    var n := InverseExists(p, b);
    q := Remainder(p, a * n);
    Residue(p, a * n);
    Mul(p, q, a * n, b, b);
    Mul(p, a, a, b * n, 1);
    assert (a * n) * b == a * (b * n);
  }

  lemma LawHasSum(p: int, d: int, x1: int, y1: int, x2: int, y2: int) returns (x3: int, y3: int)
    requires HasLaw(p, d) && OnEdwards(p, d, x1, y1) && OnEdwards(p, d, x2, y2)
    ensures 0 <= x3 < p && 0 <= y3 < p
    ensures AddsUp(p, d, x1, y1, x2, y2, x3, y3) && OnEdwards(p, d, x3, y3)
  {
    var dl := d * ((x1 * y1) * (x2 * y2));
    LawIsComplete(p, d, x1, y1, x2, y2);
    x3 := Quotient(p, x1 * y2 + x2 * y1, 1 + dl);
    y3 := Quotient(p, y1 * y2 + x1 * x2, 1 - dl);
    LawIsClosed(p, d, x1, y1, x2, y2, x3, y3);
  }

  lemma LawIsUnique(p: int, d: int, x1: int, y1: int, x2: int, y2: int, x3: int, y3: int, x3': int, y3': int)
    requires HasLaw(p, d) && OnEdwards(p, d, x1, y1) && OnEdwards(p, d, x2, y2)
    requires AddsUp(p, d, x1, y1, x2, y2, x3, y3) && AddsUp(p, d, x1, y1, x2, y2, x3', y3')
    ensures Cong(p, x3, x3') && Cong(p, y3, y3')
  {
    var dl := d * ((x1 * y1) * (x2 * y2));
    LawIsComplete(p, d, x1, y1, x2, y2);
    CancelRight(p, 1 + dl, x3, x3');
    CancelRight(p, 1 - dl, y3, y3');
  }

  lemma LawCommutes(p: int, d: int, x1: int, y1: int, x2: int, y2: int, x3: int, y3: int)
    requires p > 0 && AddsUp(p, d, x1, y1, x2, y2, x3, y3)
    ensures AddsUp(p, d, x2, y2, x1, y1, x3, y3)
  {
    assert (x1 * y1) * (x2 * y2) == (x2 * y2) * (x1 * y1);
  }

  lemma LawHasZero(p: int, d: int, x: int, y: int)
    requires p > 0
    ensures OnEdwards(p, d, 0, 1) && AddsUp(p, d, 0, 1, x, y, x, y)
  {}

  lemma InverseSum(p: int, d: int, n: int, x: int, y: int)
    requires p > 0 && Cong(p, n, -x) && Cong(p, y * y - x * x, 1 + d * ((x * x) * (y * y)))
    ensures var dl := d * ((n * y) * (x * y));
            Cong(p, 0 * (1 + dl), n * y + x * y) && Cong(p, 1 * (1 - dl), y * y + n * x)
  {
    var dl := d * ((n * y) * (x * y));
    Add(p, n, -x, x, x);
    Mul(p, n + x, 0, y, y);
    assert (n + x) * y == n * y + x * y;
    Mul(p, n, -x, x, x);
    Mul(p, n * x, -(x * x), d * (y * y), d * (y * y));
    Interchange(n, y, x, y);
    assert d * ((n * x) * (y * y)) == (n * x) * (d * (y * y));
    assert -(x * x) * (d * (y * y)) == -(d * ((x * x) * (y * y)));
    Add(p, 1, 1, dl, -(d * ((x * x) * (y * y))));
    Add(p, y * y, y * y, n * x, -(x * x));
  }

  lemma OnEdwardsCong(p: int, d: int, x: int, y: int, x': int, y': int)
    requires p > 0 && Cong(p, x, x') && Cong(p, y, y') && OnEdwards(p, d, x, y)
    ensures OnEdwards(p, d, x', y')
  {
    Mul(p, x, x', x, x');
    Mul(p, y, y', y, y');
    Mul(p, x * x, x' * x', y * y, y' * y');
    Mul(p, d, d, (x * x) * (y * y), (x' * x') * (y' * y'));
    Add(p, 1, 1, d * ((x * x) * (y * y)), d * ((x' * x') * (y' * y')));
    Add(p, y * y, y' * y', x * x, x' * x');
  }

  lemma LawHasInverse(p: int, d: int, n: int, x: int, y: int)
    requires p > 0 && OnEdwards(p, d, x, y) && Cong(p, n, -x)
    ensures OnEdwards(p, d, n, y) && AddsUp(p, d, n, y, x, y, 0, 1)
  {
    InverseSum(p, d, n, x, y);
    OnEdwardsCong(p, d, -x, y, n, y);
    assert (-x) * (-x) == x * x;
  }

  // Associativity.

  lemma DenominatorForm(d: int, s: int, x: int, y: int, p: int, q: int)
    ensures p * q + (d * s) * ((x * p) * (y * q)) == (1 + d * ((x * y) * s)) * (p * q)
  {
    Interchange(x, p, y, q);
    assert (d * s) * ((x * y) * (p * q)) == (d * ((x * y) * s)) * (p * q);
  }

  lemma HalfDenominator(m: int, d: int, x12: int, y12: int, s: int, a: int, b: int, dl: int, e: int, den: int)
    requires m > 0 && Cong(m, x12 * (1 + dl), a) && Cong(m, y12 * (1 - dl), b) && e == d * ((x12 * y12) * s)
    requires den == 1 - dl * dl + (d * s) * (a * b)
    ensures Cong(m, (1 + e) * ((1 + dl) * (1 - dl)), den)
  {
    var p, q := 1 + dl, 1 - dl;
    Mul(m, x12 * p, a, y12 * q, b);
    Mul(m, d * s, d * s, (x12 * p) * (y12 * q), a * b);
    Add(m, p * q, p * q, (d * s) * ((x12 * p) * (y12 * q)), (d * s) * (a * b));
    DenominatorForm(d, s, x12, y12, p, q);
    assert p * q == 1 - dl * dl;
  }

  lemma NumeratorProducts(x12: int, y12: int, x3: int, y3: int, p: int, q: int)
    ensures (x12 * y3 + x3 * y12) * (p * q) == (x12 * p) * (y3 * q) + (y12 * q) * (x3 * p)
  {
    Interchange(x12, p, y3, q);
    assert (y12 * q) * (x3 * p) == (x3 * y12) * (p * q);
  }

  lemma NumeratorForm(m: int, x12: int, y12: int, x3: int, y3: int, a: int, b: int, p: int, q: int)
    requires m > 0 && Cong(m, x12 * p, a) && Cong(m, y12 * q, b)
    ensures Cong(m, (x12 * y3 + x3 * y12) * (p * q), (a * y3) * q + (x3 * b) * p)
  {
    Mul(m, x12 * p, a, y3 * q, y3 * q);
    Mul(m, y12 * q, b, x3 * p, x3 * p);
    Add(m, (x12 * p) * (y3 * q), a * (y3 * q), (y12 * q) * (x3 * p), b * (x3 * p));
    NumeratorProducts(x12, y12, x3, y3, p, q);
    assert a * (y3 * q) == (a * y3) * q && b * (x3 * p) == (x3 * b) * p;
  }

  lemma HalfNumerator(m: int, x12: int, y12: int, x3: int, y3: int, x: int, a: int, b: int, dl: int, e: int, den: int)
    requires m > 0 && Cong(m, x12 * (1 + dl), a) && Cong(m, y12 * (1 - dl), b)
             && Cong(m, x * (1 + e), x12 * y3 + x3 * y12)
    requires Cong(m, (1 + e) * ((1 + dl) * (1 - dl)), den)
    ensures Cong(m, x * den, (a * y3) * (1 - dl) + (x3 * b) * (1 + dl))
  {
    var p, q := 1 + dl, 1 - dl;
    Mul(m, x, x, (1 + e) * (p * q), den);
    NumeratorForm(m, x12, y12, x3, y3, a, b, p, q);
    Mul(m, x * (1 + e), x12 * y3 + x3 * y12, p * q, p * q);
    assert (x * (1 + e)) * (p * q) == x * ((1 + e) * (p * q));
  }

  lemma Spread(a: int, b: int, x: int, y: int, dl: int)
    ensures (a * y) * (1 - dl) + (x * b) * (1 + dl) == x * b + y * a + dl * (x * b - y * a)
  {}

  /** The x-coordinate of (P1 + P2) + P3, cleared of denominators. */
  lemma HalfX(m: int, d: int, x1: int, y1: int, x2: int, y2: int, x12: int, y12: int, x3: int, y3: int, x: int,
              dl: int, e: int, num: int, den: int)
    requires m > 0 && dl == d * ((x1 * y1) * (x2 * y2)) && e == d * ((x12 * y12) * (x3 * y3))
    requires Cong(m, x12 * (1 + dl), x1 * y2 + x2 * y1) && Cong(m, y12 * (1 - dl), y1 * y2 + x1 * x2)
    requires Cong(m, x * (1 + e), x12 * y3 + x3 * y12)
    requires num
             == x3 * (y1 * y2 + x1 * x2) + y3 * (x1 * y2 + x2 * y1)
                 + dl * (x3 * (y1 * y2 + x1 * x2) - y3 * (x1 * y2 + x2 * y1))
    requires den == 1 - dl * dl + d * (x3 * y3) * ((x1 * y1) * (x2 * x2 + y2 * y2) + (x2 * y2) * (x1 * x1 + y1 * y1))
    ensures Cong(m, x * den, num) && Cong(m, (1 + e) * ((1 + dl) * (1 - dl)), den)
  {
    var a, b := x1 * y2 + x2 * y1, y1 * y2 + x1 * x2;
    NumeratorProduct(x1, y1, x2, y2);
    HalfDenominator(m, d, x12, y12, x3 * y3, a, b, dl, e, den);
    HalfNumerator(m, x12, y12, x3, y3, x, a, b, dl, e, den);
    Spread(a, b, x3, y3, dl);
  }

  lemma TripleSum(x1: int, y1: int, x2: int, y2: int, x3: int, y3: int)
    ensures x3 * (y1 * y2 + x1 * x2) + y3 * (x1 * y2 + x2 * y1) == x1 * (y2 * y3 + x2 * x3) + y1 * (x2 * y3 + x3 * y2)
  {}

  lemma CrossCancel(p: int, x: int, a: int, n: int, y: int, b: int, m: int)
    requires IsPrime(p) && Cong(p, x * a, n) && Cong(p, y * b, m) && Cong(p, n * b, m * a)
    requires !Cong(p, a, 0) && !Cong(p, b, 0)
    ensures Cong(p, x, y)
  {
    Mul(p, x * a, n, b, b);
    Mul(p, y * b, m, a, a);
    assert (x * a) * b == (a * b) * x && (y * b) * a == (a * b) * y;
    Product(p, a, b);
    Cancel(p, a * b, x, y);
  }

  lemma EdwardsForm(p: int, d: int, x: int, y: int)
    requires p > 0 && OnEdwards(p, d, x, y)
    ensures Cong(p, d * ((x * y) * (x * y)), y * y - x * x - 1)
  {
    Interchange(x, y, x, y);
    Add(p, y * y - x * x, 1 + d * ((x * x) * (y * y)), 1, 1);
  }

  /** The factors by which HalfX multiplies do not vanish. */
  lemma HalfNonZero(p: int, d: int, x1: int, y1: int, x2: int, y2: int, x12: int, y12: int, x3: int, y3: int)
    requires HasLaw(p, d) && OnEdwards(p, d, x1, y1) && OnEdwards(p, d, x2, y2) && OnEdwards(p, d, x3, y3)
    requires AddsUp(p, d, x1, y1, x2, y2, x12, y12)
    ensures var dl, e := d * ((x1 * y1) * (x2 * y2)), d * ((x12 * y12) * (x3 * y3));
            !Cong(p, (1 + e) * ((1 + dl) * (1 - dl)), 0)
  {
    var dl, e := d * ((x1 * y1) * (x2 * y2)), d * ((x12 * y12) * (x3 * y3));
    LawIsClosed(p, d, x1, y1, x2, y2, x12, y12);
    LawIsComplete(p, d, x1, y1, x2, y2);
    LawIsComplete(p, d, x12, y12, x3, y3);
    Product(p, 1 + dl, 1 - dl);
    Product(p, 1 + e, (1 + dl) * (1 - dl));
  }

  lemma LawAssociatesX(p: int, d: int, x1: int, y1: int, x2: int, y2: int, x3: int, y3: int,
                       x12: int, y12: int, x23: int, y23: int, xl: int, yl: int, xr: int, yr: int)
    requires HasLaw(p, d) && OnEdwards(p, d, x1, y1) && OnEdwards(p, d, x2, y2) && OnEdwards(p, d, x3, y3)
    requires AddsUp(p, d, x1, y1, x2, y2, x12, y12) && AddsUp(p, d, x12, y12, x3, y3, xl, yl)
    requires AddsUp(p, d, x2, y2, x3, y3, x23, y23) && AddsUp(p, d, x1, y1, x23, y23, xr, yr)
    ensures Cong(p, xl, xr)
  {
    var s1, s2, s3 := x1 * y1, x2 * y2, x3 * y3;
    var n1, n2, n3 := x1 * x1 + y1 * y1, x2 * x2 + y2 * y2, x3 * x3 + y3 * y3;
    var sum := x3 * (y1 * y2 + x1 * x2) + y3 * (x1 * y2 + x2 * y1);
    var u1 := x1 * (y2 * y3 + x2 * x3) - y1 * (x2 * y3 + x3 * y2);
    var u3 := x3 * (y1 * y2 + x1 * x2) - y3 * (x1 * y2 + x2 * y1);
    var e12, e23 := d * (s1 * s2), d * (s2 * s3);
    var el, er := d * ((x12 * y12) * s3), d * ((x23 * y23) * s1);
    var num, den := sum + e12 * u3, 1 - e12 * e12 + d * s3 * (s1 * n2 + s2 * n1);
    var num', den' := sum + e23 * u1, 1 - e23 * e23 + d * s1 * (s2 * n3 + s3 * n2);
    TripleSum(x1, y1, x2, y2, x3, y3);
    HalfX(p, d, x1, y1, x2, y2, x12, y12, x3, y3, xl, e12, el, num, den);
    LawCommutes(p, d, x1, y1, x23, y23, xr, yr);
    HalfX(p, d, x2, y2, x3, y3, x23, y23, x1, y1, xr, e23, er, num', den');
    EdwardsForm(p, d, x1, y1);
    EdwardsForm(p, d, x2, y2);
    EdwardsForm(p, d, x3, y3);
    AssociativityIdentity(p, d, x1, y1, x2, y2, x3, y3, sum, u1, u3);
    HalfNonZero(p, d, x1, y1, x2, y2, x12, y12, x3, y3);
    HalfNonZero(p, d, x2, y2, x3, y3, x23, y23, x1, y1);
    CrossCancel(p, xl, den, num, xr, den', num');
  }

  // Adding the point (i, 0) of order four takes (x, y) to (i y, i x), which carries the
  // statement about x-coordinates over to y-coordinates.

  lemma ShiftEquation(p: int, d: int, ii: int, a: int, b: int)
    requires p > 0 && Cong(p, ii, -1) && Cong(p, b - a, 1 + d * (a * b))
    ensures Cong(p, ii * a - ii * b, 1 + d * ((ii * b) * (ii * a)))
  {
    Mul(p, ii, -1, a - b, a - b);
    assert ii * (a - b) == ii * a - ii * b && -1 * (a - b) == b - a;
    Mul(p, ii, -1, ii, -1);
    Mul(p, ii * ii, 1, d * (a * b), d * (a * b));
    Interchange(ii, b, ii, a);
    assert d * ((ii * ii) * (b * a)) == (ii * ii) * (d * (a * b));
    Add(p, 1, 1, (ii * ii) * (d * (a * b)), d * (a * b));
  }

  lemma ShiftDelta(p: int, d: int, s: int, x: int, y: int, i: int)
    requires p > 0 && Cong(p, i * i, -1)
    ensures Cong(p, d * (s * ((i * y) * (i * x))), -(d * (s * (x * y))))
  {
    Interchange(i, y, i, x);
    Mul(p, i * i, -1, d * (s * (x * y)), d * (s * (x * y)));
    assert d * (s * ((i * i) * (y * x))) == (i * i) * (d * (s * (x * y)));
  }

  lemma ShiftCoordinate(p: int, i: int, z: int, q: int, r: int, n: int)
    requires p > 0 && Cong(p, q, r) && Cong(p, z * r, n)
    ensures Cong(p, (i * z) * q, i * n)
  {
    Mul(p, z, z, q, r);
    Mul(p, i, i, z * q, n);
    assert (i * z) * q == i * (z * q);
  }

  lemma ShiftNumerators(x1: int, y1: int, x2: int, y2: int, i: int)
    ensures i * (y1 * y2 + x1 * x2) == x1 * (i * x2) + (i * y2) * y1
    ensures i * (x1 * y2 + x2 * y1) == y1 * (i * x2) + x1 * (i * y2)
  {}

  lemma ShiftOnEdwards(p: int, d: int, i: int, x: int, y: int)
    requires p > 0 && Cong(p, i * i, -1) && OnEdwards(p, d, x, y)
    ensures OnEdwards(p, d, i * y, i * x)
  {
    Interchange(i, x, i, x);
    Interchange(i, y, i, y);
    ShiftEquation(p, d, i * i, x * x, y * y);
  }

  lemma ShiftSum(p: int, d: int, i: int, x1: int, y1: int, x2: int, y2: int, x3: int, y3: int)
    requires p > 0 && Cong(p, i * i, -1) && AddsUp(p, d, x1, y1, x2, y2, x3, y3)
    ensures AddsUp(p, d, x1, y1, i * y2, i * x2, i * y3, i * x3)
  {
    var dl, dl' := d * ((x1 * y1) * (x2 * y2)), d * ((x1 * y1) * ((i * y2) * (i * x2)));
    ShiftDelta(p, d, x1 * y1, x2, y2, i);
    Add(p, 1, 1, dl', -dl);
    ShiftCoordinate(p, i, y3, 1 + dl', 1 - dl, y1 * y2 + x1 * x2);
    ShiftCoordinate(p, i, x3, 1 - dl', 1 + dl, x1 * y2 + x2 * y1);
    ShiftNumerators(x1, y1, x2, y2, i);
  }

  lemma RootNonZero(p: int, i: int)
    requires p > 2 && Cong(p, i * i, -1)
    ensures !Cong(p, i, 0)
  {
    SmallUnits(p);
    if Cong(p, i, 0) {
      Mul(p, i, 0, i, 0);
    }
  }

  lemma LawAssociatesY(p: int, d: int, x1: int, y1: int, x2: int, y2: int, x3: int, y3: int,
                       x12: int, y12: int, x23: int, y23: int, xl: int, yl: int, xr: int, yr: int)
    requires HasLaw(p, d) && OnEdwards(p, d, x1, y1) && OnEdwards(p, d, x2, y2) && OnEdwards(p, d, x3, y3)
    requires AddsUp(p, d, x1, y1, x2, y2, x12, y12) && AddsUp(p, d, x12, y12, x3, y3, xl, yl)
    requires AddsUp(p, d, x2, y2, x3, y3, x23, y23) && AddsUp(p, d, x1, y1, x23, y23, xr, yr)
    ensures Cong(p, yl, yr)
  {
    var i :| Root(p, -1, 1, i);
    ShiftOnEdwards(p, d, i, x3, y3);
    ShiftSum(p, d, i, x12, y12, x3, y3, xl, yl);
    ShiftSum(p, d, i, x2, y2, x3, y3, x23, y23);
    ShiftSum(p, d, i, x1, y1, x23, y23, xr, yr);
    LawAssociatesX(p, d, x1, y1, x2, y2, i * y3, i * x3, x12, y12, i * y23, i * x23, i * yl, i * xl, i * yr, i * xr);
    RootNonZero(p, i);
    Cancel(p, i, yl, yr);
  }

  /** The addition law is associative. */
  lemma LawAssociates(p: int, d: int, x1: int, y1: int, x2: int, y2: int, x3: int, y3: int,
                      x12: int, y12: int, x23: int, y23: int, xl: int, yl: int, xr: int, yr: int)
    requires HasLaw(p, d) && OnEdwards(p, d, x1, y1) && OnEdwards(p, d, x2, y2) && OnEdwards(p, d, x3, y3)
    requires AddsUp(p, d, x1, y1, x2, y2, x12, y12) && AddsUp(p, d, x12, y12, x3, y3, xl, yl)
    requires AddsUp(p, d, x2, y2, x3, y3, x23, y23) && AddsUp(p, d, x1, y1, x23, y23, xr, yr)
    ensures Cong(p, xl, xr) && Cong(p, yl, yr)
  {
    LawAssociatesX(p, d, x1, y1, x2, y2, x3, y3, x12, y12, x23, y23, xl, yl, xr, yr);
    LawAssociatesY(p, d, x1, y1, x2, y2, x3, y3, x12, y12, x23, y23, xl, yl, xr, yr);
  }

  // The quotient of the curve equation.

  /** The denominator 1 + d y^2 never vanishes. */
  lemma LawDenominator(p: int, d: int, y: int)
    requires HasLaw(p, d)
    ensures !Cong(p, (y * y) * d + 1, 0)
  {
    var a := (y * y) * d;
    if Cong(p, a + 1, 0) {
      var i :| Root(p, -1, 1, i);
      Difference(p, a + 1, 0);
      Difference(p, a, -1);
      assert a == d * (y * y);
      SquareRatio(p, d, i, y);
      Product(p, y * y, d);
      Product(p, y, y);
      SmallUnits(p);
    }
  }
}
