/** Square roots modulo a prime p = 8e + 5, where i is a root of -1. */
module SquareRoots {
  import opened Congruence
  import opened Primes

  /** s is a root of u / v, in the form that is also meaningful for v = 0. */
  predicate Root(p: int, u: int, v: int, s: int)
    requires p > 0
  {
    Cong(p, v * (s * s), u)
  }

  lemma Product(p: int, a: int, b: int)
    requires IsPrime(p)
    ensures Cong(p, a * b, 0) <==> Cong(p, a, 0) || Cong(p, b, 0)
  {
    if Cong(p, a, 0) { Mul(p, a, 0, b, b); }
    if Cong(p, b, 0) { Mul(p, a, a, b, 0); }
    if Cong(p, a * b, 0) { NoZeroDivisors(p, a, b); }
  }

  lemma FactorDifference(p: int, x: int, y: int)
    requires IsPrime(p) && Cong(p, x * x, y * y)
    ensures Cong(p, x, y) || Cong(p, x, -y)
  {
    Difference(p, x * x, y * y);
    assert x * x - y * y == (x - y) * (x + y);
    NoZeroDivisors(p, x - y, x + y);
    Difference(p, x, y);
    Difference(p, x, -y);
  }

  lemma FourthRootOfUnity(p: int, i: int, w: int)
    requires IsPrime(p) && Cong(p, i * i, -1) && Cong(p, (w * w) * (w * w), 1)
    ensures Cong(p, w * w, 1) ==> Cong(p, w, 1) || Cong(p, w, -1)
    ensures !Cong(p, w * w, 1) ==> Cong(p, w * w, -1) && (Cong(p, w, i) || Cong(p, w, -i))
  {
    if Cong(p, w * w, 1) {
      FactorDifference(p, w, 1);
    } else {
      assert (w * w) * (w * w) == (w * w) * (w * w) && 1 == 1 * 1;
      FactorDifference(p, w * w, 1);
      FactorDifference(p, w, i);
    }
  }

  function Cube(v: int): int { v * v * v }

  function Seventh(v: int): int { Cube(v) * Cube(v) * v }

  /** The candidate root u v^3 (u v^7)^e. */
  function Candidate(u: int, v: int, e: nat): int {
    (u * Cube(v)) * Pow(u * Seventh(v), e)
  }

  lemma Regroup(u: int, v: int, c: int, t: int)
    ensures v * (((u * u) * c) * t) == u * ((u * (c * v)) * t)
  {}

  /** v r^2 is u times a power of u v^7 that is a fourth root of unity. */
  lemma CheckValue(u: int, v: int, e: nat)
    ensures v * (Candidate(u, v, e) * Candidate(u, v, e)) == u * Pow(u * Seventh(v), 2 * e + 1)
  {
    var c, z := Cube(v), u * Seventh(v);
    var t := Pow(z, e);
    PowAdd(z, e, e);
    assert Pow(z, 2 * e + 1) == z * Pow(z, e + e);
    calc {
      v * (((u * c) * t) * ((u * c) * t));
      { Interchange(u * c, t, u * c, t); }
      v * (((u * c) * (u * c)) * (t * t));
      { Interchange(u, c, u, c); }
      v * (((u * u) * (c * c)) * (t * t));
      { Regroup(u, v, c * c, t * t); }
      u * ((u * ((c * c) * v)) * (t * t));
    }
  }

  /** The power that CheckValue meets is a fourth root of unity, by Fermat. */
  lemma Unity(p: int, e: nat, z: int)
    requires IsPrime(p) && p == 8 * e + 5 && !Cong(p, z, 0)
    ensures var w := Pow(z, 2 * e + 1); Cong(p, (w * w) * (w * w), 1)
  {
    var k := 2 * e + 1;
    PowAdd(z, k, k);
    PowAdd(z, 2 * k, 2 * k);
    Fermat(p, z);
  }

  lemma SquareForm(v: int, s: int)
    ensures ((v * v) * (v * v) * s) * ((v * v) * (v * v) * s) == (v * (s * s)) * Seventh(v)
  {
    var f := (v * v) * (v * v);
    assert (f * s) * (f * s) == (f * f) * (s * s);
    assert Seventh(v) == (v * v) * v * ((v * v) * v) * v;
    assert v * Seventh(v) == f * f;
  }

  /** When u / v has a root, the square of that power is 1. */
  lemma RootGivesOne(p: int, e: nat, u: int, v: int, s: int)
    requires IsPrime(p) && p == 8 * e + 5 && Root(p, u, v, s) && !Cong(p, u * Seventh(v), 0)
    ensures var w := Pow(u * Seventh(v), 2 * e + 1); Cong(p, w * w, 1)
  {
    var z, t, k := u * Seventh(v), (v * v) * (v * v) * s, 2 * e + 1;
    assert Cong(p, t * t, z) by {
      Mul(p, v * (s * s), u, Seventh(v), Seventh(v));
      SquareForm(v, s);
    }
    Product(p, t, t);
    PowAdd(z, k, k);
    PowCong(p, t * t, z, 2 * k);
    PowProduct(t, t, 2 * k);
    PowAdd(t, 2 * k, 2 * k);
    Fermat(p, t);
  }

  // Two elements without roots.

  lemma FourthPower(w: int)
    ensures Pow(w, 4) == (w * w) * (w * w)
  {
    PowAdd(w, 2, 2);
    assert Pow(w, 2) == w * Pow(w, 1) && Pow(w, 1) == w;
  }

  lemma OddPowerOfMinusOne(e: nat)
    ensures Pow(-1, 2 * e + 1) == -1
  {
    PowMul(-1, 2, e);
    PowOne(e);
    assert Pow(-1, 2) == -1 * Pow(-1, 1) && Pow(-1, 1) == -1 * Pow(-1, 0);
  }

  /** A root of -1 has no root itself: its root would have order eight, but p - 1 is four times an odd number. */
  lemma FourthRootHasNoRoot(p: int, e: nat, i: int, w: int)
    requires IsPrime(p) && p == 8 * e + 5 && Cong(p, i * i, -1)
    ensures !Cong(p, w * w, i)
  {
    if Cong(p, w * w, i) {
      var k := 2 * e + 1;
      Mul(p, w * w, i, w * w, i);
      FourthPower(w);
      PowCong(p, Pow(w, 4), -1, k);
      PowMul(w, 4, k);
      OddPowerOfMinusOne(e);
      assert 4 * k == p - 1;
      Product(p, w, w);
      Product(p, i, i);
      SmallUnits(p);
      Fermat(p, w);
    }
  }

  lemma RootOfI(p: int, i: int, t: int, h: int)
    requires p > 0 && Cong(p, i * i, -1) && Cong(p, t * t, 2) && Cong(p, 2 * h, 1)
    ensures var w := ((1 + i) * t) * h; Cong(p, w * w, i)
  {
    var j, k := 1 + i, 2 * h;
    Interchange(j * t, h, j * t, h);
    Interchange(j, t, j, t);
    assert j * j == 1 + 2 * i + i * i;
    Add(p, 1 + 2 * i, 1 + 2 * i, i * i, -1);
    Mul(p, j * j, 2 * i, t * t, 2);
    Mul(p, (j * j) * (t * t), (2 * i) * 2, h * h, h * h);
    assert ((2 * i) * 2) * (h * h) == i * (k * k);
    Mul(p, k, 1, k, 1);
    Mul(p, i, i, k * k, 1);
  }

  /** 2 has no root: (1 + i) over a root of 2 would be a root of i. */
  lemma TwoHasNoRoot(p: int, e: nat, i: int, t: int)
    requires IsPrime(p) && p == 8 * e + 5 && Cong(p, i * i, -1)
    ensures !Cong(p, t * t, 2)
  {
    if Cong(p, t * t, 2) {
      var h := 4 * e + 3;
      var w := ((1 + i) * t) * h;
      assert 2 * h == p + 1;
      Difference(p, 2 * h, 1);
      assert (p + 1) - 1 == 1 * p;
      MultipleIsZero(p, 1);
      RootOfI(p, i, t, h);
      FourthRootHasNoRoot(p, e, i, w);
    }
  }
}
