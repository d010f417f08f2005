/** Congruence of integers modulo a positive modulus, and powers. */
module Congruence {
  /**
    The remainder of a modulo m. The counter k has no effect on the value: it makes the definition
    recursive, so that proofs do not unfold it to the operator but use the lemmas about congruence.
  */
  function RemainderAt(m: int, a: int, k: nat): (r: int)
    requires m > 0
    ensures 0 <= r < m
    decreases m, a, k
  {
    if k == 0 then a % m else RemainderAt(m, a, k - 1)
  }

  function Remainder(m: int, a: int): (r: int)
    requires m > 0
    ensures 0 <= r < m
  {
    RemainderAt(m, a, 3)
  }

  lemma RemainderIs(m: int, a: int)
    requires m > 0
    ensures Remainder(m, a) == a % m
  {
    assert RemainderAt(m, a, 0) == a % m;
    assert RemainderAt(m, a, 1) == RemainderAt(m, a, 0);
    assert RemainderAt(m, a, 2) == RemainderAt(m, a, 1);
  }

  /** What is already a remainder is unchanged. */
  lemma SmallRemainder(m: int, a: int)
    requires 0 <= a < m
    ensures Remainder(m, a) == a
  {
    RemainderIs(m, a);
  }

  predicate Cong(m: int, a: int, b: int)
    requires m > 0
  {
    Remainder(m, a) == Remainder(m, b)
  }

  lemma NotZero(m: int, a: int)
    requires 0 < a < m
    ensures !Cong(m, a, 0)
  {
    SmallRemainder(m, a);
    SmallRemainder(m, 0);
  }

  lemma SmallMultiple(m: int, k: int)
    requires m > 0 && -m < k * m < m
    ensures k == 0
  {
    assert k >= 1 ==> k * m >= m;
    assert k <= -1 ==> k * m <= -m;
  }

  lemma MultipleIsZero(m: int, k: int)
    requires m > 0
    ensures Cong(m, k * m, 0)
  {
    var q, r := (k * m) / m, (k * m) % m;
    assert r == (k - q) * m;
    SmallMultiple(m, k - q);
    RemainderIs(m, k * m);
    SmallRemainder(m, 0);
  }

  /** Congruence is divisibility of the difference. */
  lemma Difference(m: int, a: int, b: int)
    requires m > 0
    ensures Cong(m, a, b) <==> Cong(m, a - b, 0)
  {
    var qa, qb, q := a / m, b / m, (a - b) / m;
    RemainderIs(m, a);
    RemainderIs(m, b);
    RemainderIs(m, a - b);
    SmallRemainder(m, 0);
    assert a == qa * m + a % m && b == qb * m + b % m && a - b == q * m + (a - b) % m;
    if (a - b) % m == 0 {
      var k := q - qa + qb;
      assert a % m - b % m == k * m;
      SmallMultiple(m, k);
    } else if a % m == b % m {
      assert a - b == (qa - qb) * m;
      MultipleIsZero(m, qa - qb);
    }
  }

  /** A multiple of m as such. */
  lemma AsMultiple(m: int, h: int) returns (q: int)
    requires m > 0 && Cong(m, h, 0)
    ensures h == q * m
  {
    RemainderIs(m, h);
    SmallRemainder(m, 0);
    q := h / m;
  }

  /** An integer combination of two multiples of m is a multiple of m. */
  lemma Combine(m: int, c1: int, h1: int, c2: int, h2: int)
    requires m > 0 && Cong(m, h1, 0) && Cong(m, h2, 0)
    ensures Cong(m, c1 * h1 + c2 * h2, 0)
  {
    var q1 := AsMultiple(m, h1);
    var q2 := AsMultiple(m, h2);
    assert c1 * (q1 * m) == (c1 * q1) * m;
    assert c2 * (q2 * m) == (c2 * q2) * m;
    assert c1 * h1 + c2 * h2 == (c1 * q1 + c2 * q2) * m;
    MultipleIsZero(m, c1 * q1 + c2 * q2);
  }

  lemma Add(m: int, a: int, b: int, c: int, d: int)
    requires m > 0 && Cong(m, a, b) && Cong(m, c, d)
    ensures Cong(m, a + c, b + d)
    ensures Cong(m, a - c, b - d)
  {
    Difference(m, a, b);
    Difference(m, c, d);
    Combine(m, 1, a - b, 1, c - d);
    Combine(m, 1, a - b, -1, c - d);
    assert 1 * (a - b) + 1 * (c - d) == (a + c) - (b + d);
    assert 1 * (a - b) + -1 * (c - d) == (a - c) - (b - d);
    Difference(m, a + c, b + d);
    Difference(m, a - c, b - d);
  }

  lemma SmallUnits(m: int)
    requires m > 2
    ensures !Cong(m, 1, 0) && !Cong(m, 2, 0) && !Cong(m, -1, 0) && !Cong(m, -2, 0) && !Cong(m, 1, -1)
  {
    NotZero(m, 1);
    NotZero(m, 2);
    if Cong(m, -1, 0) {
      Add(m, 0, 0, -1, 0);
    }
    if Cong(m, -2, 0) {
      Add(m, 0, 0, -2, 0);
    }
    Difference(m, 1, -1);
  }

  /** Congruence is equality of the remainders. */
  lemma CongIs(m: int, a: int, b: int)
    requires m > 0
    ensures Cong(m, a, b) <==> a % m == b % m
  {
    RemainderIs(m, a);
    RemainderIs(m, b);
  }

  lemma Combine5(m: int, c1: int, h1: int, c2: int, h2: int, c3: int, h3: int, c4: int, h4: int, c5: int, h5: int)
    requires m > 0 && Cong(m, h1, 0) && Cong(m, h2, 0) && Cong(m, h3, 0) && Cong(m, h4, 0) && Cong(m, h5, 0)
    ensures Cong(m, c1 * h1 + c2 * h2 + c3 * h3 + c4 * h4 + c5 * h5, 0)
  {
    Combine(m, c1, h1, c2, h2);
    Combine(m, c3, h3, c4, h4);
    var a, b := c1 * h1 + c2 * h2, c3 * h3 + c4 * h4;
    Combine(m, 1, a, 1, b);
    Combine(m, 1, 1 * a + 1 * b, c5, h5);
    assert 1 * (1 * a + 1 * b) + c5 * h5 == c1 * h1 + c2 * h2 + c3 * h3 + c4 * h4 + c5 * h5;
  }

  /** A remainder is congruent to its element, and is the element less a multiple of m. */
  lemma Residue(m: int, a: int)
    requires m > 0
    ensures Cong(m, Remainder(m, a), a)
    ensures Remainder(m, a) == a % m
  {
    RemainderIs(m, a);
    SmallRemainder(m, Remainder(m, a));
  }

  lemma Mul(m: int, a: int, b: int, c: int, d: int)
    requires m > 0 && Cong(m, a, b) && Cong(m, c, d)
    ensures Cong(m, a * c, b * d)
  {
    Difference(m, a, b);
    Difference(m, c, d);
    Combine(m, c, a - b, b, c - d);
    assert c * (a - b) + b * (c - d) == a * c - b * d;
    Difference(m, a * c, b * d);
  }

  /** Dividing by q, with an inverse n of q. */
  lemma ClearInverse(p: int, x: int, y: int, q: int, n: int)
    requires p > 0 && Cong(p, x, y * q) && Cong(p, q * n, 1)
    ensures Cong(p, x * n, y)
  {
    Mul(p, x, y * q, n, n);
    Mul(p, y, y, q * n, 1);
    assert (y * q) * n == y * (q * n);
  }

  function Pow(b: int, e: nat): int
    decreases e, b
  {
    if e == 0 then 1 else b * Pow(b, e - 1)
  }

  lemma {:induction false} PowAdd(b: int, e: nat, f: nat)
    ensures Pow(b, e + f) == Pow(b, e) * Pow(b, f)
  {
    if e > 0 {
      PowAdd(b, e - 1, f);
      assert b * (Pow(b, e - 1) * Pow(b, f)) == (b * Pow(b, e - 1)) * Pow(b, f);
    }
  }

  lemma {:induction false} PowMul(b: int, e: nat, f: nat)
    ensures Pow(Pow(b, e), f) == Pow(b, e * f)
  {
    if f > 0 {
      PowMul(b, e, f - 1);
      assert e * f == e + e * (f - 1);
      PowAdd(b, e, e * (f - 1));
    } else {
      assert e * f == 0;
    }
  }

  lemma Interchange(a: int, b: int, x: int, y: int)
    ensures (a * b) * (x * y) == (a * x) * (b * y)
  {}

  lemma {:induction false} PowProduct(a: int, b: int, e: nat)
    ensures Pow(a * b, e) == Pow(a, e) * Pow(b, e)
  {
    if e > 0 {
      PowProduct(a, b, e - 1);
      Interchange(a, b, Pow(a, e - 1), Pow(b, e - 1));
    }
  }

  lemma {:induction false} PowCong(m: int, a: int, b: int, e: nat)
    requires m > 0 && Cong(m, a, b)
    ensures Cong(m, Pow(a, e), Pow(b, e))
  {
    if e > 0 {
      PowCong(m, a, b, e - 1);
      Mul(m, a, b, Pow(a, e - 1), Pow(b, e - 1));
    }
  }

  lemma {:induction false} PowOne(e: nat)
    ensures Pow(1, e) == 1
  {
    if e > 0 {
      PowOne(e - 1);
    }
  }

  function TwoTo(k: nat): int
    ensures TwoTo(k) >= 1
  {
    if k == 0 then 1 else 2 * TwoTo(k - 1)
  }

  lemma {:induction false} TwoToAdd(j: nat, k: nat)
    ensures TwoTo(j + k) == TwoTo(j) * TwoTo(k)
  {
    if j > 0 {
      TwoToAdd(j - 1, k);
    }
  }
}
