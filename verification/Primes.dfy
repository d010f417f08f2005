/** What primality of the modulus gives: no zero divisors and Fermat's little theorem. */
module Primes {
  import opened Congruence

  ghost predicate IsPrime(p: int) {
    p >= 2 && forall d :: 2 <= d < p ==> p % d != 0
  }

  /** Euclid's lemma, by descent on the factor that p does not divide. */
  lemma {:induction false} EuclidSmall(p: int, a: int, b: int)
    requires IsPrime(p) && 0 < a < p && Cong(p, a * b, 0)
    ensures Cong(p, b, 0)
    decreases a
  {
    if a > 1 {
      var q, r := p / a, p % a;
      Combine(p, b, p, -q, a * b) by { MultipleIsZero(p, 1); }
      assert b * p + -q * (a * b) == r * b by {
        assert r == p - q * a;
        assert q * (a * b) == (q * a) * b;
      }
      EuclidSmall(p, r, b);
    }
  }

  /** The ring of integers modulo a prime has no zero divisors. */
  lemma NoZeroDivisors(p: int, a: int, b: int)
    requires IsPrime(p) && Cong(p, a * b, 0)
    ensures Cong(p, a, 0) || Cong(p, b, 0)
  {
    var r := Remainder(p, a);
    SmallRemainder(p, 0);
    if r != 0 {
      Residue(p, a);
      Mul(p, r, a, b, b);
      EuclidSmall(p, r, b);
    }
  }

  lemma Cancel(p: int, a: int, b: int, c: int)
    requires IsPrime(p) && Cong(p, a * b, a * c) && !Cong(p, a, 0)
    ensures Cong(p, b, c)
  {
    Difference(p, a * b, a * c);
    assert a * b - a * c == a * (b - c);
    NoZeroDivisors(p, a, b - c);
    Difference(p, b, c);
  }

  lemma CancelRight(p: int, q: int, u: int, u': int)
    requires IsPrime(p) && !Cong(p, q, 0) && Cong(p, u * q, u' * q)
    ensures Cong(p, u, u')
  {
    assert u * q == q * u && u' * q == q * u';
    Cancel(p, q, u, u');
  }

  // Binomial coefficients and the binomial theorem for 1 + x.

  function Choose(n: nat, k: nat): nat {
    if k == 0 then 1 else if n == 0 then 0 else Choose(n - 1, k - 1) + Choose(n - 1, k)
  }

  lemma {:induction false} ChooseLarge(n: nat, k: nat)
    requires k > n
    ensures Choose(n, k) == 0
  {
    if n > 0 {
      ChooseLarge(n - 1, k - 1);
      ChooseLarge(n - 1, k);
    }
  }

  lemma AbsorbStep(n: int, k: int, a: int, b: int, c: int, d: int)
    requires k * a == (n - 1) * c && (k - 1) * b == (n - 1) * d && b == c + d
    ensures k * (b + a) == n * b
  {
    assert k * b == (n - 1) * d + b;
  }

  lemma {:induction false} ChooseDiagonal(n: nat)
    ensures Choose(n, n) == 1
  {
    if n > 0 {
      ChooseDiagonal(n - 1);
      ChooseLarge(n - 1, n);
    }
  }

  lemma {:induction false} Absorb(n: nat, k: nat)
    requires 1 <= k <= n
    ensures k * Choose(n, k) == n * Choose(n - 1, k - 1)
  {
    if k == n {
      ChooseDiagonal(n);
      ChooseDiagonal(n - 1);
    } else if k == 1 {
      Absorb(n - 1, 1);
    } else {
      Absorb(n - 1, k);
      Absorb(n - 1, k - 1);
      AbsorbStep(n, k, Choose(n - 1, k), Choose(n - 1, k - 1), Choose(n - 2, k - 1), Choose(n - 2, k - 2));
    }
  }

  function BinomialSum(n: nat, x: int, k: nat): int {
    if k == 0 then 0 else BinomialSum(n, x, k - 1) + Choose(n, k - 1) * Pow(x, k - 1)
  }

  lemma BinomialTerm(c: int, d: int, x: int, y: int, s: int)
    ensures (c + d) * (x * y) + x * s == x * (s + c * y) + d * (x * y)
  {}

  lemma {:induction false} BinomialStep(n: nat, x: int, k: nat)
    ensures BinomialSum(n + 1, x, k + 1) == BinomialSum(n, x, k + 1) + x * BinomialSum(n, x, k)
  {
    if k > 0 {
      BinomialStep(n, x, k - 1);
      BinomialTerm(Choose(n, k - 1), Choose(n, k), x, Pow(x, k - 1), BinomialSum(n, x, k - 1));
      assert Pow(x, k) == x * Pow(x, k - 1);
    } else {
      assert BinomialSum(n + 1, x, 1) == BinomialSum(n, x, 1) == 1;
    }
  }

  lemma {:induction false} BinomialTheorem(n: nat, x: int)
    ensures Pow(1 + x, n) == BinomialSum(n, x, n + 1)
  {
    if n > 0 {
      BinomialTheorem(n - 1, x);
      BinomialStep(n - 1, x, n);
      ChooseLarge(n - 1, n);
      assert BinomialSum(n - 1, x, n + 1) == BinomialSum(n - 1, x, n);
    }
  }

  lemma CancelSmall(p: int, k: int, c: int, d: int)
    requires IsPrime(p) && 0 < k < p && k * c == p * d
    ensures Cong(p, c, 0)
  {
    MultipleIsZero(p, d);
    assert k * c == d * p;
    EuclidSmall(p, k, c);
  }

  lemma ChooseVanishes(p: int, k: nat)
    requires IsPrime(p) && 1 <= k < p
    ensures Cong(p, Choose(p, k), 0)
  {
    Absorb(p, k);
    CancelSmall(p, k, Choose(p, k), Choose(p - 1, k - 1));
  }

  lemma {:induction false} MiddleTermsVanish(p: int, x: int, k: nat)
    requires IsPrime(p) && 1 <= k <= p
    ensures Cong(p, BinomialSum(p, x, k), 1)
  {
    if k == 1 {
      assert BinomialSum(p, x, 1) == 1;
    } else {
      MiddleTermsVanish(p, x, k - 1);
      ChooseVanishes(p, k - 1);
      Mul(p, Choose(p, k - 1), 0, Pow(x, k - 1), Pow(x, k - 1));
      Add(p, BinomialSum(p, x, k - 1), 1, Choose(p, k - 1) * Pow(x, k - 1), 0);
    }
  }

  lemma {:induction false} FermatNat(p: int, x: nat)
    requires IsPrime(p)
    ensures Cong(p, Pow(x, p), x)
  {
    if x > 0 {
      FermatNat(p, x - 1);
      BinomialTheorem(p, x - 1);
      MiddleTermsVanish(p, x - 1, p);
      assert Choose(p, p) == 1 by { ChooseDiagonal(p); }
      Add(p, BinomialSum(p, x - 1, p), 1, Pow(x - 1, p), x - 1);
    } else {
      assert Pow(0, p) == 0 * Pow(0, p - 1);
    }
  }

  /** Fermat's little theorem. */
  lemma Fermat(p: int, x: int)
    requires IsPrime(p) && !Cong(p, x, 0)
    ensures Cong(p, Pow(x, p - 1), 1)
  {
    var r := Remainder(p, x);
    FermatNat(p, r);
    Residue(p, x);
    PowCong(p, r, x, p);
    var y := Pow(x, p - 1);
    assert Pow(x, p) == x * y;
    assert x * 1 == x;
    Cancel(p, x, y, 1);
  }
}
