/** Shifts, and signed digit strings in a radix that is a power of two. */
module Digits {
  import opened Congruence

  lemma Monotone(a: int, b: int, c: int)
    requires a <= b && c >= 0
    ensures a * c <= b * c
  {}

  lemma TwoToMonotone(j: nat, k: nat)
    requires j <= k
    ensures TwoTo(j) <= TwoTo(k)
  {
    TwoToAdd(j, k - j);
    Monotone(1, TwoTo(k - j), TwoTo(j));
  }

  lemma DivMod(x: int, a: int)
    requires a > 0
    ensures x == (x / a) * a + x % a && 0 <= x % a < a
  {}

  /** A quotient and remainder are determined by their defining equation. */
  lemma DivModUnique(x: int, a: int, q: int, r: int)
    requires a > 0 && x == q * a + r && 0 <= r < a
    ensures x / a == q && x % a == r
  {
    DivMod(x, a);
    assert (q - x / a) * a == x % a - r;
    SmallMultiple(a, q - x / a);
  }

  /** x >> k. */
  function ShiftRight(x: nat, k: nat): nat {
    if k == 0 then x else ShiftRight(x, k - 1) / 2
  }

  lemma {:induction false} ShiftShift(x: nat, j: nat, k: nat)
    ensures ShiftRight(ShiftRight(x, j), k) == ShiftRight(x, j + k)
  {
    if k > 0 {
      ShiftShift(x, j, k - 1);
    }
  }

  lemma Recombine(q: int, b: int, s: int, a: int, r: int)
    requires a > 0 && 0 <= s < b && 0 <= r < a
    ensures (q * b + s) * a + r == q * (a * b) + (s * a + r)
    ensures 0 <= s * a + r < a * b
  {
    Monotone(s, b - 1, a);
    Monotone(0, s, a);
  }

  lemma SplitStep(x: nat, y: nat, p: int, r: int)
    requires p > 0 && x == y * p + r && 0 <= r < p
    ensures x == (y / 2) * (2 * p) + ((y % 2) * p + r)
    ensures 0 <= (y % 2) * p + r < 2 * p
  {
    assert y == (y / 2) * 2 + y % 2;
    Recombine(y / 2, 2, y % 2, p, r);
  }

  /** x split into what k shifts keep and the k bits that they drop. */
  lemma {:induction false} ShiftSplit(x: nat, k: nat)
    ensures x == ShiftRight(x, k) * TwoTo(k) + x % TwoTo(k)
  {
    if k > 0 {
      var y, p := ShiftRight(x, k - 1), TwoTo(k - 1);
      ShiftSplit(x, k - 1);
      DivMod(x, p);
      SplitStep(x, y, p, x % p);
      DivModUnique(x, 2 * p, y / 2, (y % 2) * p + x % p);
    }
  }

  lemma ShiftUnique(x: nat, k: nat, q: nat, r: nat)
    requires x == q * TwoTo(k) + r && r < TwoTo(k)
    ensures ShiftRight(x, k) == q && x % TwoTo(k) == r
  {
    ShiftSplit(x, k);
    DivMod(x, TwoTo(k));
    DivModUnique(x, TwoTo(k), ShiftRight(x, k), x % TwoTo(k));
    DivModUnique(x, TwoTo(k), q, r);
  }

  /** Cutting the low j + k bits of x at j. */
  lemma LowBits(x: nat, j: nat, k: nat)
    ensures (x % TwoTo(j + k)) % TwoTo(j) == x % TwoTo(j)
    ensures ShiftRight(x % TwoTo(j + k), j) == ShiftRight(x, j) % TwoTo(k)
    ensures x % TwoTo(j + k) == (ShiftRight(x, j) % TwoTo(k)) * TwoTo(j) + x % TwoTo(j)
  {
    var a, b, y := TwoTo(j), TwoTo(k), ShiftRight(x, j);
    var q, s, r := ShiftRight(y, k), y % b, x % a;
    TwoToAdd(j, k);
    ShiftSplit(x, j);
    ShiftSplit(y, k);
    DivMod(x, a);
    DivMod(y, b);
    Recombine(q, b, s, a, r);
    DivModUnique(x, a * b, q, s * a + r);
    ShiftUnique(s * a + r, j, s, r);
  }

  /** x >> k is small when x is. */
  lemma ShiftBound(x: nat, j: nat, k: nat)
    requires x < TwoTo(j + k)
    ensures ShiftRight(x, j) < TwoTo(k)
  {
    var q := ShiftRight(x, j);
    TwoToAdd(j, k);
    ShiftSplit(x, j);
    DivMod(x, TwoTo(j));
    if q >= TwoTo(k) {
      Monotone(TwoTo(k), q, TwoTo(j));
    }
  }

  /** The value of the first n digits, of b bits each, least significant first. */
  function Value(d: seq<int>, b: nat, n: nat): int
    requires n <= |d|
  {
    if n == 0 then 0 else Value(d, b, n - 1) + d[n - 1] * TwoTo(b * (n - 1))
  }

  lemma {:induction false} ValueUnchanged(d: seq<int>, e: seq<int>, b: nat, n: nat)
    requires n <= |d| && n <= |e| && forall i :: 0 <= i < n ==> d[i] == e[i]
    ensures Value(d, b, n) == Value(e, b, n)
  {
    if n > 0 {
      ValueUnchanged(d, e, b, n - 1);
    }
  }

  /** Changing one digit changes the value by its place. */
  lemma {:induction false} ValueUpdate(d: seq<int>, b: nat, n: nat, i: nat, v: int)
    requires i < n <= |d|
    ensures Value(d[i := v], b, n) == Value(d, b, n) + (v - d[i]) * TwoTo(b * i)
  {
    if i == n - 1 {
      ValueUnchanged(d[i := v], d, b, n - 1);
      assert v * TwoTo(b * i) == d[i] * TwoTo(b * i) + (v - d[i]) * TwoTo(b * i);
    } else {
      ValueUpdate(d, b, n - 1, i, v);
    }
  }

  /** Zero digits at the top add nothing. */
  lemma {:induction false} ValueTrim(d: seq<int>, b: nat, m: nat, n: nat)
    requires m <= n <= |d| && forall i :: m <= i < n ==> d[i] == 0
    ensures Value(d, b, n) == Value(d, b, m)
  {
    if m < n {
      ValueTrim(d, b, m, n - 1);
    }
  }

  /** The plain digits of x: its first n windows of b bits are worth x modulo 2^(b n). */
  lemma {:induction false} PlainDigits(d: seq<int>, x: nat, b: nat, n: nat)
    requires n <= |d| && forall i: nat :: i < n ==> d[i] == ShiftRight(x, b * i) % TwoTo(b)
    ensures Value(d, b, n) == x % TwoTo(b * n)
  {
    if n > 0 {
      PlainDigits(d, x, b, n - 1);
      assert b * n == b * (n - 1) + b;
      LowBits(x, b * (n - 1), b);
    }
  }
}
