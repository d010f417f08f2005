/**
  The 64-bit backend of scalar arithmetic: five limbs of 52 bits, columns of products in 128 bits, and
  carries and borrows in 64-bit words that wrap around. Each operation computes the integer operation
  of ScalarArithmetic, and no column overflows.
*/
module ScalarLimbs {
  import opened Congruence
  import opened Digits
  import opened Recoding
  import opened ScalarArithmetic

  const L0: nat := 0x0002631a5cf5d3ed
  const L1: nat := 0x000dea2f79cd6581
  const L2: nat := 0x000000000014def9
  const L4: nat := 0x0000100000000000
  const L_LIMBS: seq<nat> := [L0, L1, L2, 0, L4]

  const RR0: nat := 0x0009d265e952d13b
  const RR1: nat := 0x000d63c715bea69f
  const RR2: nat := 0x0005be65cb687604
  const RR3: nat := 0x0003dceec73d217f
  const RR4: nat := 0x000009411b7c309a
  const RR_LIMBS: seq<nat> := [RR0, RR1, RR2, RR3, RR4]

  const TWO_63: nat := 0x8000_0000_0000_0000
  const TWO_128: nat := 0x1_0000_0000_0000_0000_0000_0000_0000_0000

  /** The integer that limbs or columns stand for. */
  function LimbsValue(c: seq<int>): int {
    Value(c, 52, |c|)
  }

  predicate AreLimbs(a: seq<int>) {
    |a| == 5 && forall i :: 0 <= i < 5 ==> 0 <= a[i] < LIMB
  }

  lemma LimbSize(n: nat)
    requires n == 52
    ensures TwoTo(n) == LIMB
  {
    WordSize(n, 64 - n);
    TwoToAdd(n, 64 - n);
    TwoToAdd(6, 6);
    assert TwoTo(6) == 64;
  }

  /** The place of the limb with index i + 1. */
  lemma NextLimbPlace(i: nat)
    ensures TwoTo(52 * (i + 1)) == TwoTo(52 * i) * LIMB
  {
    LimbSize(52);
    assert 52 * (i + 1) == 52 * i + 52;
    TwoToAdd(52 * i, 52);
  }

  lemma RadixSize(n: nat)
    requires n == 5
    ensures TwoTo(52 * n) == RADIX
  {
    NextLimbPlace(n - 5);
    NextLimbPlace(n - 4);
    NextLimbPlace(n - 3);
    NextLimbPlace(n - 2);
    NextLimbPlace(n - 1);
    assert TwoTo(52 * (n - 5)) == 1;
  }

  /** Horner's rule. */
  lemma {:induction false} ValueShift(c: seq<int>, n: nat)
    requires 0 < n <= |c|
    ensures Value(c, 52, n) == c[0] + LIMB * Value(c[1..], 52, n - 1)
  {
    if n == 1 {
      assert TwoTo(52 * 0) == 1;
    } else {
      ValueShift(c, n - 1);
      NextLimbPlace(n - 2);
      assert c[1..][n - 2] == c[n - 1];
      assert c[n - 1] * (TwoTo(52 * (n - 2)) * LIMB) == LIMB * (c[n - 1] * TwoTo(52 * (n - 2)));
    }
  }

  lemma Unfold(c: seq<int>)
    requires c != []
    ensures LimbsValue(c) == c[0] + LIMB * LimbsValue(c[1..])
  {
    ValueShift(c, |c|);
  }

  lemma FiveLimbsValue(a: seq<int>)
    requires |a| == 5
    ensures LimbsValue(a) == a[0] + LIMB * (a[1] + LIMB * (a[2] + LIMB * (a[3] + LIMB * a[4])))
  {
    Unfold(a);
    Unfold(a[1..]);
    Unfold(a[2..]);
    Unfold(a[3..]);
    Unfold(a[4..]);
    assert a[1..][1..] == a[2..] && a[2..][1..] == a[3..] && a[3..][1..] == a[4..] && a[4..][1..] == [];
  }

  lemma ModulusLimbs()
    ensures AreLimbs(L_LIMBS) && LimbsValue(L_LIMBS) == L
  {
    FiveLimbsValue(L_LIMBS);
  }

  lemma LimbsRange(a: seq<int>)
    requires AreLimbs(a)
    ensures 0 <= LimbsValue(a) < RADIX
  {
    FiveLimbsValue(a);
  }

  // Products.

  function MulInternal(a: seq<nat>, b: seq<nat>): seq<nat>
    requires |a| == 5 && |b| == 5
  {
    [a[0] * b[0],
     a[0] * b[1] + a[1] * b[0],
     a[0] * b[2] + a[1] * b[1] + a[2] * b[0],
     a[0] * b[3] + a[1] * b[2] + a[2] * b[1] + a[3] * b[0],
     a[0] * b[4] + a[1] * b[3] + a[2] * b[2] + a[3] * b[1] + a[4] * b[0],
     a[1] * b[4] + a[2] * b[3] + a[3] * b[2] + a[4] * b[1],
     a[2] * b[4] + a[3] * b[3] + a[4] * b[2],
     a[3] * b[4] + a[4] * b[3],
     a[4] * b[4]]
  }

  lemma HornerRow(B: int, x: int, b: int, r: int)
    ensures x * (b + B * r) == x * b + B * (x * r)
  {}

  /** x (b0 + B b1 + ... + B^4 b4), by Horner's rule. */
  lemma Row(B: int, x: int, b0: int, b1: int, b2: int, b3: int, b4: int)
    ensures x * (b0 + B * (b1 + B * (b2 + B * (b3 + B * b4))))
            == x * b0 + B * (x * b1 + B * (x * b2 + B * (x * b3 + B * (x * b4))))
  {
    HornerRow(B, x, b3, b4);
    HornerRow(B, x, b2, b3 + B * b4);
    HornerRow(B, x, b1, b2 + B * (b3 + B * b4));
    HornerRow(B, x, b0, b1 + B * (b2 + B * (b3 + B * b4)));
  }

  /** One limb times five. */
  function RowOf(x: nat, b: seq<nat>): (r: seq<nat>)
    requires |b| == 5
    ensures |r| == 5 && LimbsValue(r) == x * LimbsValue(b)
  {
    var r: seq<nat> := [x * b[0], x * b[1], x * b[2], x * b[3], x * b[4]];
    FiveLimbsValue(r);
    FiveLimbsValue(b);
    Row(LIMB, x, b[0], b[1], b[2], b[3], b[4]);
    r
  }

  lemma FourColumns(d: seq<int>, rest: int)
    requires |d| >= 4 && rest == LimbsValue(d[4..])
    ensures LimbsValue(d) == d[0] + LIMB * (d[1] + LIMB * (d[2] + LIMB * (d[3] + LIMB * rest)))
  {
    Unfold(d);
    Unfold(d[1..]);
    Unfold(d[2..]);
    Unfold(d[3..]);
    assert d[1..][1..] == d[2..] && d[2..][1..] == d[3..] && d[3..][1..] == d[4..];
  }

  lemma TopColumns(c: seq<int>, rest: int)
    requires |c| >= 5 && rest == LimbsValue(c[5..])
    ensures LimbsValue(c) == c[0] + LIMB * (c[1] + LIMB * (c[2] + LIMB * (c[3] + LIMB * (c[4] + LIMB * rest))))
  {
    Unfold(c);
    FourColumns(c[1..], rest);
    assert c[1..][4..] == c[5..];
  }

  /** A row and the columns of the higher rows, one place up. */
  function AddShifted(x: seq<nat>, y: seq<nat>): (z: seq<nat>)
    requires |x| == 5 && |y| >= 5
    ensures |z| == |y| + 1 && LimbsValue(z) == LimbsValue(x) + LIMB * LimbsValue(y)
  {
    var z: seq<nat> := [x[0], x[1] + y[0], x[2] + y[1], x[3] + y[2], x[4] + y[3]] + y[4..];
    FiveLimbsValue(x);
    FourColumns(y, LimbsValue(y[4..]));
    assert z[5..] == y[4..];
    TopColumns(z, LimbsValue(y[4..]));
    z
  }

  lemma Commutes(v: int, a: seq<int>)
    requires |a| == 5
    ensures v * a[0] == a[0] * v && v * a[1] == a[1] * v && v * a[2] == a[2] * v && v * a[3] == a[3] * v
    ensures v * a[4] == a[4] * v && v * LimbsValue(a) == LimbsValue(a) * v
  {}

  lemma MulInternalValue(a: seq<nat>, b: seq<nat>)
    requires |a| == 5 && |b| == 5
    ensures LimbsValue(MulInternal(a, b)) == LimbsValue(a) * LimbsValue(b)
  {
    var v := LimbsValue(b);
    var z3 := AddShifted(RowOf(a[3], b), RowOf(a[4], b));
    var z2 := AddShifted(RowOf(a[2], b), z3);
    var z1 := AddShifted(RowOf(a[1], b), z2);
    var z := AddShifted(RowOf(a[0], b), z1);
    assert z3 == [a[3] * b[0], a[3] * b[1] + a[4] * b[0], a[3] * b[2] + a[4] * b[1], a[3] * b[3] + a[4] * b[2],
                  a[3] * b[4] + a[4] * b[3], a[4] * b[4]];
    assert z2 == [a[2] * b[0], a[2] * b[1] + z3[0], a[2] * b[2] + z3[1], a[2] * b[3] + z3[2], a[2] * b[4] + z3[3],
                  z3[4], z3[5]];
    assert z1 == [a[1] * b[0], a[1] * b[1] + z2[0], a[1] * b[2] + z2[1], a[1] * b[3] + z2[2], a[1] * b[4] + z2[3],
                  z2[4], z2[5], z2[6]];
    assert z == MulInternal(a, b);
    FiveLimbsValue(a);
    Row(LIMB, v, a[0], a[1], a[2], a[3], a[4]);
    Commutes(v, a);
  }

  /** The columns of a product are small enough to be reduced in 128 bits. */
  predicate AreColumns(z: seq<int>) {
    |z| == 9 && forall i :: 0 <= i < 9 ==> 0 <= z[i] <= 5 * (LIMB * LIMB)
  }

  lemma SmallProduct(x: nat, y: nat, B: nat)
    requires x < B && y < B
    ensures 0 <= x * y <= B * B
  {
    Monotone(x, B, y);
    Monotone(y, B, B);
  }

  lemma MulInternalFits(a: seq<nat>, b: seq<nat>)
    requires AreLimbs(a) && AreLimbs(b)
    ensures AreColumns(MulInternal(a, b))
  {
    forall i, j | 0 <= i < 5 && 0 <= j < 5
      ensures 0 <= a[i] * b[j] <= LIMB * LIMB
    {
      SmallProduct(a[i], b[j], LIMB);
    }
  }

  lemma Doubled(x: nat, y: nat)
    ensures (x * 2) * y == x * y + y * x
  {}

  /** The columns of a square, which double the products off the diagonal, are those of the product. */
  function SquareInternal(a: seq<nat>): (z: seq<nat>)
    requires |a| == 5
    ensures z == MulInternal(a, a)
  {
    var a0, a1, a2, a3 := a[0] * 2, a[1] * 2, a[2] * 2, a[3] * 2;
    Doubled(a[0], a[1]);
    Doubled(a[0], a[2]);
    Doubled(a[0], a[3]);
    Doubled(a[0], a[4]);
    Doubled(a[1], a[2]);
    Doubled(a[1], a[3]);
    Doubled(a[1], a[4]);
    Doubled(a[2], a[3]);
    Doubled(a[2], a[4]);
    Doubled(a[3], a[4]);
    [a[0] * a[0],
     a0 * a[1],
     a0 * a[2] + a[1] * a[1],
     a0 * a[3] + a1 * a[2],
     a0 * a[4] + a1 * a[3] + a[2] * a[2],
     a1 * a[4] + a2 * a[3],
     a2 * a[4] + a[3] * a[3],
     a3 * a[4],
     a[4] * a[4]]
  }

  // Reduction.

  /** The factor of l that clears the lowest 52 bits of a column, in wrapping 64-bit arithmetic. */
  function FactorOf(sum: nat): nat {
    (((sum % TWO_64) * LFACTOR) % TWO_64) % LIMB
  }

  lemma RemainderOfMultiple(s: nat, k: nat, B: nat)
    requires k > 0 && B > 0
    ensures (s % (B * k)) % B == s % B
    ensures (s % B) % B == s % B
  {
    var q := s / (B * k);
    DivMod(s, B * k);
    assert q * (B * k) == (q * k) * B;
    var r := s % (B * k);
    DivMod(r, B);
    DivModUnique(s, B, q * k + r / B, r % B);
    DivModUnique(s % B, B, 0, s % B);
  }

  /** Wrapping at a multiple of B has no effect modulo B. */
  lemma WrappedProduct(s: nat, f: nat, k: nat, B: nat)
    requires k > 0 && B > 0
    ensures (((s % (B * k)) * f) % (B * k)) % B == ((s % B) * f) % B
  {
    var r := s % (B * k);
    RemainderOfMultiple(s, k, B);
    RemainderOfMultiple(r * f, k, B);
    CongIs(B, r, s % B);
    RemainderOfMultiple(s, 1, B);
    Mul(B, r, s % B, f, f);
    CongIs(B, r * f, (s % B) * f);
  }

  lemma FactorIsExact(sum: nat)
    ensures FactorOf(sum) == ((sum % LIMB) * LFACTOR) % LIMB && FactorOf(sum) < LIMB
  {
    WrappedProduct(sum, LFACTOR, TWO_64 / LIMB, LIMB);
  }

  /** Columns after their lowest limb has been cleared and dropped. */
  function StepColumns(c: seq<nat>): seq<nat>
    requires |c| >= 5
  {
    var n := FactorOf(c[0]);
    [(c[0] + n * L0) / LIMB + c[1] + n * L1, c[2] + n * L2, c[3], c[4] + n * L4] + c[5..]
  }

  lemma {:induction false} ValueNonNegative(c: seq<nat>, n: nat)
    requires n <= |c|
    ensures Value(c, 52, n) >= 0
  {
    if n > 0 {
      ValueNonNegative(c, n - 1);
      Monotone(0, c[n - 1], TwoTo(52 * (n - 1)));
    }
  }

  lemma DropLowest(B: int, c: nat, u: nat, w: nat)
    requires B > 0
    ensures (c + B * u) % B == c % B && (B * w) / B == w
  {
    DivMod(c, B);
    DivModUnique(c + B * u, B, u + c / B, c % B);
    DivModUnique(B * w, B, w, 0);
  }

  lemma MultipleOfModulus(n: nat)
    ensures n * L == n * L0 + LIMB * (n * L1 + LIMB * (n * L2 + LIMB * (LIMB * (n * L4))))
  {}

  lemma StepArithmetic(c0: nat, c1: nat, c2: nat, c3: nat, c4: nat, rest: nat, n: nat, v: nat, w: nat)
    requires v == c0 + LIMB * (c1 + LIMB * (c2 + LIMB * (c3 + LIMB * (c4 + LIMB * rest))))
    requires w == (c0 + n * L0) / LIMB + c1 + n * L1
                  + LIMB * (c2 + n * L2 + LIMB * (c3 + LIMB * (c4 + n * L4 + LIMB * rest)))
    requires (c0 + n * L0) % LIMB == 0 && n == ((c0 % LIMB) * LFACTOR) % LIMB
    ensures w == ReduceLimb(v)
  {
    DropLowest(LIMB, c0, c1 + LIMB * (c2 + LIMB * (c3 + LIMB * (c4 + LIMB * rest))), w);
    assert ((c0 + n * L0) / LIMB) * LIMB == c0 + n * L0;
    MultipleOfModulus(n);
    ReduceLimbIs(v);
  }

  lemma StepValue(c: seq<nat>)
    requires |c| >= 5
    ensures LimbsValue(c) >= 0 && LimbsValue(StepColumns(c)) == ReduceLimb(LimbsValue(c))
  {
    var n, d, rest := FactorOf(c[0]), StepColumns(c), LimbsValue(c[5..]);
    TopColumns(c, rest);
    FourColumns(d, rest);
    ValueNonNegative(c[5..], |c[5..]|);
    FactorIsExact(c[0]);
    LimbIsCleared(LIMB, L0, LFACTOR, c[0]);
    StepArithmetic(c[0], c[1], c[2], c[3], c[4], rest, n, LimbsValue(c), LimbsValue(d));
  }

  // Addition and subtraction.

  function WrappingSub(x: int, y: int): nat {
    (x - y) % TWO_64
  }

  /** One borrow: its highest bit tells whether the difference is negative. */
  lemma WrappedDifference(x: nat, y: nat)
    requires x < LIMB && y <= LIMB
    ensures var b, negative := WrappingSub(x, y), if x < y then 1 else 0;
            b / TWO_63 == negative && b % LIMB == x - y + negative * LIMB
  {}

  lemma NextDigit(d: seq<int>, i: nat, digit: int)
    requires i < |d|
    ensures Value(d[i := digit], 52, i + 1) == Value(d, 52, i) + digit * TwoTo(52 * i)
  {
    ValueUnchanged(d[i := digit], d, 52, i);
  }

  lemma DifferencePlaces(x: int, y: int, z: int, w: int, B: int, t: int)
    ensures (x - y - z + w * B) * t == x * t - y * t - z * t + w * (t * B)
  {
    assert (w * B) * t == w * (t * B);
  }

  lemma BorrowStep(d: seq<int>, a: seq<int>, b: seq<int>, i: nat, borrow: int, borrow': int)
    requires i < |d| && i < |a| && i < |b|
    requires Value(d, 52, i) == Value(a, 52, i) - Value(b, 52, i) + borrow * TwoTo(52 * i)
    ensures var d' := d[i := a[i] - b[i] - borrow + borrow' * LIMB];
            Value(d', 52, i + 1) == Value(a, 52, i + 1) - Value(b, 52, i + 1) + borrow' * TwoTo(52 * (i + 1))
  {
    var t := TwoTo(52 * i);
    NextDigit(d, i, a[i] - b[i] - borrow + borrow' * LIMB);
    NextLimbPlace(i);
    DifferencePlaces(a[i], b[i], borrow, borrow', LIMB, t);
  }

  /** One borrow: a difference of limbs modulo the limb, and the highest bit of the word as the next borrow. */
  method BorrowOnce(x: nat, y: nat, bit: nat) returns (digit: nat, bit': nat)
    requires x < LIMB && y < LIMB && bit <= 1
    ensures digit < LIMB && bit' <= 1 && digit == x - y - bit + bit' * LIMB
  {
    var borrow := WrappingSub(x, y + bit);
    WrappedDifference(x, y + bit);
    digit, bit' := borrow % LIMB, borrow / TWO_63;
  }

  /** The difference, modulo the radix. */
  method BorrowingSub(a: seq<nat>, b: seq<nat>) returns (d: seq<nat>, negative: bool)
    requires AreLimbs(a) && AreLimbs(b)
    ensures AreLimbs(d) && LimbsValue(d) == LimbsValue(a) - LimbsValue(b) + if negative then RADIX else 0
  {
    var difference := new nat[5](_ => 0);
    var bit: nat := 0;
    for i := 0 to 5
      invariant bit <= 1 && forall j :: 0 <= j < i ==> difference[j] < LIMB
      invariant Value(difference[..], 52, i) == Value(a, 52, i) - Value(b, 52, i) + bit * TwoTo(52 * i)
    {
      ghost var before: seq<int>, was: int := difference[..], bit;
      difference[i], bit := BorrowOnce(a[i], b[i], bit);
      BorrowStep(before, a, b, i, was, bit);
      assert difference[..] == before[i := a[i] - b[i] - was + bit * LIMB];
    }
    RadixSize(|a|);
    d, negative := difference[..], bit == 1;
  }

  lemma SumPlaces(x: int, y: int, z: int, w: int, B: int, t: int)
    ensures (x + y + z - w * B) * t == x * t + y * t + z * t - w * (t * B)
  {
    assert (w * B) * t == w * (t * B);
  }

  lemma CarryStep(d: seq<int>, a: seq<int>, b: seq<int>, i: nat, carry: int, carry': int)
    requires i < |d| && i < |a| && i < |b|
    requires Value(d, 52, i) + carry * TwoTo(52 * i) == Value(a, 52, i) + Value(b, 52, i)
    ensures var d' := d[i := a[i] + b[i] + carry - carry' * LIMB];
            Value(d', 52, i + 1) + carry' * TwoTo(52 * (i + 1)) == Value(a, 52, i + 1) + Value(b, 52, i + 1)
  {
    var t := TwoTo(52 * i);
    NextDigit(d, i, a[i] + b[i] + carry - carry' * LIMB);
    NextLimbPlace(i);
    SumPlaces(a[i], b[i], carry, carry', LIMB, t);
  }

  /** The sum, modulo the radix. */
  method CarryingAdd(a: seq<nat>, b: seq<nat>) returns (d: seq<nat>, ghost top: nat)
    requires AreLimbs(a) && AreLimbs(b)
    ensures AreLimbs(d) && LimbsValue(d) + top * RADIX == LimbsValue(a) + LimbsValue(b)
  {
    var sum := new nat[5](_ => 0);
    var carry: nat := 0;
    for i := 0 to 5
      invariant carry < 2 * LIMB && forall j :: 0 <= j < i ==> sum[j] < LIMB
      invariant Value(sum[..], 52, i) + (carry / LIMB) * TwoTo(52 * i) == Value(a, 52, i) + Value(b, 52, i)
    {
      ghost var before: seq<int>, was: int := sum[..], carry / LIMB;
      carry := a[i] + b[i] + carry / LIMB;
      assert carry % LIMB == carry - (carry / LIMB) * LIMB;
      CarryStep(before, a, b, i, was, carry / LIMB);
      sum[i] := carry % LIMB;
      assert sum[..] == before[i := a[i] + b[i] + was - (carry / LIMB) * LIMB];
    }
    RadixSize(|a|);
    d, top := sum[..], carry / LIMB;
  }

  /** l, or nothing. */
  function Addend(negative: bool): (m: seq<nat>)
    ensures AreLimbs(m) && LimbsValue(m) == if negative then L else 0
  {
    ModulusLimbs();
    FiveLimbsValue([0, 0, 0, 0, 0]);
    if negative then L_LIMBS else [0, 0, 0, 0, 0]
  }

  lemma SumWraps(a: int, b: int, negative: bool, difference: int, d: int, top: nat)
    requires 0 <= a < RADIX && 0 <= b < RADIX && b - a <= L && 0 <= difference < RADIX && 0 <= d < RADIX
    requires difference == a - b + if negative then RADIX else 0
    requires d + top * RADIX == difference + if negative then L else 0
    ensures d == Sub(a, b)
  {
    assert negative ==> top == 1;
  }

  /** a - b, with l added if that is negative. */
  method SubLimbs(a: seq<nat>, b: seq<nat>) returns (d: seq<nat>)
    requires AreLimbs(a) && AreLimbs(b) && LimbsValue(b) - LimbsValue(a) <= L
    ensures AreLimbs(d) && LimbsValue(d) == Sub(LimbsValue(a), LimbsValue(b))
  {
    LimbsRange(a);
    LimbsRange(b);
    var difference, negative := BorrowingSub(a, b);
    LimbsRange(difference);
    ghost var top: nat;
    d, top := CarryingAdd(difference, Addend(negative));
    LimbsRange(d);
    SumWraps(LimbsValue(a), LimbsValue(b), negative, LimbsValue(difference), LimbsValue(d), top);
  }

  /** a + b, less l unless that is negative. */
  method AddLimbs(a: seq<nat>, b: seq<nat>) returns (d: seq<nat>)
    requires AreLimbs(a) && AreLimbs(b) && LimbsValue(a) + LimbsValue(b) < RADIX
    ensures AreLimbs(d) && LimbsValue(d) == Sub(LimbsValue(a) + LimbsValue(b), L)
  {
    var sum, top := CarryingAdd(a, b);
    LimbsRange(a);
    LimbsRange(b);
    LimbsRange(sum);
    ModulusLimbs();
    d := SubLimbs(sum, L_LIMBS);
  }

  // Montgomery reduction.

  function Steps(c: seq<nat>, k: nat): (d: seq<nat>)
    requires |c| >= 4 + k
    ensures |d| == |c| - k
  {
    if k == 0 then c else StepColumns(Steps(c, k - 1))
  }

  lemma {:induction false} StepsValue(c: seq<nat>, k: nat)
    requires |c| >= 4 + k
    ensures LimbsValue(c) >= 0 && LimbsValue(Steps(c, k)) == ReduceLimbs(LimbsValue(c), k)
  {
    ValueNonNegative(c, |c|);
    if k > 0 {
      StepsValue(c, k - 1);
      StepValue(Steps(c, k - 1));
    }
  }

  /** The factor for a column, and what the cleared column carries. The sum does not overflow 128 bits. */
  method Part1(sum: nat) returns (carry: nat, n: nat)
    requires sum <= 10 * (LIMB * LIMB)
    ensures sum + n * L0 < TWO_128 && n < LIMB
    ensures n == FactorOf(sum) && carry == (sum + n * L0) / LIMB <= 11 * LIMB
  {
    n := (((sum % TWO_64) * LFACTOR) % TWO_64) % LIMB;
    FactorIsExact(sum);
    carry := (sum + n * L0) / LIMB;
  }

  lemma NextColumns(z: seq<nat>, k: nat, c: seq<nat>, carry: nat, n: nat)
    requires |z| >= 5 + k && Steps(z, k) == c && n == FactorOf(c[0]) && carry == (c[0] + n * L0) / LIMB
    ensures Steps(z, k + 1) == [carry + c[1] + n * L1, c[2] + n * L2, c[3], c[4] + n * L4] + c[5..]
  {}

  /** The first three factors, and the columns that remain, with the carry into the lowest of them. */
  method FirstMultiples(z: seq<nat>) returns (carry: nat, n0: nat, n1: nat, n2: nat)
    requires AreColumns(z)
    ensures n0 < LIMB && n1 < LIMB && n2 < LIMB && carry <= 11 * LIMB
    ensures Steps(z, 3) == [carry + z[3] + n1 * L2 + n2 * L1, z[4] + n0 * L4 + n2 * L2, z[5] + n1 * L4,
                            z[6] + n2 * L4, z[7], z[8]]
  {
    carry, n0 := Part1(z[0]);
    NextColumns(z, 0, z, carry, n0);
    var s1 := carry + z[1] + n0 * L1;
    ghost var c1: seq<nat> := [s1, z[2] + n0 * L2, z[3], z[4] + n0 * L4, z[5], z[6], z[7], z[8]];
    assert Steps(z, 1) == c1;
    carry, n1 := Part1(s1);
    NextColumns(z, 1, c1, carry, n1);
    var s2 := carry + z[2] + n0 * L2 + n1 * L1;
    ghost var c2: seq<nat> := [s2, z[3] + n1 * L2, z[4] + n0 * L4, z[5] + n1 * L4, z[6], z[7], z[8]];
    assert Steps(z, 2) == c2;
    carry, n2 := Part1(s2);
    NextColumns(z, 2, c2, carry, n2);
  }

  /** The fourth factor, and the columns that remain, with the carry into the lowest of them. */
  method FourthMultiple(z: seq<nat>, carry: nat, n0: nat, n1: nat, n2: nat) returns (carry': nat, n3: nat)
    requires AreColumns(z) && n0 < LIMB && n1 < LIMB && n2 < LIMB && carry <= 11 * LIMB
    requires Steps(z, 3) == [carry + z[3] + n1 * L2 + n2 * L1, z[4] + n0 * L4 + n2 * L2, z[5] + n1 * L4,
                             z[6] + n2 * L4, z[7], z[8]]
    ensures n3 < LIMB && carry' <= 11 * LIMB
    ensures Steps(z, 4) == [carry' + z[4] + n0 * L4 + n2 * L2 + n3 * L1, z[5] + n1 * L4 + n3 * L2, z[6] + n2 * L4,
                            z[7] + n3 * L4, z[8]]
  {
    var s3 := carry + z[3] + n1 * L2 + n2 * L1;
    ghost var c3: seq<nat> := [s3, z[4] + n0 * L4 + n2 * L2, z[5] + n1 * L4, z[6] + n2 * L4, z[7], z[8]];
    carry', n3 := Part1(s3);
    NextColumns(z, 3, c3, carry', n3);
  }

  /** The five factors, and the columns that remain, with the carry into the lowest of them. */
  method AddMultiples(z: seq<nat>) returns (carry: nat, n0: nat, n1: nat, n2: nat, n3: nat, n4: nat)
    requires AreColumns(z)
    ensures n0 < LIMB && n1 < LIMB && n2 < LIMB && n3 < LIMB && n4 < LIMB && carry <= 11 * LIMB
    ensures Steps(z, 5) == [carry + z[5] + n1 * L4 + n3 * L2 + n4 * L1, z[6] + n2 * L4 + n4 * L2,
                            z[7] + n3 * L4, z[8] + n4 * L4]
  {
    carry, n0, n1, n2 := FirstMultiples(z);
    carry, n3 := FourthMultiple(z, carry, n0, n1, n2);
    var s4 := carry + z[4] + n0 * L4 + n2 * L2 + n3 * L1;
    ghost var c4: seq<nat> := [s4, z[5] + n1 * L4 + n3 * L2, z[6] + n2 * L4, z[7] + n3 * L4, z[8]];
    carry, n4 := Part1(s4);
    NextColumns(z, 4, c4, carry, n4);
  }

  method Part2(sum: nat) returns (carry: nat, w: nat)
    requires sum < TWO_128
    ensures sum == carry * LIMB + w && w < LIMB
  {
    carry, w := sum / LIMB, (sum % TWO_64) % LIMB;
  }

  /** Five limbs of what four columns are worth. */
  lemma CarriedValue(c: seq<int>, r: seq<int>, k0: int, k1: int, k2: int)
    requires |c| == 4 && |r| == 5 && c[0] == k0 * LIMB + r[0] && k0 + c[1] == k1 * LIMB + r[1]
    requires k1 + c[2] == k2 * LIMB + r[2] && k2 + c[3] == r[4] * LIMB + r[3]
    ensures LimbsValue(r) == LimbsValue(c)
  {
    FiveLimbsValue(r);
    FourColumns(c, 0);
    assert c[4..] == [];
  }

  /** The quotient, before the last subtraction, fits five limbs. */
  lemma QuotientFits(t: nat, r: seq<nat>)
    requires t < RADIX * L && |r| == 5 && forall i :: 0 <= i < 4 ==> r[i] < LIMB
    requires LimbsValue(r) == ReduceLimbs(t, 5)
    ensures AreLimbs(r)
  {
    LimbsReduced(t, 5);
    ScalarArithmetic.FiveLimbs(LIMB);
    var n: nat :| n < RADIX && LimbsValue(r) * RADIX == t + n * L;
    QuotientBound(t, LimbsValue(r), n, RADIX, L);
    FiveLimbsValue(r);
  }

  /** The second half: the columns that remain become limbs. */
  method CarryColumns(c: seq<nat>) returns (r: seq<nat>)
    requires |c| == 4 && forall i :: 0 <= i < 4 ==> c[i] <= 20 * (LIMB * LIMB)
    ensures |r| == 5 && (forall i :: 0 <= i < 4 ==> r[i] < LIMB) && LimbsValue(r) == LimbsValue(c)
  {
    var k0, r0 := Part2(c[0]);
    var k1, r1 := Part2(k0 + c[1]);
    var k2, r2 := Part2(k1 + c[2]);
    var k3, r3 := Part2(k2 + c[3]);
    r := [r0, r1, r2, r3, k3 % TWO_64];
    CarriedValue(c, r, k0, k1, k2);
  }

  /** The quotient of a value of columns by the radix, modulo l. */
  method MontgomeryReduceColumns(z: seq<nat>) returns (r: seq<nat>)
    requires AreColumns(z) && LimbsValue(z) < RADIX * L
    ensures AreLimbs(r) && LimbsValue(z) >= 0 && LimbsValue(r) == MontgomeryReduce(LimbsValue(z))
  {
    StepsValue(z, 5);
    var carry, n0, n1, n2, n3, n4 := AddMultiples(z);
    var limbs := CarryColumns([carry + z[5] + n1 * L4 + n3 * L2 + n4 * L1, z[6] + n2 * L4 + n4 * L2,
                               z[7] + n3 * L4, z[8] + n4 * L4]);
    QuotientFits(LimbsValue(z), limbs);
    ModulusLimbs();
    r := SubLimbs(limbs, L_LIMBS);
  }

  /** The product of two limb arrays, divided by the radix, modulo l. */
  method MontgomeryMulLimbs(a: seq<nat>, b: seq<nat>) returns (r: seq<nat>)
    requires AreLimbs(a) && AreLimbs(b) && LimbsValue(a) * LimbsValue(b) < RADIX * L
    ensures AreLimbs(r) && LimbsValue(a) >= 0 && LimbsValue(b) >= 0
    ensures LimbsValue(r) == MontgomeryMul(LimbsValue(a), LimbsValue(b))
  {
    LimbsRange(a);
    LimbsRange(b);
    MulInternalFits(a, b);
    MulInternalValue(a, b);
    r := MontgomeryReduceColumns(MulInternal(a, b));
  }

  lemma RRLimbs()
    ensures AreLimbs(RR_LIMBS) && LimbsValue(RR_LIMBS) == RR
  {
    FiveLimbsValue(RR_LIMBS);
  }

  /** The product of two scalars that need not be reduced. */
  method MultiplyLimbs(a: seq<nat>, b: seq<nat>) returns (r: seq<nat>)
    requires AreLimbs(a) && AreLimbs(b) && 0 <= LimbsValue(a) < SCALAR_BOUND && 0 <= LimbsValue(b) < SCALAR_BOUND
    ensures AreLimbs(r) && LimbsValue(r) == MultiplyScalars(LimbsValue(a), LimbsValue(b))
  {
    ScalarProductBound(LimbsValue(a), LimbsValue(b));
    MontgomeryReduceContract(LimbsValue(a) * LimbsValue(b));
    var ab := MontgomeryMulLimbs(a, b);
    RRLimbs();
    LimbsRange(ab);
    Monotone(LimbsValue(ab), L, RR);
    r := MontgomeryMulLimbs(ab, RR_LIMBS);
  }

  // Unpacking.

  /** The 52 bits of x from a position on, out of the words that hold them. */
  function UnpackedLimb(x: nat, i: nat): nat
    requires i < 5
  {
    var mask := LIMB;
    if i == 0 then WordAt(x, 0) % mask
    else if i == 1 then BitOr(ShiftRight(WordAt(x, 0), 52), ShiftLeft64(WordAt(x, 1), 12)) % mask
    else if i == 2 then BitOr(ShiftRight(WordAt(x, 1), 40), ShiftLeft64(WordAt(x, 2), 24)) % mask
    else if i == 3 then BitOr(ShiftRight(WordAt(x, 2), 28), ShiftLeft64(WordAt(x, 3), 36)) % mask
    else ShiftRight(WordAt(x, 3), 16) % 0x1_0000_0000_0000
  }

  lemma StraddlingLimb(x: nat, u: nat, b: nat)
    requires 0 < b < 64
    ensures BitOr(ShiftRight(WordAt(x, u), b), ShiftLeft64(WordAt(x, u + 1), 64 - b)) % LIMB
         == ShiftRight(x, 64 * u + b) % LIMB
  {
    LimbSize(52);
    WordsDisjoint(x, u, b);
    OrOfDisjoint(ShiftRight(WordAt(x, u), b), ShiftLeft64(WordAt(x, u + 1), 64 - b), 64 - b);
    WordsOfWindow(x, u, b, 52);
  }

  lemma TopLimbSize(n: nat)
    requires n == 48
    ensures TwoTo(n) == 0x1_0000_0000_0000
  {
    LimbSize(n + 4);
    TwoToAdd(n, 4);
    assert TwoTo(4) == 16;
  }

  lemma TopBits(x: nat, w: nat, pos: nat)
    requires w == 48 && pos == 208 && x < 2 * SCALAR_BOUND
    ensures ShiftRight(x, pos) < 0x1_0000_0000_0000
  {
    TopLimbSize(w);
    ScalarSize(pos + w - 1);
    ShiftBound(x, pos, w);
  }

  /** The last limb holds the 48 highest bits. */
  lemma TopLimb(x: nat, u: nat, b: nat, w: nat)
    requires u == 3 && b == 16 && w == 48 && x < 2 * SCALAR_BOUND
    ensures ShiftRight(WordAt(x, u), b) % 0x1_0000_0000_0000 == ShiftRight(x, 64 * u + b) % LIMB
  {
    TopLimbSize(w);
    WordOfWindow(x, u, b, w);
    TopBits(x, w, 64 * u + b);
  }

  lemma UnpackedLimbIs(x: nat, i: nat)
    requires i < 5 && x < 2 * SCALAR_BOUND
    ensures UnpackedLimb(x, i) == ShiftRight(x, 52 * i) % LIMB
  {
    if i == 0 {
      LimbSize(52);
      WordOfWindow(x, 0, i, 52);
    } else if i == 4 {
      TopLimb(x, 3, 16, 48);
    } else {
      StraddlingLimb(x, i - 1, 64 - 12 * i);
    }
  }

  lemma UnpackedValue(x: nat, s: seq<int>)
    requires x < 2 * SCALAR_BOUND && |s| == 5 && forall i: nat :: i < 5 ==> s[i] == UnpackedLimb(x, i)
    ensures AreLimbs(s) && LimbsValue(s) == x
  {
    forall i: nat | i < 5
      ensures s[i] == ShiftRight(x, 52 * i) % LIMB
    {
      UnpackedLimbIs(x, i);
    }
    LimbSize(52);
    PlainDigits(s, x, 52, 5);
    RadixSize(|s|);
  }

  method UnpackLimbs(x: nat) returns (s: seq<nat>)
    requires x < 2 * SCALAR_BOUND
    ensures AreLimbs(s) && LimbsValue(s) == x
  {
    s := [UnpackedLimb(x, 0), UnpackedLimb(x, 1), UnpackedLimb(x, 2), UnpackedLimb(x, 3), UnpackedLimb(x, 4)];
    UnpackedValue(x, s);
  }
}
