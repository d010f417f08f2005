/** Arithmetic of scalars modulo the order l of the base point, through Montgomery reduction. */
module ScalarArithmetic {
  import opened Congruence
  import opened Options
  import opened Edwards
  import opened Recoding

  const L: int := 0x1000000000000000000000000000000014def9dea2f79cd65812631a5cf5d3ed
  const LFACTOR: int := 0x51da312547e1b
  const R: int := 0xfffffffffffffffffffffffffffffeb35e51b3bab5ac67e45af48bd6721e6ed
  const RR: int := 0x9411b7c309a3dceec73d217f5be65cb687604d63c715bea69f9d265e952d13b

  /** The size of a limb, and the Montgomery radix of five limbs. */
  const LIMB: int := 0x10000000000000
  const RADIX: int := 0x100000000000000000000000000000000000000000000000000000000000000000

  /** An inverse of the radix modulo l. */
  const RADIX_INVERSE: int := 5706410653605570882457795059301885719620630590890452783038400561109479083972

  /**
    Adds the multiple of l that clears the lowest limb, and drops that limb. The counter is as in
    Congruence.RemainderAt.
  */
  function ReduceLimbAt(t: nat, k: nat): nat
    decreases t, k
  {
    if k > 0 then ReduceLimbAt(t, k - 1)
    else
      var n := ((t % LIMB) * LFACTOR) % LIMB;
      (t + n * L) / LIMB
  }

  function ReduceLimb(t: nat): nat {
    ReduceLimbAt(t, 3)
  }

  lemma ReduceLimbIs(t: nat)
    ensures ReduceLimb(t) == (t + (((t % LIMB) * LFACTOR) % LIMB) * L) / LIMB
  {
    assert ReduceLimbAt(t, 1) == ReduceLimbAt(t, 0);
    assert ReduceLimbAt(t, 2) == ReduceLimbAt(t, 1);
  }

  function ReduceLimbs(t: nat, k: nat): nat {
    if k == 0 then t else ReduceLimb(ReduceLimbs(t, k - 1))
  }

  /** a - b, with l added if that is negative. */
  function Sub(a: int, b: int): int {
    if a < b then a - b + L else a - b
  }

  function MontgomeryReduce(t: nat): nat {
    Sub(ReduceLimbs(t, 5), L)
  }

  function MontgomeryMul(a: nat, b: nat): nat {
    MontgomeryReduce(a * b)
  }

  function ToMontgomeryForm(a: nat): nat {
    MontgomeryMul(a, RR)
  }

  function FromMontgomeryForm(a: nat): nat {
    MontgomeryReduce(a)
  }

  function Reduce(x: Scalar): nat {
    MontgomeryReduce(x * R)
  }

  predicate IsCanonical(x: Scalar) {
    x == Reduce(x)
  }

  function FromBits(c: Bytes32): Scalar {
    if TopBit(c) then c - TOP_BIT else c
  }

  function FromCanonicalBytes(c: Bytes32): Option<Scalar> {
    if TopBit(c) then None
    else if IsCanonical(FromBits(c)) then Some(FromBits(c)) else None
  }

  function MultiplyScalars(a: Scalar, b: Scalar): nat {
    var ab := MontgomeryReduce(a * b);
    MontgomeryReduce(ab * RR)
  }

  function AddScalars(a: Scalar, b: Scalar): nat {
    var sum := Sub(a + b, L);
    MontgomeryReduce(sum * R)
  }

  function NegateScalar(a: Scalar): int {
    Sub(0, Reduce(a))
  }

  /** The two parts of a 512-bit integer, of 260 and 252 bits, are reduced separately. */
  function FromWide(t: nat): nat {
    var lo := MontgomeryMul(t % RADIX, R);
    var hi := MontgomeryMul(t / RADIX, RR);
    Sub(lo + hi, L)
  }

  // Reduction.

  /** The lowest limb is cleared. */
  lemma LimbIsCleared(B: int, l: int, f: int, t: nat)
    requires B > 0 && (l * f + 1) % B == 0
    ensures (t + (((t % B) * f) % B) * l) % B == 0
  {
    var r, n := Remainder(B, t), Remainder(B, Remainder(B, t) * f);
    Residue(B, t);
    Residue(B, r * f);
    Mul(B, r, t, f, f);
    Mul(B, n, t * f, l, l);
    Add(B, t, t, n * l, (t * f) * l);
    assert t + (t * f) * l == t * (l * f + 1);
    CongIs(B, l * f + 1, 0);
    Combine(B, t, l * f + 1, 0, 0);
    CongIs(B, t + n * l, 0);
  }

  lemma ExactQuotient(s: nat, b: nat)
    requires b > 0 && s % b == 0
    ensures (s / b) * b == s
  {}

  lemma ReduceLimbExact(t: nat)
    ensures exists n: nat :: n < LIMB && ReduceLimb(t) * LIMB == t + n * L
  {
    LimbIsCleared(LIMB, L, LFACTOR, t);
    ReduceLimbIs(t);
    var n := ((t % LIMB) * LFACTOR) % LIMB;
    var s := t + n * L;
    ExactQuotient(s, LIMB);
    assert ReduceLimb(t) * LIMB == t + n * L;
  }

  /** After k limbs, t has become (t + N l) / 2^(52 k) for some N < 2^(52 k). */
  ghost predicate PartlyReduced(t: nat, r: nat, b: int) {
    exists n: nat :: n < b && r * b == t + n * L
  }

  lemma NextMultiple(t: nat, r: nat, r': nat, b: nat, B: nat, n: nat, m: nat, l: nat)
    requires n < b && m < B && r * b == t + n * l && r' * B == r + m * l
    ensures r' * (b * B) == t + (n + m * b) * l && 0 <= n + m * b < b * B
  {
    assert r' * (b * B) == (r' * B) * b;
    assert (r + m * l) * b == r * b + (m * b) * l;
    assert m * b <= (B - 1) * b;
    assert (B - 1) * b == b * B - b;
  }

  lemma ReduceNextLimb(t: nat, r: nat, b: int)
    requires PartlyReduced(t, r, b)
    ensures PartlyReduced(t, ReduceLimb(r), b * LIMB)
  {
    var n: nat :| n < b && r * b == t + n * L;
    ReduceLimbExact(r);
    var m: nat :| m < LIMB && ReduceLimb(r) * LIMB == r + m * L;
    NextMultiple(t, r, ReduceLimb(r), b, LIMB, n, m, L);
    assert n + m * b < b * LIMB;
  }

  lemma {:induction false} LimbsReduced(t: nat, k: nat)
    ensures PartlyReduced(t, ReduceLimbs(t, k), Pow(LIMB, k))
  {
    if k == 0 {
      var n := 0;
      assert n < 1 && t * 1 == t + n * L;
    } else {
      LimbsReduced(t, k - 1);
      ReduceNextLimb(t, ReduceLimbs(t, k - 1), Pow(LIMB, k - 1));
    }
  }

  lemma FiveLimbs(b: int)
    requires b == LIMB
    ensures Pow(b, 5) == RADIX
  {
    assert Pow(b, 2) == b * b;
    PowAdd(b, 2, 2);
    PowAdd(b, 4, 1);
    assert Pow(b, 1) == b;
  }

  lemma QuotientBound(t: nat, r: nat, n: nat, b: nat, l: nat)
    requires n < b && r * b == t + n * l
    ensures t < b * l ==> r < 2 * l
  {
    assert n * l <= b * l;
    assert (2 * l) * b == b * l + b * l;
    assert r >= 2 * l ==> r * b >= (2 * l) * b;
  }

  lemma ReducedIsQuotient(t: nat, r: nat, n: nat, b: nat, l: nat)
    requires l > 0 && n < b && r * b == t + n * l
    ensures var s := if r < l then r - l + l else r - l;
            Cong(l, s * b, t) && (t < b * l ==> s < l)
  {
    MultipleIsZero(l, n);
    Add(l, t, t, n * l, 0);
    MultipleIsZero(l, b);
    Add(l, r * b, t, b * l, 0);
    assert (r - l) * b == r * b - b * l;
    QuotientBound(t, r, n, b, l);
  }

  /**
    Reduction divides by the radix modulo l, and its result is canonical for every product that the program
    reduces.
  */
  lemma MontgomeryReduceContract(t: nat)
    ensures Cong(L, MontgomeryReduce(t) * RADIX, t)
    ensures t < RADIX * L ==> MontgomeryReduce(t) < L
  {
    LimbsReduced(t, 5);
    FiveLimbs(LIMB);
    var r := ReduceLimbs(t, 5);
    var n: nat :| n < RADIX && r * RADIX == t + n * L;
    ReducedIsQuotient(t, r, n, RADIX, L);
  }

  lemma RadixInverse()
    ensures Cong(L, RADIX * RADIX_INVERSE, 1) && Cong(L, R, RADIX) && Cong(L, RR, RADIX * RADIX)
  {
    CongIs(L, RADIX * RADIX_INVERSE, 1);
    CongIs(L, R, RADIX);
    CongIs(L, RR, RADIX * RADIX);
  }

  lemma CancelByInverse(m: int, a: int, b: int, r: int, i: int)
    requires m > 0 && Cong(m, r * i, 1) && Cong(m, (a * r) * i, (b * r) * i)
    ensures Cong(m, a, b)
  {
    Mul(m, a, a, r * i, 1);
    Mul(m, b, b, r * i, 1);
    assert (a * r) * i == a * (r * i) && (b * r) * i == b * (r * i);
  }

  /** The radix can be cancelled. */
  lemma CancelRadix(a: int, b: int)
    requires Cong(L, a * RADIX, b * RADIX)
    ensures Cong(L, a, b)
  {
    RadixInverse();
    Mul(L, a * RADIX, b * RADIX, RADIX_INVERSE, RADIX_INVERSE);
    CancelByInverse(L, a, b, RADIX, RADIX_INVERSE);
  }

  lemma CanonicalResidue(a: nat, b: int)
    requires a < L && Cong(L, a, b)
    ensures a == Remainder(L, b)
  {
    SmallRemainder(L, a);
  }

  lemma ProductBound(x: nat, y: nat, a: nat, b: nat)
    requires x < a && y < b
    ensures 0 <= x * y < a * b
  {
    var i, j := a - x, b - y;
    assert a * b == x * y + x * j + i * y + i * j;
    assert x * j >= 0 && i * y >= 0 && i * j > 0;
  }

  lemma TimesConstant(x: nat, c: nat)
    requires x < RADIX && c < L
    ensures 0 <= x * c < RADIX * L
  {
    ProductBound(x, c, RADIX, L);
  }

  /** Reduction of x R gives x modulo l. */
  lemma ReduceTimesR(x: nat)
    requires x < RADIX
    ensures MontgomeryReduce(x * R) == Remainder(L, x)
  {
    RadixInverse();
    TimesConstant(x, R);
    MontgomeryReduceContract(x * R);
    Mul(L, x, x, R, RADIX);
    CancelRadix(MontgomeryReduce(x * R), x);
    CanonicalResidue(MontgomeryReduce(x * R), x);
  }

  /** Conversion to Montgomery form multiplies by the radix. */
  lemma ToMontgomeryFormContract(x: nat)
    requires x < RADIX
    ensures ToMontgomeryForm(x) < L && Cong(L, ToMontgomeryForm(x), x * RADIX)
  {
    RadixInverse();
    TimesConstant(x, RR);
    MontgomeryReduceContract(x * RR);
    Mul(L, x, x, RR, RADIX * RADIX);
    assert x * (RADIX * RADIX) == (x * RADIX) * RADIX;
    CancelRadix(ToMontgomeryForm(x), x * RADIX);
  }

  // The operations on scalars.

  lemma ReduceContract(x: Scalar)
    ensures Reduce(x) == Remainder(L, x)
  {
    ReduceTimesR(x);
  }

  /** A scalar is canonical exactly when it is below l. */
  lemma IsCanonicalContract(x: Scalar)
    ensures IsCanonical(x) <==> x < L
  {
    ReduceContract(x);
    if x < L {
      SmallRemainder(L, x);
    }
  }

  /** A string is accepted exactly when it is an integer below l, and then it is that scalar. */
  lemma FromCanonicalBytesContract(c: Bytes32)
    ensures FromCanonicalBytes(c) == if c < L then Some(c) else None
  {
    IsCanonicalContract(FromBits(c));
    assert !TopBit(c) ==> c < TOP_BIT && FromBits(c) == c;
    assert TopBit(c) ==> c >= TOP_BIT;
  }

  lemma ScalarProductBound(a: Scalar, b: Scalar)
    ensures 0 <= a * b < RADIX * L
  {
    ProductBound(a, b, SCALAR_BOUND, SCALAR_BOUND);
  }

  lemma MultiplyScalarsContract(a: Scalar, b: Scalar)
    ensures MultiplyScalars(a, b) == Remainder(L, a * b)
  {
    ScalarProductBound(a, b);
    var ab := MontgomeryReduce(a * b);
    MontgomeryReduceContract(a * b);
    ToMontgomeryFormContract(ab);
    Difference(L, ab * RADIX, a * b);
    CanonicalResidue(ToMontgomeryForm(ab), a * b);
  }

  lemma SubContract(x: nat)
    ensures Cong(L, Sub(x, L), x)
  {
    MultipleIsZero(L, 1);
    Add(L, x, x, 1 * L, 0);
  }

  lemma AddScalarsContract(a: Scalar, b: Scalar)
    ensures AddScalars(a, b) == Remainder(L, a + b)
  {
    var sum := Sub(a + b, L);
    ReduceTimesR(sum);
    SubContract(a + b);
  }

  lemma NegateModulo(m: int, a: int, r: int)
    requires m > 0 && r == Remainder(m, a)
    ensures var n := if r == 0 then 0 else m - r; 0 <= n < m && Cong(m, n + a, 0)
  {
    Residue(m, a);
    MultipleIsZero(m, 1);
    Add(m, m - r, m - r, r, a);
    Add(m, 0, 0, r, a);
    SmallRemainder(m, 0);
  }

  lemma NegateScalarContract(a: Scalar)
    ensures 0 <= NegateScalar(a) < L && Cong(L, NegateScalar(a) + a, 0)
  {
    ReduceContract(a);
    NegateModulo(L, a, Remainder(L, a));
  }

  lemma WideParts(t: nat, b: nat)
    requires 0 < b && t < b * b
    ensures t == t % b + (t / b) * b && t / b < b && 0 <= t % b < b
  {
    var q := t / b;
    assert q >= b ==> q * b >= b * b;
  }

  /** The scalar of a 512-bit hash. */
  lemma FromWideContract(t: nat)
    requires t < RADIX * RADIX
    ensures FromWide(t) == Remainder(L, t)
  {
    var lo, hi := t % RADIX, t / RADIX;
    WideParts(t, RADIX);
    ReduceTimesR(lo);
    ToMontgomeryFormContract(hi);
    Residue(L, lo);
    Add(L, Remainder(L, lo), lo, ToMontgomeryForm(hi), hi * RADIX);
    SubContract(Remainder(L, lo) + ToMontgomeryForm(hi));
    CanonicalResidue(FromWide(t), t);
  }
}
