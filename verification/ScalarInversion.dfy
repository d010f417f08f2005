/** Inversion of scalars: by an addition chain in Montgomery form, and of many scalars at once. */
module ScalarInversion {
  import opened Congruence
  import opened Primes
  import opened Recoding
  import opened ScalarArithmetic

  /** y is a^e in Montgomery form. */
  ghost predicate IsPower(y: nat, a: int, e: nat) {
    y < L && Cong(L, y, Pow(a, e) * RADIX)
  }

  /** y is a in Montgomery form. */
  predicate IsForm(y: nat, a: int) {
    y < L && Cong(L, y, a * RADIX)
  }

  lemma FormProduct(c: int, r: int)
    ensures c * (r * r) == (c * r) * r
  {}

  lemma MulForms(y: nat, a: int, z: nat, b: int)
    requires IsForm(y, a) && IsForm(z, b)
    ensures IsForm(MontgomeryMul(y, z), a * b)
  {
    TimesConstant(y, z);
    MontgomeryReduceContract(y * z);
    Mul(L, y, a * RADIX, z, b * RADIX);
    Interchange(a, RADIX, b, RADIX);
    FormProduct(a * b, RADIX);
    CancelRadix(MontgomeryMul(y, z), (a * b) * RADIX);
  }

  lemma MulPowers(y: nat, z: nat, a: int, e: nat, f: nat)
    requires IsPower(y, a, e) && IsPower(z, a, f)
    ensures IsPower(MontgomeryMul(y, z), a, e + f)
  {
    MulForms(y, Pow(a, e), z, Pow(a, f));
    PowAdd(a, e, f);
  }

  method MultiplyPowers(y: nat, z: nat, ghost a: int, ghost e: nat, ghost f: nat) returns (r: nat)
    requires IsPower(y, a, e) && IsPower(z, a, f)
    ensures IsPower(r, a, e + f)
  {
    MulPowers(y, z, a, e, f);
    r := MontgomeryMul(y, z);
  }

  lemma DoubledExponent(e: nat, i: nat)
    ensures 0 <= e * TwoTo(i) && e * TwoTo(i) + e * TwoTo(i) == e * TwoTo(i + 1)
  {}

  /** Squarings, then a product. */
  method SquareMultiply(y: nat, squarings: nat, x: nat, ghost a: int, ghost e: nat, ghost f: nat, ghost g: nat)
    returns (y': nat)
    requires IsPower(y, a, e) && IsPower(x, a, f) && g == e * TwoTo(squarings) + f
    ensures IsPower(y', a, g)
  {
    y' := y;
    for i := 0 to squarings
      invariant IsPower(y', a, e * TwoTo(i))
    {
      DoubledExponent(e, i);
      y' := MultiplyPowers(y', y', a, e * TwoTo(i), e * TwoTo(i));
    }
    y' := MultiplyPowers(y', x, a, e * TwoTo(squarings), f);
  }

  lemma PowerOf126(n: nat)
    requires n == 126
    ensures TwoTo(n) == 0x40000000000000000000000000000000
  {
    assert TwoTo(7) == 128;
    var k := n / 18;
    TwoToAdd(k, k);
    TwoToAdd(2 * k, k);
    TwoToAdd(3 * k, 3 * k);
    TwoToAdd(6 * k, 6 * k);
    TwoToAdd(12 * k, 6 * k);
  }

  method ChainStart(y: nat, x3: nat, x5: nat, x7: nat, x9: nat, x15: nat, ghost a: int) returns (y': nat)
    requires IsPower(y, a, 0x10) && IsPower(x3, a, 3) && IsPower(x5, a, 5) && IsPower(x7, a, 7) && IsPower(x9, a, 9)
             && IsPower(x15, a, 15)
    ensures IsPower(y', a, 0x1000000000000000000000000000000014def9dea2f)
  {
    y' := y;
    PowerOf126(126);
    y' := SquareMultiply(y', 123 + 3, x5, a, 0x10, 5, 0x400000000000000000000000000000005);
    y' := SquareMultiply(y', 2 + 2, x3, a, 0x400000000000000000000000000000005, 3,
        0x4000000000000000000000000000000053);
    y' := SquareMultiply(y', 1 + 4, x15, a, 0x4000000000000000000000000000000053, 15,
        0x80000000000000000000000000000000a6f);
    y' := SquareMultiply(y', 1 + 4, x15, a, 0x80000000000000000000000000000000a6f, 15,
        0x1000000000000000000000000000000014def);
    y' := SquareMultiply(y', 4, x9, a, 0x1000000000000000000000000000000014def, 9,
        0x1000000000000000000000000000000014def9);
    y' := SquareMultiply(y', 2, x3, a, 0x1000000000000000000000000000000014def9, 3,
        0x40000000000000000000000000000000537be7);
    y' := SquareMultiply(y', 1 + 4, x15, a, 0x40000000000000000000000000000000537be7, 15,
        0x80000000000000000000000000000000a6f7cef);
    y' := SquareMultiply(y', 1 + 3, x5, a, 0x80000000000000000000000000000000a6f7cef, 5,
        0x80000000000000000000000000000000a6f7cef5);
    y' := SquareMultiply(y', 3 + 3, x5, a, 0x80000000000000000000000000000000a6f7cef5, 5,
        0x2000000000000000000000000000000029bdf3bd45);
    y' := SquareMultiply(y', 3, x7, a, 0x2000000000000000000000000000000029bdf3bd45, 7,
        0x1000000000000000000000000000000014def9dea2f);
  }

  method ChainMiddle(y: nat, x3: nat, x7: nat, x9: nat, x11: nat, x15: nat, ghost a: int) returns (y': nat)
    requires IsPower(y, a, 0x1000000000000000000000000000000014def9dea2f) && IsPower(x3, a, 3) && IsPower(x7, a, 7)
             && IsPower(x9, a, 9) && IsPower(x11, a, 11) && IsPower(x15, a, 15)
    ensures IsPower(y', a, 0x2000000000000000000000000000000029bdf3bd45ef39acb024c63)
  {
    y' := y;
    y' := SquareMultiply(y', 1 + 4, x15, a, 0x1000000000000000000000000000000014def9dea2f, 15,
        0x2000000000000000000000000000000029bdf3bd45ef);
    y' := SquareMultiply(y', 2 + 3, x7, a, 0x2000000000000000000000000000000029bdf3bd45ef, 7,
        0x40000000000000000000000000000000537be77a8bde7);
    y' := SquareMultiply(y', 2 + 2, x3, a, 0x40000000000000000000000000000000537be77a8bde7, 3,
        0x40000000000000000000000000000000537be77a8bde73);
    y' := SquareMultiply(y', 1 + 4, x11, a, 0x40000000000000000000000000000000537be77a8bde73, 11,
        0x80000000000000000000000000000000a6f7cef517bce6b);
    y' := SquareMultiply(y', 2 + 4, x11, a, 0x80000000000000000000000000000000a6f7cef517bce6b, 11,
        0x2000000000000000000000000000000029bdf3bd45ef39acb);
    y' := SquareMultiply(y', 6 + 4, x9, a, 0x2000000000000000000000000000000029bdf3bd45ef39acb, 9,
        0x80000000000000000000000000000000a6f7cef517bce6b2c09);
    y' := SquareMultiply(y', 2 + 2, x3, a, 0x80000000000000000000000000000000a6f7cef517bce6b2c09, 3,
        0x80000000000000000000000000000000a6f7cef517bce6b2c093);
    y' := SquareMultiply(y', 3 + 2, x3, a, 0x80000000000000000000000000000000a6f7cef517bce6b2c093, 3,
        0x1000000000000000000000000000000014def9dea2f79cd6581263);
    y' := SquareMultiply(y', 3 + 2, x3, a, 0x1000000000000000000000000000000014def9dea2f79cd6581263, 3,
        0x2000000000000000000000000000000029bdf3bd45ef39acb024c63);
  }

  method ChainEnd(y: nat, x3: nat, x5: nat, x7: nat, x9: nat, x11: nat, x15: nat, ghost a: int) returns (y': nat)
    requires IsPower(y, a, 0x2000000000000000000000000000000029bdf3bd45ef39acb024c63) && IsPower(x3, a, 3)
             && IsPower(x5, a, 5) && IsPower(x7, a, 7) && IsPower(x9, a, 9) && IsPower(x11, a, 11)
                 && IsPower(x15, a, 15)
    ensures IsPower(y', a, 0x1000000000000000000000000000000014def9dea2f79cd65812631a5cf5d3eb)
  {
    y' := y;
    y' := SquareMultiply(y', 1 + 4, x9, a, 0x2000000000000000000000000000000029bdf3bd45ef39acb024c63, 9,
        0x40000000000000000000000000000000537be77a8bde735960498c69);
    y' := SquareMultiply(y', 1 + 3, x7, a, 0x40000000000000000000000000000000537be77a8bde735960498c69, 7,
        0x40000000000000000000000000000000537be77a8bde735960498c697);
    y' := SquareMultiply(y', 2 + 4, x15, a, 0x40000000000000000000000000000000537be77a8bde735960498c697, 15,
        0x1000000000000000000000000000000014def9dea2f79cd65812631a5cf);
    y' := SquareMultiply(y', 1 + 4, x11, a, 0x1000000000000000000000000000000014def9dea2f79cd65812631a5cf, 11,
        0x2000000000000000000000000000000029bdf3bd45ef39acb024c634b9eb);
    y' := SquareMultiply(y', 3, x5, a, 0x2000000000000000000000000000000029bdf3bd45ef39acb024c634b9eb, 5,
        0x1000000000000000000000000000000014def9dea2f79cd65812631a5cf5d);
    y' := SquareMultiply(y', 2 + 4, x15, a, 0x1000000000000000000000000000000014def9dea2f79cd65812631a5cf5d, 15,
        0x40000000000000000000000000000000537be77a8bde735960498c6973d74f);
    y' := SquareMultiply(y', 3, x5, a, 0x40000000000000000000000000000000537be77a8bde735960498c6973d74f, 5,
        0x2000000000000000000000000000000029bdf3bd45ef39acb024c634b9eba7d);
    y' := SquareMultiply(y', 1 + 2, x3, a, 0x2000000000000000000000000000000029bdf3bd45ef39acb024c634b9eba7d, 3,
        0x1000000000000000000000000000000014def9dea2f79cd65812631a5cf5d3eb);
  }

  /** The inverse in Montgomery form, as the power with exponent l - 2. */
  method MontgomeryInvert(x1: nat, ghost a: int) returns (y: nat)
    requires IsPower(x1, a, 1)
    ensures IsPower(y, a, L - 2)
  {
    var x2 := MultiplyPowers(x1, x1, a, 1, 1);
    var x4 := MultiplyPowers(x2, x2, a, 2, 2);
    var x3 := MultiplyPowers(x2, x1, a, 2, 1);
    var x5 := MultiplyPowers(x2, x3, a, 2, 3);
    var x7 := MultiplyPowers(x2, x5, a, 2, 5);
    var x9 := MultiplyPowers(x2, x7, a, 2, 7);
    var x11 := MultiplyPowers(x2, x9, a, 2, 9);
    var x15 := MultiplyPowers(x4, x11, a, 4, 11);
    y := MultiplyPowers(x15, x1, a, 15, 1);
    y := ChainStart(y, x3, x5, x7, x9, x15, a);
    y := ChainMiddle(y, x3, x7, x9, x11, x15, a);
    y := ChainEnd(y, x3, x5, x7, x9, x11, x15, a);
  }

  /** The canonical inverse modulo l, and 0 for multiples of l. */
  ghost predicate IsInverse(r: nat, a: int) {
    r < L && if Cong(L, a, 0) then r == 0 else Cong(L, r * a, 1)
  }

  lemma CommonInverse(m: int, r: int, s: int, a: int)
    requires m > 0 && Cong(m, r * a, 1) && Cong(m, s * a, 1)
    ensures Cong(m, r, s)
  {
    Mul(m, r * a, 1, s, s);
    Mul(m, s * a, 1, r, r);
    assert (r * a) * s == (s * a) * r;
  }

  lemma InverseIsUnique(r: nat, s: nat, a: int)
    requires IsInverse(r, a) && IsInverse(s, a)
    ensures r == s
  {
    if !Cong(L, a, 0) {
      CommonInverse(L, r, s, a);
      SmallRemainder(L, r);
      SmallRemainder(L, s);
    }
  }

  lemma FermatInverse(r: nat, a: int)
    requires IsPrime(L) && r < L && Cong(L, r, Pow(a, L - 2))
    ensures IsInverse(r, a)
  {
    Mul(L, r, Pow(a, L - 2), a, a);
    assert Pow(a, L - 1) == a * Pow(a, L - 2);
    if Cong(L, a, 0) {
      assert Pow(a, L - 2) == a * Pow(a, L - 3);
      Mul(L, a, 0, Pow(a, L - 3), Pow(a, L - 3));
      CanonicalResidue(r, 0);
    } else {
      Fermat(L, a);
    }
  }

  /** Takes a value out of Montgomery form. */
  lemma FromForm(y: nat, a: int)
    requires IsForm(y, a)
    ensures FromMontgomeryForm(y) < L && Cong(L, FromMontgomeryForm(y), a)
  {
    MontgomeryReduceContract(y);
    CancelRadix(FromMontgomeryForm(y), a);
  }

  /** The inverse of a scalar. */
  method InvertScalar(x: Scalar) returns (r: nat)
    requires IsPrime(L)
    ensures IsInverse(r, x)
  {
    var m := ToMontgomeryForm(x);
    ToMontgomeryFormContract(x);
    assert Pow(x, 1) == x;
    var y := MontgomeryInvert(m, x);
    FromForm(y, Pow(x, L - 2));
    r := FromMontgomeryForm(y);
    FermatInverse(r, x);
  }
}
