/**
  The field of integers modulo p = 2^255 - 19.

  The limb representation of a field element is not canonical, so a field element is an integer here,
  standing for its residue class: sums and products are taken on integers, and an element is
  reduced only where the program reduces it, in comparisons and encodings.
*/
module Field {
  import opened Congruence
  import opened Primes
  import opened SquareRoots

  const P: int := 0x7fffffffffffffffffffffffffffffffffffffffffffffffffffffffffffffed
  const SQRT_M1: int := 0x2b8324804fc1df0b2b4d00993dfbd7a72f431806ad2fe478c4ee1b274a0ea0b0
  const EDWARDS_D: int := 0x52036cee2b6ffe738cc740797779e89800700a4d4141d8ab75eb4dca135978a3

  type FieldElement = int

  predicate Eq(a: FieldElement, b: FieldElement) {
    Cong(P, a, b)
  }

  function ToBytes(a: FieldElement): nat {
    Remainder(P, a)
  }

  predicate IsNegative(a: FieldElement) {
    ToBytes(a) % 2 == 1
  }

  predicate IsZero(a: FieldElement) {
    ToBytes(a) == 0
  }

  function ConditionalNegate(a: FieldElement, choice: bool): FieldElement {
    if choice then -a else a
  }

  function Square(a: FieldElement): FieldElement {
    a * a
  }

  /** k successive squarings. */
  function Pow2k(a: FieldElement, k: nat): FieldElement
    decreases k, a
  {
    if k == 0 then a else Square(Pow2k(a, k - 1))
  }

  /** The shared chain, with a counter as in Congruence.RemainderAt. */
  function Pow22501At(a: FieldElement, k: nat): (FieldElement, FieldElement)
    decreases a, k
  {
    if k > 0 then Pow22501At(a, k - 1)
    else
      var t0 := Square(a);
      var t1 := Square(Square(t0));
      var t2 := a * t1;
      var t3 := t0 * t2;
      var t4 := Square(t3);
      var t5 := t2 * t4;
      var t6 := Pow2k(t5, 5);
      var t7 := t6 * t5;
      var t8 := Pow2k(t7, 10);
      var t9 := t8 * t7;
      var t10 := Pow2k(t9, 20);
      var t11 := t10 * t9;
      var t12 := Pow2k(t11, 10);
      var t13 := t12 * t7;
      var t14 := Pow2k(t13, 50);
      var t15 := t14 * t13;
      var t16 := Pow2k(t15, 100);
      var t17 := t16 * t15;
      var t18 := Pow2k(t17, 50);
      var t19 := t18 * t13;
      (t19, t3)
  }

  function Pow22501(a: FieldElement): (FieldElement, FieldElement) {
    Pow22501At(a, 3)
  }

  function Invert(a: FieldElement): FieldElement {
    var (t19, t3) := Pow22501(a);
    var t20 := Pow2k(t19, 5);
    t20 * t3
  }

  function PowP58(a: FieldElement): FieldElement {
    var (t19, _) := Pow22501(a);
    var t20 := Pow2k(t19, 2);
    a * t20
  }

  /** The square root of a ratio, with a counter as in Congruence.RemainderAt. */
  function SqrtRatioIAt(u: FieldElement, v: FieldElement, k: nat): (bool, FieldElement)
    decreases u, v, k
  {
    if k > 0 then SqrtRatioIAt(u, v, k - 1)
    else
      var v3 := Square(v) * v;
      var v7 := Square(v3) * v;
      var r := (u * v3) * PowP58(u * v7);
      var check := v * Square(r);
      var correctSignSqrt := Eq(check, u);
      var flippedSignSqrt := Eq(check, -u);
      var flippedSignSqrtI := Eq(check, -u * SQRT_M1);
      var r' := if flippedSignSqrt || flippedSignSqrtI then SQRT_M1 * r else r;
      (correctSignSqrt || flippedSignSqrt, ConditionalNegate(r', IsNegative(r')))
  }

  function SqrtRatioI(u: FieldElement, v: FieldElement): (bool, FieldElement) {
    SqrtRatioIAt(u, v, 3)
  }

  function InvSqrt(a: FieldElement): (bool, FieldElement) {
    SqrtRatioI(1, a)
  }

  // The addition chains.

  lemma {:induction false} Pow2kIsPower(a: FieldElement, e: nat, k: nat)
    ensures Pow2k(Pow(a, e), k) == Pow(a, e * TwoTo(k))
  {
    if k > 0 {
      Pow2kIsPower(a, e, k - 1);
      var f := e * TwoTo(k - 1);
      PowAdd(a, f, f);
      assert f + f == e * TwoTo(k);
    }
  }

  /** One link of a chain: k squarings shift the exponent e, and a product adds f to it. */
  lemma ChainLink(a: FieldElement, e: nat, k: nat, f: nat)
    ensures Pow2k(Pow(a, e), k) * Pow(a, f) == Pow(a, e * TwoTo(k) + f)
  {
    Pow2kIsPower(a, e, k);
    PowAdd(a, e * TwoTo(k), f);
  }

  lemma Shifts()
    ensures TwoTo(2) == 4 && TwoTo(5) == 32 && TwoTo(10) == 0x400 && TwoTo(20) == 0x10_0000
    ensures TwoTo(50) == 0x4_0000_0000_0000
  {
    assert TwoTo(5) == 32;
    TwoToAdd(5, 5);
    TwoToAdd(10, 10);
    TwoToAdd(20, 20);
    TwoToAdd(40, 10);
  }

  lemma LongShift()
    ensures TwoTo(100) == 0x10_0000_0000_0000_0000_0000_0000
  {
    Shifts();
    TwoToAdd(50, 50);
  }

  lemma Pow22501Start(a: FieldElement)
    ensures var t0 := Square(a);
            var t2 := a * Square(Square(t0));
            var t3 := t0 * t2;
            t3 == Pow(a, 11) && t2 * Square(t3) == Pow(a, 31)
  {
    assert Pow(a, 1) == a;
    PowAdd(a, 1, 1);
    PowAdd(a, 2, 2);
    PowAdd(a, 4, 4);
    PowAdd(a, 1, 8);
    PowAdd(a, 2, 9);
    PowAdd(a, 11, 11);
    PowAdd(a, 9, 22);
  }

  /** The shared chain computes the powers 2^250 - 1 and 11. */
  lemma Pow22501IsPower(a: FieldElement)
    ensures Pow22501(a) == (Pow(a, 0x3ffffffffffffffffffffffffffffffffffffffffffffffffffffffffffffff), Pow(a, 11))
  {
    assert Pow22501At(a, 1) == Pow22501At(a, 0);
    assert Pow22501At(a, 2) == Pow22501At(a, 1);
    Pow22501Start(a);
    Shifts();
    LongShift();
    ChainLink(a, 31, 5, 31);
    ChainLink(a, 0x3ff, 10, 0x3ff);
    ChainLink(a, 0xfffff, 20, 0xfffff);
    ChainLink(a, 0xffffffffff, 10, 0x3ff);
    ChainLink(a, 0x3ffffffffffff, 50, 0x3ffffffffffff);
    ChainLink(a, 0xfffffffffffffffffffffffff, 100, 0xfffffffffffffffffffffffff);
    ChainLink(a, 0xffffffffffffffffffffffffffffffffffffffffffffffffff, 50, 0x3ffffffffffff);
  }

  lemma InvertIsPower(a: FieldElement)
    ensures Invert(a) == Pow(a, P - 2)
  {
    Pow22501IsPower(a);
    Shifts();
    ChainLink(a, 0x3ffffffffffffffffffffffffffffffffffffffffffffffffffffffffffffff, 5, 11);
  }

  lemma PowP58IsPower(a: FieldElement)
    ensures PowP58(a) == Pow(a, (P - 5) / 8)
  {
    Pow22501IsPower(a);
    Shifts();
    ChainLink(a, 0x3ffffffffffffffffffffffffffffffffffffffffffffffffffffffffffffff, 2, 1);
    assert Pow(a, 1) == a;
  }

  /** Inversion: the field inverse of every nonzero element, and zero for zero. */
  lemma InvertIsInverse(a: FieldElement)
    requires IsPrime(P)
    ensures if Eq(a, 0) then Eq(Invert(a), 0) else Eq(a * Invert(a), 1)
  {
    InvertIsPower(a);
    if Eq(a, 0) {
      Mul(P, a, 0, Pow(a, P - 3), Pow(a, P - 3));
    } else {
      Fermat(P, a);
    }
  }

  // The combined inversion, square root and square test.

  lemma RemainderOfNegative(m: int, a: int)
    requires m > 0 && !Cong(m, a, 0)
    ensures Remainder(m, -a) == m - Remainder(m, a)
  {
    var r := Remainder(m, a);
    Residue(m, a);
    SmallRemainder(m, 0);
    SmallRemainder(m, m - r);
    MultipleIsZero(m, 1);
    Add(m, 1 * m, 0, r, a);
  }

  lemma NegatedRemainder(a: FieldElement)
    requires !Eq(a, 0)
    ensures Remainder(P, -a) == P - Remainder(P, a)
  {
    RemainderOfNegative(P, a);
  }

  lemma AbsoluteValue(a: FieldElement)
    ensures var r := ConditionalNegate(a, IsNegative(a)); !IsNegative(r) && r * r == a * a
  {
    if IsNegative(a) {
      NegatedRemainder(a);
    }
  }

  lemma Constants()
    ensures Eq(SQRT_M1 * SQRT_M1, -1) && !IsNegative(SQRT_M1)
    ensures Eq(EDWARDS_D * 121666, -121665)
    ensures !Eq(SQRT_M1, 0) && !Eq(EDWARDS_D, 0) && !Eq(2, 0)
  {
    NotZero(P, SQRT_M1);
    NotZero(P, EDWARDS_D);
    NotZero(P, 2);
    CongIs(P, SQRT_M1 * SQRT_M1, -1);
    CongIs(P, EDWARDS_D * 121666, -121665);
    SmallRemainder(P, SQRT_M1);
  }

  /** For nonzero u, comparing u w with u k compares w with k. */
  lemma CompareFactors(u: FieldElement, w: FieldElement, k: FieldElement)
    requires IsPrime(P) && !Eq(u, 0)
    ensures Eq(u * w, u * k) <==> Eq(w, k)
  {
    if Eq(w, k) {
      Mul(P, u, u, w, k);
    } else if Eq(u * w, u * k) {
      Cancel(P, u, w, k);
    }
  }

  /** The quantities of SqrtRatioI: its candidate, and the factor w with v r^2 = u w. */
  function SqrtFactor(u: FieldElement, v: FieldElement): FieldElement {
    Pow(u * Seventh(v), (P - 1) / 4)
  }

  function SqrtCandidate(u: FieldElement, v: FieldElement): FieldElement {
    Candidate(u, v, (P - 5) / 8)
  }

  lemma SqrtRatioIUnfolded(u: FieldElement, v: FieldElement)
    ensures var w, c := SqrtFactor(u, v), SqrtCandidate(u, v);
            var check := u * w;
            var r := if Eq(check, -u) || Eq(check, -u * SQRT_M1) then SQRT_M1 * c else c;
            && v * (c * c) == check
            && SqrtRatioI(u, v) == (Eq(check, u) || Eq(check, -u), ConditionalNegate(r, IsNegative(r)))
  {
    assert SqrtRatioIAt(u, v, 1) == SqrtRatioIAt(u, v, 0);
    assert SqrtRatioIAt(u, v, 2) == SqrtRatioIAt(u, v, 1);
    PowP58IsPower(u * Seventh(v));
    CheckValue(u, v, (P - 5) / 8);
    assert 2 * ((P - 5) / 8) + 1 == (P - 1) / 4;
  }

  /** What SqrtRatioI promises (section 4.2 of RFC 9496). */
  ghost predicate SqrtContract(u: FieldElement, v: FieldElement, ok: bool, r: FieldElement) {
    && !IsNegative(r)
    && (ok <==> exists s :: Root(P, u, v, s))
    && (ok ==> Root(P, u, v, r))
    && (!ok && Eq(v, 0) ==> Eq(r, 0))
    && (!ok && !Eq(v, 0) ==> Root(P, SQRT_M1 * u, v, r))
    && (Eq(u, 0) ==> ok && Eq(r, 0))
  }

  /** The flags that SqrtRatioI computes, read off the fourth root of unity w. */
  lemma Flags(u: FieldElement, w: FieldElement)
    requires IsPrime(P) && !Eq(u, 0)
    ensures Eq(u * w, u) <==> Eq(w, 1)
    ensures Eq(u * w, -u) <==> Eq(w, -1)
    ensures Eq(u * w, -u * SQRT_M1) <==> Eq(w, -SQRT_M1)
  {
    CompareFactors(u, w, 1);
    CompareFactors(u, w, -1);
    CompareFactors(u, w, -SQRT_M1);
    assert u * -SQRT_M1 == -u * SQRT_M1;
  }

  /** Multiplying the candidate by i negates v c^2. */
  lemma TimesI(v: FieldElement, c: FieldElement, x: FieldElement)
    requires Eq(v * (c * c), x)
    ensures Eq(v * ((SQRT_M1 * c) * (SQRT_M1 * c)), -x)
  {
    var i := SQRT_M1;
    Constants();
    Mul(P, i * i, -1, v * (c * c), x);
    assert v * ((i * c) * (i * c)) == (i * i) * (v * (c * c));
  }

  lemma UnitsDiffer()
    ensures !Eq(1, -1) && !Eq(1, -SQRT_M1) && !Eq(SQRT_M1, -1) && !Eq(SQRT_M1, -SQRT_M1)
  {
    CongIs(P, 1, -1);
    CongIs(P, 1, -SQRT_M1);
    CongIs(P, SQRT_M1, -1);
    CongIs(P, SQRT_M1, -SQRT_M1);
  }

  lemma DoubleNegation(s: int, u: int)
    ensures -(-s) * u == s * u
  {}

  lemma KeptCandidate(u: FieldElement, v: FieldElement, c: FieldElement, w: FieldElement, s: FieldElement)
    requires v * (c * c) == u * w && Eq(w, s)
    ensures Eq(v * (c * c), s * u)
  {
    Mul(P, u, u, w, s);
    assert u * s == s * u;
  }

  lemma TurnedCandidate(u: FieldElement, v: FieldElement, c: FieldElement, w: FieldElement, s: FieldElement)
    requires v * (c * c) == u * w && Eq(w, s)
    ensures Eq(v * ((SQRT_M1 * c) * (SQRT_M1 * c)), -s * u)
  {
    KeptCandidate(u, v, c, w, s);
    TimesI(v, c, s * u);
    assert -(s * u) == -s * u;
  }

  lemma SqrtUnit(u: FieldElement, v: FieldElement, c: FieldElement, w: FieldElement, r: FieldElement)
    requires IsPrime(P) && !Eq(u, 0) && v * (c * c) == u * w
    requires Eq((w * w) * (w * w), 1)
    requires r == if Eq(u * w, -u) || Eq(u * w, -u * SQRT_M1) then SQRT_M1 * c else c
    ensures Eq(u * w, u) || Eq(u * w, -u) <==> Eq(w * w, 1)
    ensures if Eq(w * w, 1) then Root(P, u, v, r) else Root(P, SQRT_M1 * u, v, r)
  {
    var i := SQRT_M1;
    Constants();
    Flags(u, w);
    FourthRootOfUnity(P, i, w);
    UnitsDiffer();
    if Eq(w, 1) {
      KeptCandidate(u, v, c, w, 1);
      Mul(P, w, 1, w, 1);
      assert 1 * u == u;
    } else if Eq(w, -1) {
      TurnedCandidate(u, v, c, w, -1);
      Mul(P, w, -1, w, -1);
      DoubleNegation(1, u);
    } else if Eq(w, i) {
      KeptCandidate(u, v, c, w, i);
    } else {
      TurnedCandidate(u, v, c, w, -i);
      DoubleNegation(i, u);
    }
  }

  /** u v^7 vanishes exactly when u or v does. */
  lemma SeventhZero(u: FieldElement, v: FieldElement)
    requires IsPrime(P)
    ensures Eq(u * Seventh(v), 0) <==> Eq(u, 0) || Eq(v, 0)
    ensures Eq(u, 0) || Eq(v, 0) ==> Eq(SqrtCandidate(u, v), 0)
  {
    var c := Cube(v);
    Product(P, u, Seventh(v));
    Product(P, c * c, v);
    Product(P, c, c);
    Product(P, v * v, v);
    Product(P, v, v);
    Product(P, u, c);
    Product(P, u * c, Pow(u * Seventh(v), (P - 5) / 8));
  }

  lemma Negation(a: FieldElement)
    requires IsPrime(P)
    ensures Eq(-a, 0) <==> Eq(a, 0)
  {
    Difference(P, 0, a);
    Difference(P, -a, 0);
  }

  lemma SqrtDegenerate(u: FieldElement, v: FieldElement)
    requires IsPrime(P) && (Eq(u, 0) || Eq(v, 0))
    ensures var (ok, r) := SqrtRatioI(u, v); SqrtContract(u, v, ok, r)
  {
    var c := SqrtCandidate(u, v);
    SqrtRatioIUnfolded(u, v);
    SeventhZero(u, v);
    Product(P, SQRT_M1, c);
    var (ok, r) := SqrtRatioI(u, v);
    Negation(c);
    Negation(SQRT_M1 * c);
    assert Eq(r, 0);
    AbsoluteValue(if Eq(u * SqrtFactor(u, v), -u) || Eq(u * SqrtFactor(u, v), -u * SQRT_M1) then SQRT_M1 * c else c);
    Product(P, c, c);
    Product(P, v, c * c);
    Product(P, r, r);
    Product(P, v, r * r);
    if Eq(u, 0) {
      assert Root(P, u, v, r);
    } else {
      Negation(u);
      forall s
        ensures !Root(P, u, v, s)
      {
        Product(P, v, s * s);
      }
    }
  }

  /**
    The merged inversion, square root and square test meets its contract on every input:
    it decides whether u / v has a root, returns the root that is not negative, and otherwise
    returns the root of i u / v, or zero where v is zero.
  */
  lemma SqrtRatioIContract(u: FieldElement, v: FieldElement)
    requires IsPrime(P)
    ensures var (ok, r) := SqrtRatioI(u, v); SqrtContract(u, v, ok, r)
  {
    SeventhZero(u, v);
    if Eq(u, 0) || Eq(v, 0) {
      SqrtDegenerate(u, v);
    } else {
      var w, c := SqrtFactor(u, v), SqrtCandidate(u, v);
      var r' := if Eq(u * w, -u) || Eq(u * w, -u * SQRT_M1) then SQRT_M1 * c else c;
      SqrtRatioIUnfolded(u, v);
      Unity(P, (P - 5) / 8, u * Seventh(v));
      SqrtUnit(u, v, c, w, r');
      AbsoluteValue(r');
      var (ok, r) := SqrtRatioI(u, v);
      if ok {
        assert Root(P, u, v, r);
      } else {
        forall s | Root(P, u, v, s)
          ensures false
        {
          RootGivesOne(P, (P - 5) / 8, u, v, s);
        }
      }
    }
  }

  lemma SignOfNegation(a: FieldElement)
    ensures if Eq(a, 0) then Eq(-a, a) else IsNegative(-a) != IsNegative(a)
  {
    if Eq(a, 0) {
      Add(P, 0, 0, a, 0);
    } else {
      NegatedRemainder(a);
    }
  }

  /** The root that is not negative is the only one. */
  lemma RootIsUnique(u: FieldElement, v: FieldElement, r: FieldElement, s: FieldElement)
    requires IsPrime(P) && !Eq(v, 0)
    requires Root(P, u, v, r) && Root(P, u, v, s)
    ensures Eq(r, s) || Eq(r, -s)
    ensures IsNegative(r) == IsNegative(s) ==> Eq(r, s)
  {
    Cancel(P, v, r * r, s * s);
    FactorDifference(P, r, s);
    SignOfNegation(s);
  }
}
