/** Montgomery's trick: one inversion for a whole slice of scalars, or of field elements. */
module BatchInversion {
  import opened Congruence
  import opened Primes
  import opened SquareRoots
  import opened Field
  import opened Recoding
  import opened ScalarArithmetic
  import opened ScalarInversion

  /** The product of the first n elements. */
  function ProductOf(xs: seq<int>, n: nat): int
    requires n <= |xs|
  {
    if n == 0 then 1 else ProductOf(xs, n - 1) * xs[n - 1]
  }

  /** A product vanishes exactly when a factor does. */
  lemma {:induction false} ProductVanishes(p: int, xs: seq<int>, n: nat)
    requires IsPrime(p) && n <= |xs|
    ensures Cong(p, ProductOf(xs, n), 0) <==> exists i :: 0 <= i < n && Cong(p, xs[i], 0)
  {
    if n == 0 {
      NotZero(p, 1);
    } else {
      ProductVanishes(p, xs, n - 1);
      Product(p, ProductOf(xs, n - 1), xs[n - 1]);
    }
  }

  // The scalars.

  /** In the backward pass: the inverse of the product of the first i inputs, or 0 if some input is not invertible. */
  predicate IsAccumulator(acc: nat, xs: seq<int>, i: nat)
    requires i <= |xs|
  {
    acc < L && if Cong(L, ProductOf(xs, |xs|), 0) then acc == 0 else Cong(L, acc * ProductOf(xs, i), 1)
  }

  /** The product of a plain value with one in Montgomery form is plain. */
  lemma MixedMul(y: nat, z: nat, b: int)
    requires y < L && IsForm(z, b)
    ensures MontgomeryMul(y, z) < L && Cong(L, MontgomeryMul(y, z), y * b)
    ensures y == 0 ==> MontgomeryMul(y, z) == 0
  {
    TimesConstant(y, z);
    MontgomeryReduceContract(y * z);
    Mul(L, y, y, z, b * RADIX);
    assert y * (b * RADIX) == (y * b) * RADIX;
    CancelRadix(MontgomeryMul(y, z), y * b);
    if y == 0 {
      assert 0 * b == 0;
      CanonicalResidue(MontgomeryMul(y, z), 0);
    }
  }

  lemma SplitProduct(a: int, p: int, x: int)
    ensures (a * x) * p == a * (p * x) == (a * p) * x
  {}

  lemma AccumulatorStep(acc: nat, xs: seq<int>, i: nat, input: nat, scratch: nat)
    requires IsPrime(L) && i < |xs| && IsAccumulator(acc, xs, i + 1)
    requires IsForm(input, xs[i]) && IsForm(scratch, ProductOf(xs, i))
    ensures IsAccumulator(MontgomeryMul(acc, input), xs, i)
    ensures if Cong(L, ProductOf(xs, |xs|), 0) then MontgomeryMul(acc, scratch) == 0
            else IsInverse(MontgomeryMul(acc, scratch), xs[i])
  {
    MixedMul(acc, input, xs[i]);
    MixedMul(acc, scratch, ProductOf(xs, i));
    if !Cong(L, ProductOf(xs, |xs|), 0) {
      ProductVanishes(L, xs, |xs|);
      Mul(L, MontgomeryMul(acc, input), acc * xs[i], ProductOf(xs, i), ProductOf(xs, i));
      Mul(L, MontgomeryMul(acc, scratch), acc * ProductOf(xs, i), xs[i], xs[i]);
      SplitProduct(acc, ProductOf(xs, i), xs[i]);
    }
  }

  /** The results of the batch: all the inverses, or only zeros if some input is not invertible. */
  ghost predicate AreInverses(rs: seq<Scalar>, xs: seq<int>, from: nat) {
    |rs| == |xs| && forall i :: from <= i < |rs| ==>
      if Cong(L, ProductOf(xs, |xs|), 0) then rs[i] == 0 else IsInverse(rs[i], xs[i])
  }

  method ToForm(x: Scalar) returns (y: Scalar)
    ensures IsForm(y, x)
  {
    ToMontgomeryFormContract(x);
    y := ToMontgomeryForm(x);
  }

  method MultiplyForms(y: nat, z: nat, ghost a: int, ghost b: int) returns (r: Scalar)
    requires IsForm(y, a) && IsForm(z, b)
    ensures IsForm(r, a * b)
  {
    MulForms(y, a, z, b);
    r := MontgomeryMul(y, z);
  }

  /** The first n inputs in Montgomery form, and the products before them. */
  predicate AreForms(inputs: seq<Scalar>, scratch: seq<Scalar>, xs: seq<int>, n: nat) {
    && |inputs| == |scratch| == |xs| && n <= |xs|
    && forall j :: 0 <= j < n ==> IsForm(inputs[j], xs[j]) && IsForm(scratch[j], ProductOf(xs, j))
  }

  /** The forward pass: inputs go into Montgomery form, and scratch receives the products before them. */
  method PrefixProducts(inputs: array<Scalar>, scratch: array<Scalar>) returns (acc: Scalar)
    requires inputs.Length == scratch.Length && inputs != scratch
    modifies inputs, scratch
    ensures var xs := old(inputs[..]); IsForm(acc, ProductOf(xs, |xs|)) && AreForms(inputs[..], scratch[..], xs, |xs|)
  {
    ghost var xs: seq<int> := inputs[..];
    acc := ToForm(1);
    for i := 0 to inputs.Length
      invariant IsForm(acc, ProductOf(xs, i)) && AreForms(inputs[..], scratch[..], xs, i)
      invariant inputs[i..] == xs[i..]
    {
      assert inputs[i] == inputs[i..][0] == xs[i];
      scratch[i] := acc;
      inputs[i] := ToForm(inputs[i]);
      acc := MultiplyForms(acc, inputs[i], ProductOf(xs, i), xs[i]);
      assert inputs[i + 1..] == xs[i..][1..];
    }
  }

  /** The inverse of a value in Montgomery form, as a plain value. */
  method InvertForm(y: nat, ghost a: int) returns (r: Scalar)
    requires IsPrime(L) && IsForm(y, a)
    ensures IsInverse(r, a)
  {
    assert Pow(a, 1) == a;
    var m := MontgomeryInvert(y, a);
    FromForm(m, Pow(a, L - 2));
    r := FromMontgomeryForm(m);
    FermatInverse(r, a);
  }

  /** One step of the backward pass. */
  method NextInverse(acc: nat, input: nat, scratch: nat, ghost xs: seq<int>, ghost i: nat)
    returns (tmp: Scalar, inverse: Scalar)
    requires IsPrime(L) && i < |xs| && IsAccumulator(acc, xs, i + 1)
    requires IsForm(input, xs[i]) && IsForm(scratch, ProductOf(xs, i))
    ensures IsAccumulator(tmp, xs, i)
    ensures if Cong(L, ProductOf(xs, |xs|), 0) then inverse == 0 else IsInverse(inverse, xs[i])
  {
    AccumulatorStep(acc, xs, i, input, scratch);
    MixedMul(acc, scratch, ProductOf(xs, i));
    tmp := MontgomeryMul(acc, input);
    inverse := MontgomeryMul(acc, scratch);
  }

  /** Inverts a whole slice in place, and returns the inverse of the product. */
  method BatchInvert(inputs: array<Scalar>) returns (ret: Scalar)
    requires IsPrime(L)
    modifies inputs
    ensures AreInverses(inputs[..], old(inputs[..]), 0)
    ensures IsInverse(ret, ProductOf(old(inputs[..]), inputs.Length))
  {
    ghost var xs: seq<int> := inputs[..];
    var scratch := new Scalar[inputs.Length](_ => 0);
    var acc := PrefixProducts(inputs, scratch);
    acc := InvertForm(acc, ProductOf(xs, |xs|));
    ret := acc;
    for i := inputs.Length downto 0
      invariant IsAccumulator(acc, xs, i)
      invariant AreForms(inputs[..], scratch[..], xs, i) && AreInverses(inputs[..], xs, i)
    {
      acc, inputs[i] := NextInverse(acc, inputs[i], scratch[i], xs, i);
    }
  }

  /** Where every input is invertible, the returned value is the product of all the inverses. */
  lemma {:induction false} ProductOfInverses(rs: seq<int>, xs: seq<int>, n: nat)
    requires n <= |rs| && n <= |xs| && forall i :: 0 <= i < n ==> Cong(L, rs[i] * xs[i], 1)
    ensures Cong(L, ProductOf(rs, n) * ProductOf(xs, n), 1)
  {
    if n > 0 {
      ProductOfInverses(rs, xs, n - 1);
      Mul(L, ProductOf(rs, n - 1) * ProductOf(xs, n - 1), 1, rs[n - 1] * xs[n - 1], 1);
      Interchange(ProductOf(rs, n - 1), ProductOf(xs, n - 1), rs[n - 1], xs[n - 1]);
    }
  }

  /** The batch agrees with the inversion of single scalars, and its result is the product of theirs. */
  lemma BatchAgrees(rs: seq<Scalar>, xs: seq<Scalar>, ret: Scalar, singles: seq<Scalar>)
    requires IsPrime(L) && AreInverses(rs, xs, 0) && IsInverse(ret, ProductOf(xs, |xs|)) && |singles| == |xs|
    requires forall i :: 0 <= i < |xs| ==> !Cong(L, xs[i], 0) && IsInverse(singles[i], xs[i])
    ensures rs == singles && ret == Remainder(L, ProductOf(singles, |singles|))
  {
    ProductVanishes(L, xs, |xs|);
    forall i | 0 <= i < |xs|
      ensures rs[i] == singles[i]
    {
      InverseIsUnique(rs[i], singles[i], xs[i]);
    }
    ProductOfInverses(singles, xs, |xs|);
    CommonInverse(L, ret, ProductOf(singles, |xs|), ProductOf(xs, |xs|));
    CanonicalResidue(ret, ProductOf(singles, |singles|));
  }

  // The field elements.

  predicate ArePrefixProducts(scratch: seq<FieldElement>, xs: seq<FieldElement>, n: nat) {
    |scratch| == |xs| && n <= |xs| && forall j :: 0 <= j < n ==> scratch[j] == ProductOf(xs, j)
  }

  /** The forward pass: scratch receives the products of the inputs before each input. */
  method FieldPrefixProducts(inputs: array<FieldElement>, scratch: array<FieldElement>) returns (acc: FieldElement)
    requires inputs.Length == scratch.Length && inputs != scratch
    modifies scratch
    ensures acc == ProductOf(inputs[..], inputs.Length) && ArePrefixProducts(scratch[..], inputs[..], inputs.Length)
  {
    acc := 1;
    for i := 0 to inputs.Length
      invariant acc == ProductOf(inputs[..], i) && ArePrefixProducts(scratch[..], inputs[..], i)
    {
      scratch[i] := acc;
      acc := acc * inputs[i];
    }
  }

  predicate AreFieldInverses(rs: seq<FieldElement>, xs: seq<FieldElement>, from: nat) {
    |rs| == |xs| && forall j :: from <= j < |rs| ==> Eq(rs[j] * xs[j], 1)
  }

  method NextFieldInverse(acc: FieldElement, input: FieldElement, scratch: FieldElement, ghost xs: seq<FieldElement>,
                          ghost i: nat)
    returns (tmp: FieldElement, inverse: FieldElement)
    requires i < |xs| && input == xs[i] && scratch == ProductOf(xs, i) && Eq(acc * ProductOf(xs, i + 1), 1)
    ensures Eq(tmp * ProductOf(xs, i), 1) && Eq(inverse * xs[i], 1)
  {
    SplitProduct(acc, ProductOf(xs, i), xs[i]);
    tmp := acc * input;
    inverse := acc * scratch;
  }

  method InvertElement(a: FieldElement) returns (r: FieldElement)
    requires IsPrime(P) && !Eq(a, 0)
    ensures Eq(r * a, 1)
  {
    InvertIsInverse(a);
    r := Invert(a);
    assert r * a == a * r;
  }

  /** Inverts a whole slice of field elements in place; none of them may be zero. */
  method FieldBatchInvert(inputs: array<FieldElement>)
    requires IsPrime(P) && forall i :: 0 <= i < inputs.Length ==> !Eq(inputs[i], 0)
    modifies inputs
    ensures AreFieldInverses(inputs[..], old(inputs[..]), 0)
  {
    ghost var xs := inputs[..];
    var scratch := new FieldElement[inputs.Length](_ => 1);
    var acc := FieldPrefixProducts(inputs, scratch);
    ProductVanishes(P, xs, |xs|);
    acc := InvertElement(acc);
    for i := inputs.Length downto 0
      invariant Eq(acc * ProductOf(xs, i), 1)
      invariant inputs[..i] == xs[..i] && ArePrefixProducts(scratch[..], xs, i)
      invariant AreFieldInverses(inputs[..], xs, i)
    {
      assert inputs[i] == inputs[..i + 1][i] == xs[i];
      acc, inputs[i] := NextFieldInverse(acc, inputs[i], scratch[i], xs, i);
    }
  }
}
