/** Abelian groups and integer multiples of their elements. */
module Groups {
  datatype Group<!T> = Group(zero: T, add: (T, T) -> T, neg: T -> T)

  ghost predicate Associates<T>(g: Group<T>, a: T, b: T, c: T) {
    g.add(g.add(a, b), c) == g.add(a, g.add(b, c))
  }

  ghost predicate Commutes<T>(g: Group<T>, a: T, b: T) {
    g.add(a, b) == g.add(b, a)
  }

  ghost predicate HasUnit<T>(g: Group<T>, a: T) {
    g.add(g.zero, a) == a && g.add(g.neg(a), a) == g.zero
  }

  ghost predicate IsAbelian<T(!new)>(g: Group<T>) {
    && (forall a, b, c :: Associates(g, a, b, c))
    && (forall a, b :: Commutes(g, a, b))
    && (forall a :: HasUnit(g, a))
  }

  function Times<T>(g: Group<T>, n: nat, p: T): T {
    if n == 0 then g.zero else g.add(p, Times(g, n - 1, p))
  }

  /** The multiple n p, for every integer n. */
  function Multiple<T>(g: Group<T>, n: int, p: T): T {
    if n >= 0 then Times(g, n, p) else g.neg(Times(g, -n, p))
  }

  lemma CancelLeft<T(!new)>(g: Group<T>, a: T, b: T, c: T)
    requires IsAbelian(g) && g.add(a, b) == g.add(a, c)
    ensures b == c
  {
    assert Associates(g, g.neg(a), a, b) && Associates(g, g.neg(a), a, c);
    assert HasUnit(g, a) && HasUnit(g, b) && HasUnit(g, c);
  }

  /** (a + b) + (c + d) = (a + c) + (b + d) */
  lemma Exchange<T(!new)>(g: Group<T>, a: T, b: T, c: T, d: T)
    requires IsAbelian(g)
    ensures g.add(g.add(a, b), g.add(c, d)) == g.add(g.add(a, c), g.add(b, d))
  {
    assert Associates(g, a, b, g.add(c, d)) && Associates(g, b, c, d) && Commutes(g, b, c);
    assert Associates(g, c, b, d) && Associates(g, a, c, g.add(b, d));
  }

  lemma NegAdd<T(!new)>(g: Group<T>, a: T, b: T)
    requires IsAbelian(g)
    ensures g.neg(g.add(a, b)) == g.add(g.neg(a), g.neg(b))
  {
    var s := g.add(a, b);
    Exchange(g, g.neg(a), g.neg(b), a, b);
    assert HasUnit(g, a) && HasUnit(g, b) && HasUnit(g, g.zero) && HasUnit(g, s);
    assert Commutes(g, g.neg(s), s) && Commutes(g, g.add(g.neg(a), g.neg(b)), s);
    CancelLeft(g, s, g.neg(s), g.add(g.neg(a), g.neg(b)));
  }

  lemma NegNeg<T(!new)>(g: Group<T>, a: T)
    requires IsAbelian(g)
    ensures g.neg(g.neg(a)) == a && g.neg(g.zero) == g.zero
  {
    assert HasUnit(g, a) && HasUnit(g, g.neg(a)) && HasUnit(g, g.zero);
    assert Commutes(g, g.neg(g.neg(a)), g.neg(a)) && Commutes(g, g.neg(g.zero), g.zero);
    CancelLeft(g, g.neg(a), g.neg(g.neg(a)), a);
    assert HasUnit(g, g.neg(g.zero));
  }

  lemma MultipleNeg<T(!new)>(g: Group<T>, n: int, p: T)
    requires IsAbelian(g)
    ensures Multiple(g, -n, p) == g.neg(Multiple(g, n, p))
  {
    NegNeg(g, Times(g, if n >= 0 then n else -n, p));
  }

  lemma MultipleSmall<T(!new)>(g: Group<T>, p: T)
    requires IsAbelian(g)
    ensures Multiple(g, 0, p) == g.zero && Multiple(g, 1, p) == p && Multiple(g, -1, p) == g.neg(p)
  {
    assert HasUnit(g, p) && Commutes(g, p, g.zero);
    assert Times(g, 1, p) == g.add(p, Times(g, 0, p));
  }

  lemma MultipleSucc<T(!new)>(g: Group<T>, n: int, p: T)
    requires IsAbelian(g)
    ensures Multiple(g, n + 1, p) == g.add(p, Multiple(g, n, p))
  {
    if n < 0 {
      var t := Times(g, -n - 1, p);
      assert Times(g, -n, p) == g.add(p, t);
      NegAdd(g, p, t);
      assert Associates(g, p, g.neg(p), g.neg(t)) && Commutes(g, p, g.neg(p));
      assert HasUnit(g, p) && HasUnit(g, g.neg(t));
      if n == -1 {
        NegNeg(g, p);
      }
    }
  }

  lemma {:induction false} MultipleAdd<T(!new)>(g: Group<T>, m: int, n: int, p: T)
    requires IsAbelian(g)
    ensures Multiple(g, m + n, p) == g.add(Multiple(g, m, p), Multiple(g, n, p))
    decreases if m >= 0 then m else 1 - m
  {
    if m == 0 {
      assert HasUnit(g, Multiple(g, n, p));
    } else if m > 0 {
      MultipleAdd(g, m - 1, n, p);
      MultipleSucc(g, m - 1, p);
      MultipleSucc(g, m - 1 + n, p);
      assert Associates(g, p, Multiple(g, m - 1, p), Multiple(g, n, p));
    } else {
      MultipleAdd(g, -m, -n, p);
      MultipleNeg(g, m, p);
      MultipleNeg(g, n, p);
      MultipleNeg(g, m + n, p);
      NegNeg(g, Multiple(g, m + n, p));
      NegAdd(g, g.neg(Multiple(g, m, p)), g.neg(Multiple(g, n, p)));
      NegNeg(g, Multiple(g, m, p));
      NegNeg(g, Multiple(g, n, p));
    }
  }

  lemma {:induction false} MultipleMultiple<T(!new)>(g: Group<T>, m: int, n: int, p: T)
    requires IsAbelian(g)
    ensures Multiple(g, m, Multiple(g, n, p)) == Multiple(g, m * n, p)
    decreases if m >= 0 then m else 1 - m
  {
    var q := Multiple(g, n, p);
    if m == 0 {
    } else if m > 0 {
      MultipleMultiple(g, m - 1, n, p);
      MultipleSucc(g, m - 1, q);
      MultipleAdd(g, n, (m - 1) * n, p);
      assert n + (m - 1) * n == m * n;
    } else {
      MultipleMultiple(g, -m, n, p);
      MultipleNeg(g, m, q);
      MultipleNeg(g, m * n, p);
      assert -m * n == -(m * n);
      NegNeg(g, Multiple(g, m, q));
      NegNeg(g, Multiple(g, m * n, p));
    }
  }

  lemma {:induction false} MultiplePoint<T(!new)>(g: Group<T>, n: int, p: T, q: T)
    requires IsAbelian(g)
    ensures Multiple(g, n, g.add(p, q)) == g.add(Multiple(g, n, p), Multiple(g, n, q))
    decreases if n >= 0 then n else 1 - n
  {
    if n == 0 {
      assert HasUnit(g, g.zero);
    } else if n > 0 {
      MultiplePoint(g, n - 1, p, q);
      MultipleSucc(g, n - 1, p);
      MultipleSucc(g, n - 1, q);
      MultipleSucc(g, n - 1, g.add(p, q));
      Exchange(g, p, q, Multiple(g, n - 1, p), Multiple(g, n - 1, q));
    } else {
      MultiplePoint(g, -n, p, q);
      MultipleNeg(g, -n, p);
      MultipleNeg(g, -n, q);
      MultipleNeg(g, -n, g.add(p, q));
      NegAdd(g, Multiple(g, -n, p), Multiple(g, -n, q));
    }
  }
}
