/**
  The identities behind x-only arithmetic, in Edwards coordinates.

  A projective u = U / W is described by its sum s = U + W and difference m = U - W: it is the
  u-coordinate of a point with Edwards coordinate y when m = y s.
*/
module MontgomeryAlgebra {
  import opened Congruence
  import opened Primes
  import opened SquareRoots

  // Doubling, with c the constant (A + 2) / 4 and d = (1 - c) / c.

  lemma CurveTimesCForm(c: int, a: int, b: int)
    ensures (c + (1 - c) * (a * b)) + (c * a + c * (a * b) - c) == c * a + a * b
    ensures a * (b + c * (1 - b)) == a * b + c * a - c * (a * b)
    ensures -c * (1 - b) == c * b - c
  {}

  lemma CurveTimesC(p: int, c: int, d: int, a: int, b: int)
    requires p > 0 && Cong(p, d * c, 1 - c) && Cong(p, b - a, 1 + d * (a * b))
    ensures Cong(p, a * (b + c * (1 - b)), -c * (1 - b))
  {
    Mul(p, c, c, b - a, 1 + d * (a * b));
    Mul(p, d * c, 1 - c, a * b, a * b);
    assert c * (1 + d * (a * b)) == c + (d * c) * (a * b);
    Add(p, c, c, (d * c) * (a * b), (1 - c) * (a * b));
    assert c * (b - a) == c * b - c * a;
    Add(p, c * b - c * a, c + (1 - c) * (a * b), c * a + c * (a * b) - c, c * a + c * (a * b) - c);
    Add(p, c * b + c * (a * b) - c, c * a + a * b, c * (a * b), c * (a * b));
    assert (c * b - c * a) + (c * a + c * (a * b) - c) == c * b + c * (a * b) - c;
    CurveTimesCForm(c, a, b);
  }

  lemma DoublingFactor(p: int, c: int, d: int, a: int, b: int)
    requires p > 0 && Cong(p, d * c, 1 - c) && Cong(p, b - a, 1 + d * (a * b))
    ensures var e := b + c * (1 - b); Cong(p, (1 + a) * e, b)
  {
    var e := b + c * (1 - b);
    CurveTimesC(p, c, d, a, b);
    Add(p, e, e, a * e, -c * (1 - b));
    assert (1 + a) * e == e + a * e && -c * (1 - b) == -(c * (1 - b));
  }

  /** The factor e does not vanish. */
  lemma DoublingFactorNonZero(p: int, c: int, d: int, a: int, b: int)
    requires IsPrime(p) && !Cong(p, c, 0) && Cong(p, d * c, 1 - c) && Cong(p, b - a, 1 + d * (a * b))
    ensures !Cong(p, b + c * (1 - b), 0)
  {
    var e := b + c * (1 - b);
    CurveTimesC(p, c, d, a, b);
    DoublingFactor(p, c, d, a, b);
    if Cong(p, e, 0) {
      Product(p, 1 + a, e);
      Product(p, a, e);
      assert Cong(p, b, 0) && Cong(p, -c * (1 - b), 0);
      Add(p, 0, 0, -c * (1 - b), 0);
      assert -(-c * (1 - b)) == c * (1 - b);
      Product(p, c, 1 - b);
      Add(p, 1 - b, 0, b, 0);
      NotZero(p, 1);
    }
  }

  lemma Reassociate(f: int, a: int, e: int)
    ensures f * (a * e) == (f * e) * a == (f * a) * e
  {}

  lemma XDoubleSum(p: int, a: int, b: int, e: int, f: int, u: int, w: int, y2: int, q: int)
    requires p > 0 && Cong(p, (1 + a) * e, b) && Cong(p, u, f * b) && Cong(p, w, f * ((1 - b) * e))
    requires Cong(p, q, 2 + a - b) && Cong(p, y2 * q, a + b)
    ensures Cong(p, u + w, (f * e) * q) && Cong(p, u - w, y2 * (u + w))
  {
    var k := f * e;
    Mul(p, f, f, b, (1 + a) * e);
    Reassociate(f, 1 + a, e);
    Reassociate(f, 1 - b, e);
    Add(p, u, k * (1 + a), w, k * (1 - b));
    assert k * (1 + a) + k * (1 - b) == k * (2 + a - b) && k * (1 + a) - k * (1 - b) == k * (a + b);
    Mul(p, k, k, q, 2 + a - b);
    Mul(p, k, k, y2 * q, a + b);
    Mul(p, y2, y2, u + w, k * q);
    Reassociate(y2, k, q);
    assert y2 * (k * q) == k * (y2 * q);
  }

  lemma XDoubleForm(c: int, b: int, ss: int)
    ensures (ss * (1 - b)) * (c * (ss * (1 - b)) + b * ss) == (ss * ss) * ((1 - b) * (b + c * (1 - b)))
  {
    var f := 1 - b;
    assert c * (ss * f) + b * ss == ss * (b + c * f);
    Interchange(ss, f, ss, b + c * f);
  }

  lemma XDoubleUW(p: int, c: int, b: int, ss: int, mm: int)
    requires p > 0 && Cong(p, mm, b * ss)
    ensures var t6 := ss - mm;
            && Cong(p, ss * mm, (ss * ss) * b)
            && Cong(p, t6 * (c * t6 + mm), (ss * ss) * ((1 - b) * (b + c * (1 - b))))
  {
    var t6, g := ss - mm, ss * (1 - b);
    Mul(p, ss, ss, mm, b * ss);
    assert ss * (b * ss) == (ss * ss) * b;
    Add(p, ss, ss, mm, b * ss);
    assert ss - b * ss == g;
    Mul(p, c, c, t6, g);
    Add(p, c * t6, c * g, mm, b * ss);
    Mul(p, t6, g, c * t6 + mm, c * g + b * ss);
    XDoubleForm(c, b, ss);
  }

  /** Doubling on sums and differences. */
  lemma XDouble(p: int, c: int, d: int, a: int, b: int, s: int, m: int, y2: int, q: int)
    requires p > 0 && Cong(p, d * c, 1 - c) && Cong(p, b - a, 1 + d * (a * b))
    requires Cong(p, m * m, b * (s * s)) && Cong(p, q, 2 + a - b) && Cong(p, y2 * q, a + b)
    ensures var t6 := s * s - m * m;
            var u, w, k := (s * s) * (m * m), t6 * (c * t6 + m * m), ((s * s) * (s * s)) * (b + c * (1 - b));
            Cong(p, u + w, k * q) && Cong(p, u - w, y2 * (u + w))
  {
    var ss, e := s * s, b + c * (1 - b);
    var t6, f := ss - m * m, ss * ss;
    XDoubleUW(p, c, b, ss, m * m);
    DoublingFactor(p, c, d, a, b);
    XDoubleSum(p, a, b, e, f, ss * (m * m), t6 * (c * t6 + m * m), y2, q);
  }

  // Differential addition.

  lemma SquareDifference(a: int, b: int)
    ensures (a - b) * (a + b) == a * a - b * b
  {}

  /** (1 - y+)(1 - y-)(1 - dl)(1 + dl), and the same with plus signs. */
  lemma SumAndDifference(p: int, t: int, r: int, dl: int, yp: int, ym: int)
    requires p > 0 && Cong(p, yp * (1 - dl), t + r) && Cong(p, ym * (1 + dl), t - r)
    ensures var n := (1 - dl) * (1 + dl);
            && Cong(p, ((1 - yp) * (1 - ym)) * n, (1 - t) * (1 - t) - (dl + r) * (dl + r))
            && Cong(p, ((1 + yp) * (1 + ym)) * n, (1 + t) * (1 + t) - (dl - r) * (dl - r))
  {
    var q, q' := 1 - dl, 1 + dl;
    Add(p, q, q, yp * q, t + r);
    Add(p, q', q', ym * q', t - r);
    assert (1 - yp) * q == q - yp * q && (1 + yp) * q == q + yp * q;
    assert (1 - ym) * q' == q' - ym * q' && (1 + ym) * q' == q' + ym * q';
    Mul(p, (1 - yp) * q, q - (t + r), (1 - ym) * q', q' - (t - r));
    Mul(p, (1 + yp) * q, q + (t + r), (1 + ym) * q', q' + (t - r));
    Interchange(1 - yp, q, 1 - ym, q');
    Interchange(1 + yp, q, 1 + ym, q');
    SquareDifference(1 - t, dl + r);
    SquareDifference(1 + t, dl - r);
  }

  lemma XSquared(p: int, d: int, a: int, b: int)
    requires p > 0 && Cong(p, b - a, 1 + d * (a * b))
    ensures Cong(p, a * (1 + d * b), b - 1)
  {
    Add(p, b - a, 1 + d * (a * b), a - 1, a - 1);
    assert a * (1 + d * b) == a + d * (a * b);
  }

  /** A point with y^2 = 1 has x = 0. */
  lemma OrderTwoIsZeroX(p: int, c: int, d: int, x: int, y: int)
    requires IsPrime(p) && p > 2 && Cong(p, d * c, 1 - c) && Cong(p, y * y, 1)
    requires Cong(p, y * y - x * x, 1 + d * ((x * x) * (y * y)))
    ensures Cong(p, x, 0)
  {
    Add(p, d * c, 1 - c, c, c);
    assert (1 + d) * c == d * c + c;
    SmallUnits(p);
    Product(p, 1 + d, c);
    XSquared(p, d, x * x, y * y);
    Mul(p, d, d, y * y, 1);
    Add(p, 1, 1, d * (y * y), d);
    Mul(p, x * x, x * x, 1 + d * (y * y), 1 + d);
    Add(p, y * y, 1, 1, 1);
    Product(p, x * x, 1 + d);
    Product(p, x, x);
  }

  lemma FactorDifferenceOfSquares(p: int, t: int, r: int, A: int, n: int, h: int, k: int)
    requires p > 0 && Cong(p, (r * r) * A, n) && k * k == (r * r) * (h * h)
    ensures Cong(p, ((1 - t) * (1 - t) - k * k) * A, ((1 - t) * (1 - t)) * A - n * (h * h))
  {
    var g := (1 - t) * (1 - t);
    Mul(p, (r * r) * A, n, h * h, h * h);
    assert ((r * r) * (h * h)) * A == ((r * r) * A) * (h * h);
    Add(p, g * A, g * A, (k * k) * A, n * (h * h));
    assert (g - k * k) * A == g * A - (k * k) * A;
  }

  lemma SignedSquare(sg: int, t: int)
    requires sg == 1 || sg == -1
    ensures (sg * t) * (sg * t) == t * t
  {}

  lemma SignedRoot(d: int, r: int, t: int, sg: int)
    requires sg == 1 || sg == -1
    ensures var k, h := d * (r * t) + sg * r, 1 + d * (sg * t); k * k == (r * r) * (h * h)
  {
    var k, h := d * (r * t) + sg * r, 1 + d * (sg * t);
    assert k == sg * (r * h) by {
      if sg == 1 {
        assert r * (1 + d * t) == r + d * (r * t);
      } else {
        assert r * (1 - d * t) == r - d * (r * t);
        assert d * (sg * t) == -(d * t);
      }
    }
    SignedSquare(sg, r * h);
    Interchange(r, h, r, h);
  }

  lemma SpreadOver(t: int, q: int, m: int)
    ensures (1 - 2 * t + q) * m == m - 2 * (t * m) + q * m
  {}

  lemma SpreadOver'(q: int, w: int, n: int)
    ensures (q - w + 1) * n == q * n - w * n + n
  {}

  lemma SpreadD(d: int, q: int)
    ensures (1 + d) * (1 + d * q) == (1 + d * q) + (d + (d * d) * q)
  {
    assert d * (1 + d * q) == d + (d * d) * q;
  }

  lemma FactorAssembly(t: int, q: int, w: int, dt: int, dw: int, eq: int, dtw: int, etq: int, dqw: int, eqq: int,
                       dtq: int, eqw: int,
                       m: int, tm: int, qm: int, n: int, qn: int, wn: int)
    requires m == 1 + dw + eq && tm == t + dtw + etq && qm == q + dqw + eqq
    requires n == 1 + 2 * dt + eq && qn == q + 2 * dtq + eqq && wn == w + 2 * dtw + eqw
    ensures m - 2 * tm + qm - (qn - wn + n) == w + dqw + dw + eqw - 2 * t - 2 * dtq - 2 * dt - 2 * etq
  {}

  lemma FactorLeft(d: int, e: int, t: int, q: int, w: int)
    ensures var m := 1 + d * w + e * q;
            t * m == t + d * (t * w) + e * (t * q) && q * m == q + d * (q * w) + e * (q * q)
  {}

  lemma FactorRight(d: int, e: int, t: int, q: int, w: int)
    ensures var n := 1 + 2 * (d * t) + e * q;
            q * n == q + 2 * (d * (t * q)) + e * (q * q) && w * n == w + 2 * (d * (t * w)) + e * (q * w)
  {}

  lemma FactorTarget(d: int, e: int, t: int, q: int, w: int)
    ensures (w - 2 * t) * ((1 + d * q) + (d + e * q))
         == w + d * (q * w) + d * w + e * (q * w) - 2 * t - 2 * (d * (t * q)) - 2 * (d * t) - 2 * (e * (t * q))
  {
    var f := (1 + d * q) + (d + e * q);
    assert (w - 2 * t) * f == w * f - 2 * (t * f);
    assert w * f == w + d * (q * w) + d * w + e * (q * w);
    assert t * f == t + d * (t * q) + d * t + e * (t * q);
  }

  lemma FactorExpansion(d: int, t: int, q: int, w: int)
    requires q == t * t
    ensures (1 - 2 * t + q) * (1 + d * w + (d * d) * q) - (q - w + 1) * (1 + 2 * (d * t) + (d * d) * q)
            == (w - 2 * t) * ((1 + d) * (1 + d * q))
  {
    var e := d * d;
    SpreadD(d, q);
    var m := 1 + d * w + e * q;
    SpreadOver(t, q, m);
    var n := 1 + 2 * (d * t) + e * q;
    SpreadOver'(q, w, n);
    FactorLeft(d, e, t, q, w);
    FactorRight(d, e, t, q, w);
    FactorTarget(d, e, t, q, w);
    FactorAssembly(t, q, w, d * t, d * w, e * q, d * (t * w), e * (t * q), d * (q * w), e * (q * q), d * (t * q),
        e * (q * w),
      m, t * m, q * m, n, q * n, w * n);
  }

  lemma FactorIdentity(d: int, t: int, b1: int, b2: int, w: int)
    requires t * t == b1 * b2 && w == b1 + b2
    ensures var g, h := (1 - t) * (1 - t), 1 + d * t;
            g * ((1 + d * b1) * (1 + d * b2)) - ((b1 - 1) * (b2 - 1)) * (h * h)
                == (w - 2 * t) * ((1 + d) * (1 + d * (b1 * b2)))
  {
    var q := t * t;
    assert (1 + d * b1) * (1 + d * b2) == 1 + d * w + (d * d) * q by {
      Interchange(d, b1, d, b2);
      assert (1 + d * b1) * (1 + d * b2) == 1 + d * b1 + d * b2 + (d * b1) * (d * b2);
    }
    assert (b1 - 1) * (b2 - 1) == q - w + 1;
    assert (1 - t) * (1 - t) == 1 - 2 * t + q;
    assert (1 + d * t) * (1 + d * t) == 1 + 2 * (d * t) + (d * d) * q by {
      Interchange(d, t, d, t);
    }
    FactorExpansion(d, t, q, w);
  }

  /** Both products are the same multiple of the squares of y1 - y2 and y1 + y2. */
  lemma DifferentialFactor(p: int, d: int, x1: int, y1: int, x2: int, y2: int, sg: int)
    requires p > 0 && (sg == 1 || sg == -1)
    requires Cong(p, y1 * y1 - x1 * x1, 1 + d * ((x1 * x1) * (y1 * y1)))
    requires Cong(p, y2 * y2 - x2 * x2, 1 + d * ((x2 * x2) * (y2 * y2)))
    ensures var t, r, b1, b2 := y1 * y2, x1 * x2, y1 * y1, y2 * y2;
            var k := d * (r * t) + sg * r;
            Cong(p, ((1 - sg * t) * (1 - sg * t) - k * k) * ((1 + d * b1) * (1 + d * b2)),
                 ((b1 + b2) - 2 * (sg * t)) * ((1 + d) * (1 + d * (b1 * b2))))
  {
    var t, r, b1, b2 := y1 * y2, x1 * x2, y1 * y1, y2 * y2;
    XSquared(p, d, x1 * x1, b1);
    XSquared(p, d, x2 * x2, b2);
    Mul(p, (x1 * x1) * (1 + d * b1), b1 - 1, (x2 * x2) * (1 + d * b2), b2 - 1);
    Interchange(x1 * x1, 1 + d * b1, x2 * x2, 1 + d * b2);
    Interchange(x1, x1, x2, x2);
    Interchange(y1, y1, y2, y2);
    SignedRoot(d, r, t, sg);
    SignedSquare(sg, t);
    FactorDifferenceOfSquares(p, sg * t, r, (1 + d * b1) * (1 + d * b2), (b1 - 1) * (b2 - 1), 1 + d * (sg * t),
        d * (r * t) + sg * r);
    FactorIdentity(d, sg * t, b1, b2, b1 + b2);
  }

  lemma DifferentialFactors(p: int, d: int, x1: int, y1: int, x2: int, y2: int, f: int, f': int, A: int, G: int)
    requires p > 0
    requires Cong(p, y1 * y1 - x1 * x1, 1 + d * ((x1 * x1) * (y1 * y1)))
    requires Cong(p, y2 * y2 - x2 * x2, 1 + d * ((x2 * x2) * (y2 * y2)))
    requires var t, r := y1 * y2, x1 * x2;
             var dl := d * (r * t);
             f == (1 - t) * (1 - t) - (dl + r) * (dl + r) && f' == (1 + t) * (1 + t) - (dl - r) * (dl - r)
    requires A == (1 + d * (y1 * y1)) * (1 + d * (y2 * y2)) && G == (1 + d) * (1 + d * ((y1 * y1) * (y2 * y2)))
    ensures Cong(p, f * A, ((y1 - y2) * (y1 - y2)) * G) && Cong(p, f' * A, ((y1 + y2) * (y1 + y2)) * G)
  {
    var t, r := y1 * y2, x1 * x2;
    var plus, minus := 1, -1;
    DifferentialFactor(p, d, x1, y1, x2, y2, plus);
    DifferentialFactor(p, d, x1, y1, x2, y2, minus);
    assert plus * t == t && plus * r == r && minus * t == -t && minus * r == -r;
    assert (y1 - y2) * (y1 - y2) == y1 * y1 + y2 * y2 - 2 * t && (y1 + y2) * (y1 + y2) == y1 * y1 + y2 * y2 + 2 * t;
  }

  lemma EqualMultiples(p: int, n: int, A: int, G: int, minus: int, plus: int, f: int, f': int, v: int, v': int)
    requires IsPrime(p) && !Cong(p, n * A, 0)
    requires Cong(p, minus * n, f) && Cong(p, plus * n, f') && Cong(p, f * A, v' * G) && Cong(p, f' * A, v * G)
    ensures Cong(p, minus * v, plus * v')
  {
    Mul(p, minus * n, f, A * v, A * v);
    Mul(p, plus * n, f', A * v', A * v');
    Mul(p, f * A, v' * G, v, v);
    Mul(p, f' * A, v * G, v', v');
    assert (minus * n) * (A * v) == (n * A) * (minus * v) && (plus * n) * (A * v') == (n * A) * (plus * v');
    assert f * (A * v) == (f * A) * v && f' * (A * v') == (f' * A) * v';
    assert (v' * G) * v == (v * G) * v';
    Cancel(p, n * A, minus * v, plus * v');
  }

  /** The differential identity. */
  lemma DifferentialIdentity(p: int, d: int, x1: int, y1: int, x2: int, y2: int, yp: int, ym: int)
    requires IsPrime(p)
    requires Cong(p, y1 * y1 - x1 * x1, 1 + d * ((x1 * x1) * (y1 * y1)))
    requires Cong(p, y2 * y2 - x2 * x2, 1 + d * ((x2 * x2) * (y2 * y2)))
    requires var dl := d * ((x1 * x2) * (y1 * y2));
             && Cong(p, yp * (1 - dl), y1 * y2 + x1 * x2) && Cong(p, ym * (1 + dl), y1 * y2 - x1 * x2)
             && !Cong(p, 1 - dl, 0) && !Cong(p, 1 + dl, 0)
    requires !Cong(p, 1 + d * (y1 * y1), 0) && !Cong(p, 1 + d * (y2 * y2), 0)
    ensures Cong(p, ((1 - yp) * (1 - ym)) * ((y1 + y2) * (y1 + y2)), ((1 + yp) * (1 + ym)) * ((y1 - y2) * (y1 - y2)))
  {
    var t, r, b1, b2 := y1 * y2, x1 * x2, y1 * y1, y2 * y2;
    var dl := d * (r * t);
    var A, G := (1 + d * b1) * (1 + d * b2), (1 + d) * (1 + d * (b1 * b2));
    var f, f' := (1 - t) * (1 - t) - (dl + r) * (dl + r), (1 + t) * (1 + t) - (dl - r) * (dl - r);
    SumAndDifference(p, t, r, dl, yp, ym);
    DifferentialFactors(p, d, x1, y1, x2, y2, f, f', A, G);
    Product(p, 1 - dl, 1 + dl);
    Product(p, 1 + d * b1, 1 + d * b2);
    Product(p, (1 - dl) * (1 + dl), A);
    EqualMultiples(p, (1 - dl) * (1 + dl), A, G, (1 - yp) * (1 - ym), (1 + yp) * (1 + ym), f, f',
        (y1 + y2) * (y1 + y2), (y1 - y2) * (y1 - y2));
  }

  lemma XAddSquares(p: int, s1: int, m1: int, y1: int, s2: int, m2: int, y2: int)
    requires p > 0 && Cong(p, m1, y1 * s1) && Cong(p, m2, y2 * s2)
    ensures var t7, t8, ss := s1 * m2, m1 * s2, s1 * s2;
            && Cong(p, (t7 + t8) * (t7 + t8), (ss * ss) * ((y1 + y2) * (y1 + y2)))
            && Cong(p, (t7 - t8) * (t7 - t8), (ss * ss) * ((y1 - y2) * (y1 - y2)))
  {
    var t7, t8, ss := s1 * m2, m1 * s2, s1 * s2;
    Mul(p, s1, s1, m2, y2 * s2);
    Mul(p, m1, y1 * s1, s2, s2);
    assert s1 * (y2 * s2) == ss * y2 && (y1 * s1) * s2 == ss * y1;
    Add(p, t7, ss * y2, t8, ss * y1);
    assert ss * y2 + ss * y1 == ss * (y1 + y2) && ss * y2 - ss * y1 == ss * (y2 - y1);
    Mul(p, t7 + t8, ss * (y1 + y2), t7 + t8, ss * (y1 + y2));
    Mul(p, t7 - t8, ss * (y2 - y1), t7 - t8, ss * (y2 - y1));
    Interchange(ss, y1 + y2, ss, y1 + y2);
    Interchange(ss, y2 - y1, ss, y2 - y1);
    assert (y2 - y1) * (y2 - y1) == (y1 - y2) * (y1 - y2);
  }

  lemma MoveDenominator(p: int, a: int, b: int, q: int, q': int, u: int, v: int, v': int)
    requires IsPrime(p) && Cong(p, (a * q) * v, (b * q') * v') && Cong(p, u * q, q') && !Cong(p, q, 0)
    ensures Cong(p, a * v, b * (u * v'))
  {
    Mul(p, u * q, q', b * v', b * v');
    assert (a * q) * v == q * (a * v) && q' * (b * v') == (b * q') * v';
    Interchange(u, q, b, v');
    assert (u * b) * (q * v') == q * (b * (u * v'));
    Cancel(p, q, a * v, b * (u * v'));
  }

  lemma ClearDifference(p: int, v: int, v': int, u: int, yp: int, ym: int)
    requires IsPrime(p) && Cong(p, ((1 - yp) * (1 - ym)) * v, ((1 + yp) * (1 + ym)) * v')
    requires Cong(p, u * (1 - ym), 1 + ym) && !Cong(p, 1 - ym, 0)
    ensures Cong(p, v - u * v', yp * (v + u * v'))
  {
    var w := u * v';
    MoveDenominator(p, 1 - yp, 1 + yp, 1 - ym, 1 + ym, u, v, v');
    assert (1 - yp) * v == v - yp * v && (1 + yp) * w == w + yp * w;
    Add(p, v - yp * v, w + yp * w, yp * v - w, yp * v - w);
    assert yp * (v + w) == yp * v + yp * w;
  }

  lemma ScaleSum(p: int, k: int, U: int, v: int, W: int, w: int, y: int)
    requires p > 0 && Cong(p, U, k * v) && Cong(p, W, k * w) && Cong(p, v - w, y * (v + w))
    ensures Cong(p, U - W, y * (U + W)) && Cong(p, U + W, k * (v + w))
  {
    Add(p, U, k * v, W, k * w);
    assert k * v + k * w == k * (v + w) && k * v - k * w == k * (v - w);
    Mul(p, k, k, v - w, y * (v + w));
    Mul(p, y, y, U + W, k * (v + w));
    assert y * (k * (v + w)) == k * (y * (v + w));
  }

  lemma ScaleEquation(p: int, k: int, U: int, v: int, V: int, v': int, u: int, y: int)
    requires p > 0 && Cong(p, U, k * v) && Cong(p, V, k * v') && Cong(p, v - u * v', y * (v + u * v'))
    ensures Cong(p, U - u * V, y * (U + u * V)) && Cong(p, U + u * V, k * (v + u * v'))
  {
    var w, W := u * v', u * V;
    Mul(p, u, u, V, k * v');
    assert u * (k * v') == k * w;
    ScaleSum(p, k, U, v, W, w, y);
  }

  /** Differential addition on sums and differences. */
  lemma XAdd(p: int, s1: int, m1: int, y1: int, s2: int, m2: int, y2: int, u: int, yp: int, ym: int)
    requires IsPrime(p) && Cong(p, m1, y1 * s1) && Cong(p, m2, y2 * s2)
    requires Cong(p, ((1 - yp) * (1 - ym)) * ((y1 + y2) * (y1 + y2)), ((1 + yp) * (1 + ym)) * ((y1 - y2) * (y1 - y2)))
    requires Cong(p, u * (1 - ym), 1 + ym) && !Cong(p, 1 - ym, 0)
    ensures var t7, t8, v, v', ss := s1 * m2, m1 * s2, (y1 + y2) * (y1 + y2), (y1 - y2) * (y1 - y2), s1 * s2;
            var U, W := (t7 + t8) * (t7 + t8), u * ((t7 - t8) * (t7 - t8));
            && Cong(p, v - u * v', yp * (v + u * v'))
            && Cong(p, U - W, yp * (U + W)) && Cong(p, U + W, (ss * ss) * (v + u * v'))
  {
    var t7, t8, v, v', ss := s1 * m2, m1 * s2, (y1 + y2) * (y1 + y2), (y1 - y2) * (y1 - y2), s1 * s2;
    var U, W, k := (t7 + t8) * (t7 + t8), u * ((t7 - t8) * (t7 - t8)), ss * ss;
    ClearDifference(p, v, v', u, yp, ym);
    XAddSquares(p, s1, m1, y1, s2, m2, y2);
    ScaleEquation(p, k, U, v, (t7 - t8) * (t7 - t8), v', u, yp);
  }

  /** A sum and a difference that vanish leave nothing. */
  lemma BothZero(p: int, v: int, w: int, y: int)
    requires IsPrime(p) && p > 2 && Cong(p, v + w, 0) && (Cong(p, v - w, y * (v + w)) || Cong(p, v - w, 0))
    ensures Cong(p, v, 0) && Cong(p, w, 0)
  {
    Product(p, y, v + w);
    Add(p, v + w, 0, v - w, 0);
    assert (v + w) + (v - w) == 2 * v && (v + w) - (v - w) == 2 * w;
    Product(p, 2, v);
    Product(p, 2, w);
    SmallUnits(p);
  }

  /** The result of a differential addition is a point of the projective line. */
  lemma XAddNonZero(p: int, y1: int, y2: int, x1: int, x2: int, u: int, yp: int, ym: int)
    requires IsPrime(p) && p > 2 && Cong(p, u * (1 - ym), 1 + ym) && !Cong(p, u, 0)
    requires var v, w := (y1 + y2) * (y1 + y2), u * ((y1 - y2) * (y1 - y2)); Cong(p, v - w, yp * (v + w))
    requires Cong(p, y1, 0) && Cong(p, y2, 0)
             ==> Cong(p, x1 * x1, -1) && Cong(p, x2 * x2, -1) && Cong(p, ym, -(x1 * x2))
    requires !Cong(p, 1 - ym, 0)
    ensures !Cong(p, (y1 + y2) * (y1 + y2) + u * ((y1 - y2) * (y1 - y2)), 0)
  {
    var v, v' := (y1 + y2) * (y1 + y2), (y1 - y2) * (y1 - y2);
    var w := u * v';
    if Cong(p, v + w, 0) {
      BothZero(p, v, w, yp);
      Product(p, u, v');
      Product(p, y1 + y2, y1 + y2);
      Product(p, y1 - y2, y1 - y2);
      BothZero(p, y1, y2, 1);
      Mul(p, x1 * x1, -1, x2 * x2, -1);
      Interchange(x1, x1, x2, x2);
      FactorDifference(p, x1 * x2, 1);
      Add(p, 0, 0, x1 * x2, if Cong(p, x1 * x2, 1) then 1 else -1);
      Add(p, 1, 1, ym, if Cong(p, x1 * x2, 1) then -1 else 1);
      Product(p, u, 1 - ym);
    }
  }
}
