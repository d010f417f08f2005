/**
  The polynomial identity behind associativity of the addition law.

  For three points write s for x y, n for x^2 + y^2 and c for y^2 - x^2. Cleared of denominators,
  the x-coordinates of (P1 + P2) + P3 and P1 + (P2 + P3) differ by a multiple of
  Defect(a1, a2, a3) with a = d s^2, and the defect vanishes when each a is c - 1, which is what
  the curve equation says of a point.
*/
module EdwardsAssociativity {
  import opened Congruence

  /** The defect of associativity. */
  function Defect(a1: int, a2: int, a3: int, s1: int, s2: int, s3: int, n1: int, n2: int, n3: int, sum: int, u1: int,
                  u3: int): int {
    s1 * u3 - s3 * u1 - sum * (s3 * n1 - s1 * n3)
    + a1 * ((s2 * n3 + s3 * n2) * u3) - a3 * ((s1 * n2 + s2 * n1) * u1)
    - (a3 - a1) * (s2 * sum) - (a2 * a3) * (s1 * u3) + (a1 * a2) * (s3 * u1)
  }

  lemma Distribute(a: int, b: int, c: int)
    ensures (a - b) * c == a * c - b * c
  {}

  lemma Expand(a: int, b: int, c: int, e: int)
    ensures (a + b) * (1 - c + e) == a + b - a * c - b * c + a * e + b * e
  {}

  lemma Distribute9(k: int, t1: int, t2: int, t3: int, t4: int, t5: int, t6: int, t7: int, t8: int, t9: int)
    ensures k * (t1 - t2 - t3 + t4 - t5 - (t6 - t7) - t8 + t9)
         == k * t1 - k * t2 - k * t3 + k * t4 - k * t5 - k * t6 + k * t7 - k * t8 + k * t9
  {}

  lemma Assemble(sum: int, b: int, c: int, e: int, b': int, c': int, e': int, k: int,
                 t1: int, t2: int, t3: int, t4: int, t5: int, t6: int, t7: int, t8: int, t9: int)
    requires b == k * t1 && b' == k * t2 && sum * e - sum * e' == -(k * t3)
    requires b * e == k * t4 && b' * e' == k * t5 && sum * c == k * t6 && sum * c' == k * t7
    requires b * c == k * t8 && b' * c' == k * t9
    ensures (sum + b) * (1 - c + e) - (sum + b') * (1 - c' + e') == k * (t1 - t2 - t3 + t4 - t5 - (t6 - t7) - t8 + t9)
  {
    Expand(sum, b, c, e);
    Expand(sum, b', c', e');
    Distribute9(k, t1, t2, t3, t4, t5, t6, t7, t8, t9);
  }

  lemma TermA(d: int, s: int, t: int, u: int)
    ensures (d * (s * t)) * u == (d * t) * (s * u)
  {}

  lemma TermB(d: int, s: int, t: int, r: int, u: int)
    ensures ((d * (s * t)) * u) * ((d * (t * r)) * (d * (t * r)))
            == (d * t) * (((d * (t * t)) * (d * (r * r))) * (s * u))
  {
    TermA(d, s, t, u);
    Interchange(d, t * r, d, t * r);
    Interchange(t, r, t, r);
    Interchange(d, t * t, d, r * r);
  }

  lemma TermC(d: int, s: int, t: int, u: int, k: int)
    ensures ((d * (s * t)) * u) * (d * s * k) == (d * t) * ((d * (s * s)) * (k * u))
  {
    TermA(d, s, t, u);
    assert (s * u) * (d * s * k) == (d * (s * s)) * (k * u);
  }

  lemma TermD(d: int, s: int, t: int, sum: int)
    ensures sum * ((d * (s * t)) * (d * (s * t))) == (d * t) * ((d * (s * s)) * (t * sum))
  {
    Interchange(d, s * t, d, s * t);
    Interchange(s, t, s, t);
    Interchange(d, t, d * (s * s), t * sum);
  }

  lemma TermE(d: int, s1: int, s2: int, s3: int, n1: int, n2: int, n3: int, sum: int)
    ensures sum * (d * s1 * (s2 * n3 + s3 * n2)) - sum * (d * s3 * (s1 * n2 + s2 * n1))
            == -((d * s2) * (sum * (s3 * n1 - s1 * n3)))
  {
    var k1, k3 := s2 * n3 + s3 * n2, s1 * n2 + s2 * n1;
    var r := s3 * n1 - s1 * n3;
    assert s1 * k1 - s3 * k3 == -(s2 * r);
    assert d * s1 * k1 - d * s3 * k3 == d * (s1 * k1 - s3 * k3);
    assert d * -(s2 * r) == -((d * s2) * r);
    assert sum * -((d * s2) * r) == -((d * s2) * (sum * r));
  }

  lemma DefectFromFractions(d: int, s1: int, s2: int, s3: int, n1: int, n2: int, n3: int, sum: int, u1: int, u3: int)
    ensures (sum + d * (s1 * s2) * u3) * (1 - (d * (s2 * s3)) * (d * (s2 * s3)) + d * s1 * (s2 * n3 + s3 * n2))
          - (sum + d * (s2 * s3) * u1) * (1 - (d * (s1 * s2)) * (d * (s1 * s2)) + d * s3 * (s1 * n2 + s2 * n1))
         == (d * s2) * Defect(d * (s1 * s1), d * (s2 * s2), d * (s3 * s3), s1, s2, s3, n1, n2, n3, sum, u1, u3)
  {
    var k1, k3 := s2 * n3 + s3 * n2, s1 * n2 + s2 * n1;
    var e12, e23 := d * (s1 * s2), d * (s2 * s3);
    var a1, a2, a3 := d * (s1 * s1), d * (s2 * s2), d * (s3 * s3);
    TermA(d, s1, s2, u3);
    TermA(d, s3, s2, u1);
    TermB(d, s1, s2, s3, u3);
    TermB(d, s3, s2, s1, u1);
    TermC(d, s1, s2, u3, k1);
    TermC(d, s3, s2, u1, k3);
    TermD(d, s1, s2, sum);
    TermD(d, s3, s2, sum);
    TermE(d, s1, s2, s3, n1, n2, n3, sum);
    assert a2 * a1 == a1 * a2 && s2 * s3 == s3 * s2 && s2 * s1 == s1 * s2;
    Assemble(sum, e12 * u3, e23 * e23, d * s1 * k1, e23 * u1, e12 * e12, d * s3 * k3, d * s2,
             s1 * u3, s3 * u1, sum * (s3 * n1 - s1 * n3), a1 * (k1 * u3), a3 * (k3 * u1),
             a3 * (s2 * sum), a1 * (s2 * sum), (a2 * a3) * (s1 * u3), (a1 * a2) * (s3 * u1));
    Distribute(a3, a1, s2 * sum);
  }

  // In the coordinates p = y + x and q = y - x the identity falls into four homogeneous parts.

  lemma Factor(a: int, b: int, x: int, y: int)
    ensures a * b * (x * x - y * y) - x * y * (a * a - b * b) == (a * x + b * y) * (b * x - a * y)
  {}

  /** The part of degree three in every point. */
  lemma Part333(p1: int, q1: int, p2: int, q2: int, p3: int, q3: int, v1: int, v3: int)
    requires v1 == p1 * (q2 * q3) - q1 * (p2 * p3) && v3 == p3 * (q1 * q2) - q3 * (p1 * p2)
    ensures ((p1 * q1) * ((p2 * p3) * (p2 * p3) - (q2 * q3) * (q2 * q3)) - (p2 * p3) * (q2 * q3)
            * (p1 * p1 - q1 * q1)) * v3
         == ((p3 * q3) * ((p1 * p2) * (p1 * p2) - (q1 * q2) * (q1 * q2)) - (p1 * p2) * (q1 * q2)
             * (p3 * p3 - q3 * q3)) * v1
  {
    Factor(p1, q1, p2 * p3, q2 * q3);
    Factor(p3, q3, p1 * p2, q1 * q2);
    var s := p1 * (p2 * p3) + q1 * (q2 * q3);
    assert s == p3 * (p1 * p2) + q3 * (q1 * q2);
    assert (s * -v1) * v3 == (s * -v3) * v1;
  }

  lemma Collect(m: int, n: int, c: int, e: int, p: int, q: int)
    ensures m * (q * c - p * e) - n * (q * e - p * c) == q * (m * c - n * e) + p * (n * c - m * e)
  {}

  lemma Linear(a: int, b: int, c: int, e: int, p: int, q: int)
    ensures (a * e - c * b) * (q * c - p * e) - (a * c - e * b) * (q * e - p * c) == (c * c - e * e) * (p * a - q * b)
  {
    var m, n, k := a * e - c * b, a * c - e * b, c * c - e * e;
    assert m * c - n * e == -(k * b);
    assert n * c - m * e == k * a;
    Collect(m, n, c, e, p, q);
    assert q * -(k * b) + p * (k * a) == k * (p * a - q * b);
  }

  /** The part of degree one in the second point. */
  lemma Part313(p1: int, q1: int, p2: int, q2: int, p3: int, q3: int, v1: int, v3: int, s: int)
    requires v1 == q2 * (p1 * q3) - p2 * (q1 * p3) && v3 == q2 * (q1 * p3) - p2 * (p1 * q3)
    requires s == p2 * (p1 * p3) - q2 * (q1 * q3)
    ensures (p3 * q3) * (p1 * p1 - q1 * q1) * v3 - (p1 * q1) * (p3 * p3 - q3 * q3) * v1
         == ((p3 * p3) * (q1 * q1) - (p1 * p1) * (q3 * q3)) * s
  {
    var a, b, c, e := p1 * p3, q1 * q3, q1 * p3, p1 * q3;
    Interchange(p3, q3, p1, p1);
    Interchange(p3, q3, q1, q1);
    Interchange(p1, q1, p3, p3);
    Interchange(p1, q1, q3, q3);
    Interchange(q1, q1, p3, p3);
    Interchange(p1, p1, q3, q3);
    Linear(a, b, c, e, p2, q2);
  }

  lemma Collect'(m: int, n: int, x: int, y: int, p: int, q: int)
    ensures m * (p * x - q * y) + n * (p * y - q * x) == p * (m * x + n * y) - q * (m * y + n * x)
  {}

  lemma Linear'(x: int, y: int, c: int, e: int, p: int, q: int)
    ensures (x * c - e * y) * (p * x - q * y) + (x * e - c * y) * (p * y - q * x)
            + (x * x - y * y) * (q * e - p * c) == 0
  {
    var m, n, k := x * c - e * y, x * e - c * y, x * x - y * y;
    assert m * x + n * y == k * c;
    assert m * y + n * x == k * e;
    Collect'(m, n, x, y, p, q);
    assert p * (k * c) - q * (k * e) + k * (q * e - p * c) == 0;
  }

  /** The part of degree one in the third point; by symmetry also the one for the first. */
  lemma Part331(p1: int, q1: int, p2: int, q2: int, p3: int, q3: int, v1: int, v3: int, s: int)
    requires v1 == q3 * (p1 * q2) - p3 * (q1 * p2) && v3 == p3 * (q1 * q2) - q3 * (p1 * p2)
    requires s == p3 * (p1 * p2) - q3 * (q1 * q2)
    ensures (p1 * q1) * (p2 * p2 - q2 * q2) * s + (p2 * q2) * (p1 * p1 - q1 * q1) * v3
            + ((p1 * p1) * (p2 * p2) - (q1 * q1) * (q2 * q2)) * v1 == 0
  {
    var x, y, c, e := p1 * p2, q1 * q2, q1 * p2, p1 * q2;
    Interchange(p1, q1, p2, p2);
    Interchange(p1, q1, q2, q2);
    Interchange(p2, q2, p1, p1);
    Interchange(p2, q2, q1, q1);
    Interchange(p1, p1, p2, p2);
    Interchange(q1, q1, q2, q2);
    Linear'(x, y, c, e, p3, q3);
  }

  lemma MinusOnes(c1: int, c2: int, c3: int, f: int, g: int, h: int, v: int, w: int)
    ensures (c1 - 1) * v == c1 * v - v && (c3 - 1) * w == c3 * w - w
    ensures (c3 - 1 - (c1 - 1)) * h == c3 * h - c1 * h
    ensures ((c2 - 1) * (c3 - 1)) * f == (c2 * c3) * f - c2 * f - c3 * f + f
    ensures ((c1 - 1) * (c2 - 1)) * g == (c1 * c2) * g - c1 * g - c2 * g + g
  {}

  /** The defect as the sum of its homogeneous parts. */
  lemma DefectSum(c1: int, c2: int, c3: int, f: int, g: int, h: int, v: int, w: int, z: int)
    requires c1 * v - (c2 * c3) * f == c3 * w - (c1 * c2) * g
    requires c3 * f - c1 * g == z
    requires c1 * h + c2 * f + w == 0
    requires c3 * h + c2 * g + v == 0
    ensures f - g - z + (c1 - 1) * v - (c3 - 1) * w - (c3 - 1 - (c1 - 1)) * h
            - ((c2 - 1) * (c3 - 1)) * f + ((c1 - 1) * (c2 - 1)) * g == 0
  {
    MinusOnes(c1, c2, c3, f, g, h, v, w);
  }

  lemma Times8(c: int, k: int, u: int)
    ensures c * (4 * k) * (2 * u) == 8 * (c * (k * u))
  {}

  lemma Halved333(p1: int, q1: int, p2: int, q2: int, p3: int, q3: int, s1: int, s3: int, k1: int, k3: int, u1: int,
                  u3: int)
    requires 4 * s1 == p1 * p1 - q1 * q1 && 4 * s3 == p3 * p3 - q3 * q3
    requires 4 * k1 == (p2 * p2) * (p3 * p3) - (q2 * q2) * (q3 * q3)
    requires 4 * k3 == (p1 * p1) * (p2 * p2) - (q1 * q1) * (q2 * q2)
    requires 2 * u1 == p1 * (q2 * q3) - q1 * (p2 * p3) && 2 * u3 == p3 * (q1 * q2) - q3 * (p1 * p2)
    ensures var c1, c2, c3 := p1 * q1, p2 * q2, p3 * q3;
            c1 * (k1 * u3) - (c2 * c3) * (s1 * u3) == c3 * (k3 * u1) - (c1 * c2) * (s3 * u1)
  {
    var c1, c2, c3 := p1 * q1, p2 * q2, p3 * q3;
    Part333(p1, q1, p2, q2, p3, q3, 2 * u1, 2 * u3);
    Interchange(p2, p3, p2, p3);
    Interchange(q2, q3, q2, q3);
    Interchange(p1, p2, p1, p2);
    Interchange(q1, q2, q1, q2);
    Interchange(p2, p3, q2, q3);
    Interchange(p1, p2, q1, q2);
    Distribute(c1 * (4 * k1), (c2 * c3) * (4 * s1), 2 * u3);
    Distribute(c3 * (4 * k3), (c1 * c2) * (4 * s3), 2 * u1);
    Times8(c1, k1, u3);
    Times8(c2 * c3, s1, u3);
    Times8(c3, k3, u1);
    Times8(c1 * c2, s3, u1);
  }

  lemma Halved313(p1: int, q1: int, p2: int, q2: int, p3: int, q3: int, s1: int, s3: int, r: int, sum: int, u1: int,
                  u3: int)
    requires 4 * s1 == p1 * p1 - q1 * q1 && 4 * s3 == p3 * p3 - q3 * q3
    requires 4 * r == (p3 * p3) * (q1 * q1) - (q3 * q3) * (p1 * p1)
    requires 2 * u1 == p1 * (q2 * q3) - q1 * (p2 * p3) && 2 * u3 == p3 * (q1 * q2) - q3 * (p1 * p2)
    requires 2 * sum == p3 * (p1 * p2) - q3 * (q1 * q2)
    ensures (p3 * q3) * (s1 * u3) - (p1 * q1) * (s3 * u1) == sum * r
  {
    assert 2 * u1 == q2 * (p1 * q3) - p2 * (q1 * p3) && 2 * u3 == q2 * (q1 * p3) - p2 * (p1 * q3);
    assert 2 * sum == p2 * (p1 * p3) - q2 * (q1 * q3);
    Part313(p1, q1, p2, q2, p3, q3, 2 * u1, 2 * u3, 2 * sum);
    Times8(p3 * q3, s1, u3);
    Times8(p1 * q1, s3, u1);
    assert (4 * r) * (2 * sum) == 8 * (sum * r);
    assert (q3 * q3) * (p1 * p1) == (p1 * p1) * (q3 * q3);
  }

  lemma Halved331(p1: int, q1: int, p2: int, q2: int, p3: int, q3: int, s1: int, s2: int, k: int, sum: int, u1: int,
                  u3: int)
    requires 4 * s1 == p1 * p1 - q1 * q1 && 4 * s2 == p2 * p2 - q2 * q2
    requires 4 * k == (p1 * p1) * (p2 * p2) - (q1 * q1) * (q2 * q2)
    requires 2 * u1 == q3 * (p1 * q2) - p3 * (q1 * p2) && 2 * u3 == p3 * (q1 * q2) - q3 * (p1 * p2)
    requires 2 * sum == p3 * (p1 * p2) - q3 * (q1 * q2)
    ensures (p1 * q1) * (s2 * sum) + (p2 * q2) * (s1 * u3) + k * u1 == 0
  {
    Part331(p1, q1, p2, q2, p3, q3, 2 * u1, 2 * u3, 2 * sum);
    Times8(p1 * q1, s2, sum);
    Times8(p2 * q2, s1, u3);
    Times8(1, k, u1);
  }

  lemma Permuted(a: int, b: int, c: int)
    ensures a * (b * c) == a * (c * b) == b * (a * c) == b * (c * a) == c * (a * b) == c * (b * a)
  {}

  lemma Swaps(p1: int, q1: int, p2: int, q2: int, p3: int, q3: int)
    ensures p1 * (q2 * q3) - q1 * (p2 * p3) == q3 * (p1 * q2) - p3 * (q1 * p2) == p1 * (q3 * q2) - q1 * (p3 * p2)
    ensures p3 * (q1 * q2) - q3 * (p1 * p2) == q1 * (p3 * q2) - p1 * (q3 * p2)
    ensures p3 * (p1 * p2) - q3 * (q1 * q2) == p1 * (p3 * p2) - q1 * (q3 * q2)
    ensures (p2 * p2) * (p3 * p3) == (p3 * p3) * (p2 * p2) && (q2 * q2) * (q3 * q3) == (q3 * q3) * (q2 * q2)
  {
    Permuted(p1, q2, q3);
    Permuted(q1, p2, p3);
    Permuted(p3, q1, q2);
    Permuted(q3, p1, p2);
    Permuted(p3, p1, p2);
    Permuted(q3, q1, q2);
  }

  lemma Collected(p1: int, q1: int, p2: int, q2: int, p3: int, q3: int, s1: int, s2: int, s3: int, k1: int, k3: int,
                  r: int,
                  sum: int, u1: int, u3: int)
    requires 4 * s1 == p1 * p1 - q1 * q1 && 4 * s2 == p2 * p2 - q2 * q2 && 4 * s3 == p3 * p3 - q3 * q3
    requires 4 * k1 == (p2 * p2) * (p3 * p3) - (q2 * q2) * (q3 * q3)
    requires 4 * k3 == (p1 * p1) * (p2 * p2) - (q1 * q1) * (q2 * q2)
    requires 4 * r == (p3 * p3) * (q1 * q1) - (q3 * q3) * (p1 * p1)
    requires 2 * u1 == p1 * (q2 * q3) - q1 * (p2 * p3) && 2 * u3 == p3 * (q1 * q2) - q3 * (p1 * p2)
    requires 2 * sum == p3 * (p1 * p2) - q3 * (q1 * q2)
    ensures var c1, c2, c3 := p1 * q1, p2 * q2, p3 * q3;
            s1 * u3 - s3 * u1 - sum * r + (c1 - 1) * (k1 * u3) - (c3 - 1) * (k3 * u1)
            - (c3 - 1 - (c1 - 1)) * (s2 * sum) - ((c2 - 1) * (c3 - 1)) * (s1 * u3)
                + ((c1 - 1) * (c2 - 1)) * (s3 * u1) == 0
  {
    Halved333(p1, q1, p2, q2, p3, q3, s1, s3, k1, k3, u1, u3);
    Halved313(p1, q1, p2, q2, p3, q3, s1, s3, r, sum, u1, u3);
    Swaps(p1, q1, p2, q2, p3, q3);
    Halved331(p1, q1, p2, q2, p3, q3, s1, s2, k3, sum, u1, u3);
    Halved331(p3, q3, p2, q2, p1, q1, s3, s2, k1, sum, u3, u1);
    DefectSum(p1 * q1, p2 * q2, p3 * q3, s1 * u3, s3 * u1, s2 * sum, k1 * u3, k3 * u1, sum * r);
  }

  lemma Niels(x: int, y: int, p: int, q: int)
    requires p == y + x && q == y - x
    ensures p * q == y * y - x * x && p * p - q * q == 4 * (x * y) && p * p + q * q == 2 * (x * x + y * y)
  {}

  lemma NielsTriple(x1: int, y1: int, x2: int, y2: int, x3: int, y3: int)
    ensures var p1, q1, p2, q2, p3, q3 := y1 + x1, y1 - x1, y2 + x2, y2 - x2, y3 + x3, y3 - x3;
            var b, a := y1 * y2 + x1 * x2, x1 * y2 + x2 * y1;
            && 2 * (x3 * b + y3 * a) == p3 * (p1 * p2) - q3 * (q1 * q2)
            && 2 * (x3 * b - y3 * a) == p3 * (q1 * q2) - q3 * (p1 * p2)
  {
    var p1, q1, p2, q2 := y1 + x1, y1 - x1, y2 + x2, y2 - x2;
    var b, a := y1 * y2 + x1 * x2, x1 * y2 + x2 * y1;
    assert p1 * p2 == b + a && q1 * q2 == b - a;
    assert (y3 + x3) * (b + a) - (y3 - x3) * (b - a) == 2 * (x3 * b + y3 * a);
    assert (y3 + x3) * (b - a) - (y3 - x3) * (b + a) == 2 * (x3 * b - y3 * a);
  }

  lemma NielsPair(s: int, n: int, t: int, m: int, a: int, b: int, c: int, d: int)
    requires a - b == 4 * s && a + b == 2 * n && c - d == 4 * t && c + d == 2 * m
    ensures 4 * (s * m + t * n) == a * c - b * d
    ensures 4 * (s * m - t * n) == a * d - b * c
  {
    assert (a - b) * (c + d) == 8 * (s * m) && (a + b) * (c - d) == 8 * (t * n);
  }

  /** The defect vanishes when each a is c - 1. */
  lemma DefectVanishes(x1: int, y1: int, x2: int, y2: int, x3: int, y3: int, sum: int, u1: int, u3: int)
    requires sum == x3 * (y1 * y2 + x1 * x2) + y3 * (x1 * y2 + x2 * y1)
    requires u1 == x1 * (y2 * y3 + x2 * x3) - y1 * (x2 * y3 + x3 * y2)
    requires u3 == x3 * (y1 * y2 + x1 * x2) - y3 * (x1 * y2 + x2 * y1)
    ensures Defect(y1 * y1 - x1 * x1 - 1, y2 * y2 - x2 * x2 - 1, y3 * y3 - x3 * x3 - 1,
                   x1 * y1, x2 * y2, x3 * y3, x1 * x1 + y1 * y1, x2 * x2 + y2 * y2, x3 * x3 + y3 * y3, sum, u1, u3) == 0
  {
    var p1, q1, p2, q2, p3, q3 := y1 + x1, y1 - x1, y2 + x2, y2 - x2, y3 + x3, y3 - x3;
    var s1, s2, s3 := x1 * y1, x2 * y2, x3 * y3;
    var n1, n2, n3 := x1 * x1 + y1 * y1, x2 * x2 + y2 * y2, x3 * x3 + y3 * y3;
    var k1, k3, r := s2 * n3 + s3 * n2, s1 * n2 + s2 * n1, s3 * n1 - s1 * n3;
    Niels(x1, y1, p1, q1);
    Niels(x2, y2, p2, q2);
    Niels(x3, y3, p3, q3);
    NielsTriple(x1, y1, x2, y2, x3, y3);
    NielsTriple(x2, y2, x3, y3, x1, y1);
    NielsPair(s2, n2, s3, n3, p2 * p2, q2 * q2, p3 * p3, q3 * q3);
    NielsPair(s1, n1, s2, n2, p1 * p1, q1 * q1, p2 * p2, q2 * q2);
    NielsPair(s3, n3, s1, n1, p3 * p3, q3 * q3, p1 * p1, q1 * q1);
    Collected(p1, q1, p2, q2, p3, q3, s1, s2, s3, k1, k3, r, sum, u1, u3);
  }

  lemma DefectSubstitution(a1: int, a2: int, a3: int, b1: int, b2: int, b3: int,
                           f: int, g: int, h: int, v: int, w: int)
    ensures (a1 * v - a3 * w - (a3 - a1) * h - (a2 * a3) * f + (a1 * a2) * g)
          - (b1 * v - b3 * w - (b3 - b1) * h - (b2 * b3) * f + (b1 * b2) * g)
         == (v + h + a2 * g) * (a1 - b1) + -(w + h + a2 * f) * (a3 - b3) + (b1 * g - b3 * f) * (a2 - b2) + 0 * 0 + 0 * 0
  {}

  lemma DefectCong(m: int, a1: int, a2: int, a3: int, x1: int, y1: int, x2: int, y2: int, x3: int, y3: int, sum: int,
                   u1: int, u3: int)
    requires m > 0
    requires sum == x3 * (y1 * y2 + x1 * x2) + y3 * (x1 * y2 + x2 * y1)
    requires u1 == x1 * (y2 * y3 + x2 * x3) - y1 * (x2 * y3 + x3 * y2)
    requires u3 == x3 * (y1 * y2 + x1 * x2) - y3 * (x1 * y2 + x2 * y1)
    requires Cong(m, a1, y1 * y1 - x1 * x1 - 1) && Cong(m, a2, y2 * y2 - x2 * x2 - 1)
             && Cong(m, a3, y3 * y3 - x3 * x3 - 1)
    ensures Cong(m,
            Defect(a1, a2, a3, x1 * y1, x2 * y2, x3 * y3, x1 * x1 + y1 * y1, x2 * x2 + y2 * y2, x3 * x3 + y3 * y3,
                           sum, u1, u3), 0)
  {
    var s1, s2, s3 := x1 * y1, x2 * y2, x3 * y3;
    var n1, n2, n3 := x1 * x1 + y1 * y1, x2 * x2 + y2 * y2, x3 * x3 + y3 * y3;
    var b1, b2, b3 := y1 * y1 - x1 * x1 - 1, y2 * y2 - x2 * x2 - 1, y3 * y3 - x3 * x3 - 1;
    var f, g, h, v, w := s1 * u3, s3 * u1, s2 * sum, (s2 * n3 + s3 * n2) * u3, (s1 * n2 + s2 * n1) * u1;
    DefectVanishes(x1, y1, x2, y2, x3, y3, sum, u1, u3);
    DefectSubstitution(a1, a2, a3, b1, b2, b3, f, g, h, v, w);
    Difference(m, a1, b1);
    Difference(m, a2, b2);
    Difference(m, a3, b3);
    Combine5(m, v + h + a2 * g, a1 - b1, -(w + h + a2 * f), a3 - b3, b1 * g - b3 * f, a2 - b2, 0, 0, 0, 0);
  }

  /** Cleared of denominators, the two x-coordinates agree modulo m. */
  lemma AssociativityIdentity(m: int, d: int, x1: int, y1: int, x2: int, y2: int, x3: int, y3: int, sum: int, u1: int,
                              u3: int)
    requires m > 0
    requires sum == x3 * (y1 * y2 + x1 * x2) + y3 * (x1 * y2 + x2 * y1)
    requires u1 == x1 * (y2 * y3 + x2 * x3) - y1 * (x2 * y3 + x3 * y2)
    requires u3 == x3 * (y1 * y2 + x1 * x2) - y3 * (x1 * y2 + x2 * y1)
    requires Cong(m, d * ((x1 * y1) * (x1 * y1)), y1 * y1 - x1 * x1 - 1)
    requires Cong(m, d * ((x2 * y2) * (x2 * y2)), y2 * y2 - x2 * x2 - 1)
    requires Cong(m, d * ((x3 * y3) * (x3 * y3)), y3 * y3 - x3 * x3 - 1)
    ensures var s1, s2, s3 := x1 * y1, x2 * y2, x3 * y3;
            var n1, n2, n3 := x1 * x1 + y1 * y1, x2 * x2 + y2 * y2, x3 * x3 + y3 * y3;
            Cong(m, (sum + d * (s1 * s2) * u3) * (1 - (d * (s2 * s3)) * (d * (s2 * s3)) + d * s1 * (s2 * n3 + s3 * n2)),
                    (sum + d * (s2 * s3) * u1) * (1 - (d * (s1 * s2)) * (d * (s1 * s2)) + d * s3 * (s1 * n2 + s2 * n1)))
  {
    var s1, s2, s3 := x1 * y1, x2 * y2, x3 * y3;
    var n1, n2, n3 := x1 * x1 + y1 * y1, x2 * x2 + y2 * y2, x3 * x3 + y3 * y3;
    var a1, a2, a3 := d * (s1 * s1), d * (s2 * s2), d * (s3 * s3);
    DefectFromFractions(d, s1, s2, s3, n1, n2, n3, sum, u1, u3);
    DefectCong(m, a1, a2, a3, x1, y1, x2, y2, x3, y3, sum, u1, u3);
    var e := Defect(a1, a2, a3, s1, s2, s3, n1, n2, n3, sum, u1, u3);
    Mul(m, d * s2, d * s2, e, 0);
    Difference(m, (sum + d * (s1 * s2) * u3) * (1 - (d * (s2 * s3)) * (d * (s2 * s3)) + d * s1 * (s2 * n3 + s3 * n2)),
                  (sum + d * (s2 * s3) * u1) * (1 - (d * (s1 * s2)) * (d * (s1 * s2)) + d * s3 * (s1 * n2 + s2 * n1)));
  }
}
