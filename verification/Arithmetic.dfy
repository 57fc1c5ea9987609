/** Powers and divisions, for the modules that count in them. */
module Arithmetic {
  function Min(a: int, b: int): int { if a < b then a else b }

  function Max(a: int, b: int): int { if a < b then b else a }

  function Pow(b: nat, n: nat): (p: nat)
    ensures b > 0 ==> p > 0
  {
    if n == 0 then 1
    else
      MulNat(b, Pow(b, n - 1));
      b * Pow(b, n - 1)
  }

  function Pow2(n: nat): (p: nat)
    ensures p > 0
  {
    Pow(2, n)
  }

  /** One power and the next. */
  lemma PowNext(b: nat, n: nat)
    ensures Pow(b, 0) == 1 && Pow(b, n + 1) == b * Pow(b, n)
  {
  }

  lemma Pow2Next(n: nat)
    ensures Pow2(0) == 1 && Pow2(n + 1) == 2 * Pow2(n)
  {
  }

  lemma MulNat(a: nat, b: nat)
    ensures a * b >= 0
    ensures a > 0 && b > 0 ==> a * b > 0
  {
  }

  lemma MulMonotone(c: nat, x: int, y: int)
    requires x <= y
    ensures c * x <= c * y
  {
    if c > 0 {
      MulMonotone(c - 1, x, y);
      assert c * x == (c - 1) * x + x && c * y == (c - 1) * y + y;
    }
  }

  lemma MulStrict(c: nat, x: int, y: int)
    requires x < y && c > 0
    ensures c * x < c * y
  {
    MulMonotone(c, x, y - 1);
    assert c * y == c * (y - 1) + c;
  }

  lemma MulDistribute(a: int, b: int, c: int)
    ensures (a + b) * c == a * c + b * c
    ensures (a - b) * c == a * c - b * c
  {
  }

  lemma MulAssociate(a: int, b: int, c: int)
    ensures a * (b * c) == a * b * c
    ensures a * b * c == a * c * b
  {
  }

  /** The only quotient and remainder. */
  lemma DivModIs(a: int, d: nat, q: int, r: int)
    requires a == q * d + r && 0 <= r < d
    ensures a / d == q && a % d == r
  {
    var q', r' := a / d, a % d;
    assert a == q' * d + r' && 0 <= r' < d;
    MulDistribute(q, q', d);
    if q < q' {
      MulMonotone(d, 1, q' - q);
    } else if q' < q {
      MulMonotone(d, 1, q - q');
    }
  }

  lemma {:induction false} PowAdd(b: nat, m: nat, n: nat)
    ensures Pow(b, m + n) == Pow(b, m) * Pow(b, n)
  {
    if m > 0 {
      PowAdd(b, m - 1, n);
      MulAssociate(b, Pow(b, m - 1), Pow(b, n));
    }
  }

  lemma Pow2Add(m: nat, n: nat)
    ensures Pow2(m + n) == Pow2(m) * Pow2(n)
  {
    PowAdd(2, m, n);
  }

  lemma {:induction false} PowMonotone(b: nat, m: nat, n: nat)
    requires b > 0 && m <= n
    ensures Pow(b, m) <= Pow(b, n)
  {
    PowAdd(b, m, n - m);
    MulMonotone(Pow(b, m), 1, Pow(b, n - m));
  }

  lemma Pow2Order(m: int, n: int)
    ensures 0 <= m <= n ==> Pow2(m) <= Pow2(n)
  {
    if 0 <= m <= n {
      PowMonotone(2, m, n);
    }
  }

  /** Whole division of naturals. */
  function Div(a: nat, d: nat): (q: nat)
    requires d > 0
    ensures q <= a && a == q * d + a % d
  {
    DivAtMost(a, d);
    a / d
  }

  lemma DivAtMost(a: nat, d: nat)
    requires d > 0
    ensures 0 <= a / d <= a && a == a / d * d + a % d
  {
    var q := a / d;
    assert a == d * q + a % d;
    MulMonotone(q, 1, d);
  }

  lemma Below(low: nat, x: nat, y: nat, p: nat)
    requires low < p && x < y
    ensures low + x * p < y * p
  {
    MulMonotone(p, x + 1, y);
    MulDistribute(x, 1, p);
  }

  lemma DivLess(a: nat, d: nat, k: nat)
    requires d > 0
    ensures a / d < k <==> a < k * d
  {
    var q := Div(a, d);
    if q < k {
      MulMonotone(d, q + 1, k);
      MulDistribute(q, 1, d);
    } else {
      MulMonotone(d, k, q);
    }
  }

  lemma DivDiv(a: nat, d: nat, f: nat)
    requires d > 0 && f > 0
    ensures d * f > 0 && a / d / f == a / (d * f)
  {
    MulNat(d, f);
    var q, r := a / d, a % d;
    var q', r' := q / f, q % f;
    assert a == q * d + r && q == q' * f + r';
    assert a == q' * (d * f) + (r' * d + r) by {
      MulDistribute(q' * f, r', d);
      assert q' * f * d == q' * (d * f);
    }
    Below(r, r', f, d);
    MulNat(r', d);
    DivModIs(a, d * f, q', r' * d + r);
  }

  lemma DivMonotone(v: nat, v': nat, g: nat)
    requires g > 0 && v <= v'
    ensures v - v % g <= v' - v' % g
  {
    var q, q' := Div(v, g), Div(v', g);
    if q > q' {
      MulMonotone(g, q' + 1, q);
      MulDistribute(q', 1, g);
    } else {
      MulMonotone(g, q, q');
    }
  }
}
