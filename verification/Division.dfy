/** Powers of two, and division by them, as bit buffers and words need it. */
module Division {
  function Pow2(k: nat): (r: nat)
    ensures r >= 1
  {
    if k == 0 then 1 else 2 * Pow2(k - 1)
  }

  lemma {:induction false} PowAdd(k: nat, j: nat)
    ensures Pow2(k + j) == Pow2(k) * Pow2(j)
    decreases j
  {
    if j > 0 {
      PowAdd(k, j - 1);
      assert Pow2(k) * (2 * Pow2(j - 1)) == 2 * (Pow2(k) * Pow2(j - 1));
    }
  }

  lemma Pow2Zero()
    ensures Pow2(0) == 1
  {
  }

  lemma Pow2Of8()
    ensures Pow2(8) == 256
  {
    assert Pow2(4) == 16;
    PowAdd(4, 4);
  }

  lemma AtLeast(x: int, d: int)
    requires x >= 1 && d >= 1
    ensures x * d >= d
  {
    var y := x - 1;
    assert y * d >= 0;
    assert x * d == y * d + d;
  }

  lemma Away(x: int, d: int)
    requires d >= 1
    ensures x >= 1 ==> x * d >= d
    ensures x <= -1 ==> x * d <= -d
  {
    if x >= 1 {
      AtLeast(x, d);
    } else if x <= -1 {
      assert -x * d == -(x * d);
      AtLeast(-x, d);
    }
  }

  lemma DivNat(a: nat, d: nat)
    requires d > 0
    ensures a / d >= 0
  {
    Away(a / d, d);
    assert a == a / d * d + a % d;
  }

  lemma DivUnique(a: nat, d: nat, q: nat, r: nat)
    requires d > 0 && a == q * d + r && r < d
    ensures a / d == q && a % d == r
  {
    var q', r' := a / d, a % d;
    assert a == q' * d + r';
    assert (q' - q) * d == q' * d - q * d;
    Away(q' - q, d);
  }

  lemma Assoc(a: nat, b: nat, c: nat)
    ensures a * (b * c) == (a * b) * c == (a * c) * b
  {
  }

  lemma Distribute(a: nat, b: nat, c: nat)
    ensures (a + b) * c == a * c + b * c
  {
  }

  /** `f` ends in `b + x * p` in its last `p * q` values: `x` follows `b` in it. */
  lemma Digits(f: nat, b: nat, x: nat, p: nat, q: nat)
    requires 0 < p && 0 < q && b < p && x < q && f % (p * q) == b + x * p
    ensures f % p == b && f / p % q == x && f / p / q == f / (p * q)
  {
    var n := p * q;
    var m := f / n;
    assert f == m * n + (b + x * p);
    Assoc(m, p, q);
    Distribute(m * q, x, p);
    DivUnique(f, p, m * q + x, b);
    DivUnique(m * q + x, q, m, x);
  }

  lemma UpperPart(b: nat, h: nat, l: nat, p: nat, m: nat)
    requires 0 < p && 0 < m && p * m == 256 && b < p && l < m
    ensures var v := b + (h * m + l) * p; v / 256 == h && v % 256 == b + l * p && v % 256 / p == l && v % 256 % p == b
  {
    Distribute(h * m, l, p);
    Assoc(h, m, p);
    AtMost(l, m, p);
    DivUnique(b + (h * m + l) * p, 256, h, b + l * p);
    DivUnique(b + l * p, p, l, b);
  }

  lemma AtMost(l: nat, m: nat, p: nat)
    requires l < m
    ensures l * p + p <= m * p
  {
    Distribute(l, 1, p);
    Distribute(l + 1, m - 1 - l, p);
  }

  lemma LowerPart(g: nat, h: nat, l: nat, m: nat, q: nat)
    requires 0 < m && 0 < q && l < m && h < q
    ensures var v := l + (g * q + h) * m; v % (m * q) == h * m + l && v / (m * q) == g
  {
    Distribute(g * q, h, m);
    Assoc(g, m, q);
    AtMost(h, q, m);
    var n := m * q;
    DivUnique(l + (g * q + h) * m, n, g, h * m + l);
  }

  lemma DivMod(a: nat, d: nat)
    requires d > 0
    ensures a == a / d * d + a % d
  {
  }

  lemma Below(x: nat, m: nat, q: nat)
    requires 0 < m && x < m * q
    ensures x / m < q
  {
    DivMod(x, m);
    if x / m >= q {
      AtMost(q - 1, x / m, m);
      Distribute(q - 1, 1, m);
    }
  }

  lemma Split(a: nat, d: nat) returns (q: nat, r: nat)
    requires d > 0
    ensures a == q * d + r && r < d
  {
    q, r := a / d, a % d;
  }

  lemma Straddle(b: nat, x: nat, p: nat, m: nat, q: nat, f0: nat, f1: nat)
    requires 0 < p && 0 < m && 0 < q && p * m == 256 && b < p && x < m * q
    requires f0 == (b + x * p) % 256 && f1 % q == (b + x * p) / 256
    ensures f0 % p == b && (f0 / p + f1 * m) % (m * q) == x && (f0 / p + f1 * m) / (m * q) == f1 / q
  {
    var h, l := Split(x, m);
    UpperPart(b, h, l, p, m);
    Joined(f1, q, h, l, m);
  }

  lemma Joined(f1: nat, q: nat, h: nat, l: nat, m: nat)
    requires 0 < q && 0 < m && f1 % q == h && l < m
    ensures (l + f1 * m) % (m * q) == h * m + l && (l + f1 * m) / (m * q) == f1 / q
  {
    var g, r := Split(f1, q);
    DivUnique(f1, q, g, r);
    LowerPart(g, h, l, m, q);
  }
}
