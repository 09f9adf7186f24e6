/** Powers of two, as shifts and masks use them. */
module PowerOfTwo {

  function Pow2(n: nat): (p: nat)
    ensures p >= 1
  {
    if n == 0 then 1 else 2 * Pow2(n - 1)
  }

  function Low(h: nat, m: nat): nat
    requires m > 0
  {
    h % m
  }

  function High(h: nat, m: nat): nat
    requires m > 0
  {
    h / m
  }

  lemma {:induction false} Pow2Add(a: nat, b: nat)
    ensures Pow2(a + b) == Pow2(a) * Pow2(b)
  {
    if a > 0 {
      Pow2Add(a - 1, b);
      assert Pow2(a + b) == 2 * Pow2(a - 1 + b);
      assert 2 * (Pow2(a - 1) * Pow2(b)) == (2 * Pow2(a - 1)) * Pow2(b);
    }
  }

  lemma {:induction false} Pow2Order(a: nat, b: nat)
    ensures a < b <==> Pow2(a) < Pow2(b)
  {
    if a > 0 && b > 0 { Pow2Order(a - 1, b - 1); }
  }

  /** `ilog2`. */
  function Log2(n: nat): nat
    requires n > 0
  {
    if n == 1 then 0 else 1 + Log2(n / 2)
  }

  lemma {:induction false} Log2OfPow2(k: nat)
    ensures Log2(Pow2(k)) == k
  {
    if k > 0 { Log2OfPow2(k - 1); }
  }

  lemma {:induction false} Log2Bounds(n: nat)
    requires n > 0
    ensures Pow2(Log2(n)) <= n < Pow2(Log2(n) + 1)
  {
    if n > 1 { Log2Bounds(n / 2); }
  }

  lemma DivBound(h: nat, x: nat, y: nat)
    requires x > 0 && h < x * y
    ensures h / x < y
  {
    assert x * (h / x) <= h;
    if h / x >= y { MulOrder(x, y, h / x); }
  }

  lemma MulOrder(x: nat, a: nat, b: nat)
    requires a <= b
    ensures x * a <= x * b
  {
  }

  /** A number is put together again from its low digit and the rest. */
  lemma Recompose(d: nat, q: nat, m: nat)
    requires d < m
    ensures (d + m * q) % m == d && (d + m * q) / m == q
  {
    var x := d + m * q;
    assert x == m * (x / m) + x % m;
    var r := x / m - q;
    assert m * (x / m) - m * q == m * r;
    assert m * r == d - x % m;
    assert m * (-r) == -(m * r);
    if r >= 1 { MulOrder(m, 1, r); } else if r <= -1 { MulOrder(m, 1, -r); }
  }

  lemma DivMod(h: nat, m: nat)
    requires m > 0
    ensures h == h % m + m * (h / m) && 0 <= h % m < m && 0 <= h / m
  {
  }

  /** A digit below `m` and a number below `w` make a number below `m * w`. */
  lemma ComposeBound(d: nat, q: nat, m: nat, w: nat)
    requires d < m && q < w
    ensures d + m * q < m * w
  {
    MulOrder(m, q + 1, w);
    assert m * (q + 1) == m * q + m;
  }

  /** A width split into whole groups of `shift` bits and one group of 1 to `shift` bits. */
  lemma SplitWidth(bits: nat, shift: nat)
    requires shift > 0 && bits >= shift + 1
    ensures var nest, q := (bits - 1) % shift + 1, (bits - 1) / shift;
            1 <= nest <= shift && q >= 1 && bits == nest + shift * q && (bits - nest) % shift == 0
  {
    DivMod(bits - 1, shift);
    Recompose(0, (bits - 1) / shift, shift);
  }

  /** The size of `n` levels of pages of `Pow2(shift)` entries. */
  function Span(shift: nat, n: nat): (w: nat)
    ensures w >= 1
  {
    if n == 0 then 1
    else
      MulOrder(Pow2(shift), 1, Span(shift, n - 1));
      Pow2(shift) * Span(shift, n - 1)
  }

  lemma {:induction false} SpanIsPow2(shift: nat, n: nat)
    ensures Span(shift, n) == Pow2(shift * n)
  {
    if n > 0 {
      SpanIsPow2(shift, n - 1);
      Pow2Add(shift, shift * (n - 1));
      assert shift + shift * (n - 1) == shift * n;
    }
  }

  /** One more level is a strictly larger span. */
  lemma SpanGrows(shift: nat, n: nat)
    requires shift > 0 && n >= 1
    ensures Span(shift, n) > Pow2(shift) <==> n > 1
    ensures Span(shift, n) / Pow2(shift) == Span(shift, n - 1)
  {
    Recompose(0, Span(shift, n - 1), Pow2(shift));
    if n > 1 {
      Pow2Order(0, shift);
      var m, w := Pow2(shift), Span(shift, n - 2);
      assert Span(shift, n - 1) == m * w;
      MulOrder(m, 1, w);
      MulOrder(m, 2, m * w);
    }
  }
}
