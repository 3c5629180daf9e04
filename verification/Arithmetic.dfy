/** Division facts for a fixed positive unit (a sector or a cluster). */
module Arithmetic {
  lemma MulMono(a: int, b: int, unit: nat)
    requires a <= b
    ensures a * unit <= b * unit
  {
  }

  lemma MulSucc(a: int, unit: int)
    ensures (a + 1) * unit == a * unit + unit
    ensures (a - 1) * unit == a * unit - unit
  {
  }

  lemma DivModIs(x: nat, unit: nat)
    requires unit > 0
    ensures x == (x / unit) * unit + x % unit
    ensures 0 <= x % unit < unit
  {
  }

  /** The quotient is the only q with q * unit <= x < q * unit + unit. */
  lemma DivIs(x: nat, unit: nat, q: nat)
    requires unit > 0
    requires q * unit <= x < q * unit + unit
    ensures x / unit == q && x % unit == x - q * unit
  {
    DivModIs(x, unit);
    var d := x / unit;
    if d < q {
      MulMono(d + 1, q, unit);
      MulSucc(d, unit);
    } else if d > q {
      MulMono(q + 1, d, unit);
      MulSucc(q, unit);
    }
  }

  lemma DivExact(unit: nat, n: nat)
    requires unit > 0
    ensures (n * unit) / unit == n && (n * unit) % unit == 0
  {
    DivIs(n * unit, unit, n);
  }

  /** k * unit, by repeated addition. */
  function Span(k: nat, unit: nat): (s: nat) {
    if k == 0 then 0 else Span(k - 1, unit) + unit
  }

  lemma SpanOne(k: nat, unit: nat)
    ensures Span(k + 1, unit) == Span(k, unit) + unit
  {
  }

  lemma {:induction false} SpanIsProduct(k: nat, unit: nat)
    ensures Span(k, unit) == k * unit
  {
    if k > 0 {
      SpanIsProduct(k - 1, unit);
      MulSucc(k, unit);
    }
  }

  lemma {:induction false} SpanMono(k: nat, n: nat, unit: nat)
    requires k <= n
    ensures Span(k, unit) <= Span(n, unit)
  {
    if k < n { SpanMono(k, n - 1, unit); }
  }

  lemma {:induction false} SpanAdd(a: nat, b: nat, unit: nat)
    ensures Span(a + b, unit) == Span(a, unit) + Span(b, unit)
  {
    if b > 0 { SpanAdd(a, b - 1, unit); }
  }

  lemma SpanGrows(k: nat, n: nat, unit: nat)
    requires unit >= 1 && k < n
    ensures Span(k, unit) + unit <= Span(n, unit)
  {
    SpanMono(k, n - 1, unit);
  }

  lemma SpanInjective(a: nat, b: nat, unit: nat)
    requires unit >= 1 && Span(a, unit) == Span(b, unit)
    ensures a == b
  {
    if a < b {
      SpanGrows(a, b, unit);
    } else if b < a {
      SpanGrows(b, a, unit);
    }
  }
}
