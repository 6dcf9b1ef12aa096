/** The unsigned machine integers of the daemon and the saturating arithmetic it does on them. */
module Uint {
  const U32_MAX: nat := 0xFFFF_FFFF
  const U64_MAX: nat := 0xFFFF_FFFF_FFFF_FFFF

  type U32 = n: int | 0 <= n <= U32_MAX witness 0
  type Byte = b: int | 0 <= b < 256
  type U64 = n: int | 0 <= n <= U64_MAX witness 0

  function Min(a: int, b: int): int { if a <= b then a else b }

  function Max(a: int, b: int): int { if a >= b then a else b }

  /** `u64::saturating_add` */
  function SatAdd(a: U64, b: U64): U64 { Min(a + b, U64_MAX) }

  /** `u64::saturating_sub` */
  function SatSub(a: U64, b: U64): U64 { Max(a - b, 0) }

  /** `u64::saturating_mul` */
  function SatMul(a: U64, b: U64): U64 {
    MulNonNegative(a, b);
    Min(a * b, U64_MAX)
  }

  /** `value.min(u32::MAX) as u32` */
  function SaturateU32(a: U64): U32 { Min(a, U32_MAX) }

  /** `u32::saturating_add` */
  function SatAdd32(a: U32, b: U32): U32 { Min(a + b, U32_MAX) }

  lemma MulNonNegative(a: int, b: int)
    requires a >= 0 && b >= 0
    ensures a * b >= 0
  {
  }

  lemma MulMonotone(a: int, b: int, c: int)
    requires a <= b && c >= 0
    ensures a * c <= b * c
  {
    MulNonNegative(b - a, c);
    assert b * c - a * c == (b - a) * c;
  }

  /** Quotient and remainder bounds, in the form the pacing proofs use. */
  lemma DivBounds(d: int, s: int)
    requires d >= 0 && s >= 1
    ensures 0 <= d / s <= d
    ensures (d / s) * s <= d < (d / s) * s + s
  {
    var q := d / s;
    assert q * s == d - d % s;
    if q < 0 {
      MulMonotone(q, -1, s);
    } else {
      MulMonotone(1, s, q);
    }
  }

  /** `d / s` is the only quotient whose slot holds `d`. */
  lemma DivUnique(d: int, s: int, q: int)
    requires s >= 1 && d >= 0
    requires q * s <= d < q * s + s
    ensures d / s == q
  {
    DivBounds(d, s);
    if d / s < q {
      MulMonotone(d / s + 1, q, s);
    } else if d / s > q {
      MulMonotone(q + 1, d / s, s);
    }
  }

  lemma DivMonotone(a: int, b: int, s: int)
    requires 0 <= a <= b && s >= 1
    ensures a / s <= b / s
  {
    DivBounds(a, s);
    DivBounds(b, s);
    if a / s > b / s {
      MulMonotone(b / s + 1, a / s, s);
    }
  }

  // ----- whole steps -----

  /** How long `n` steps of length `each` take. */
  function Span(n: nat, each: nat): nat { if n == 0 then 0 else Span(n - 1, each) + each }

  /** How many whole steps of length `each` fit into `time`. */
  function Fits(time: nat, each: nat): nat
    requires each >= 1
  {
    if time < each then 0 else Fits(time - each, each) + 1
  }

  lemma {:induction false} SpanIsProduct(n: nat, each: nat)
    ensures Span(n, each) == n * each
  {
    if n > 0 {
      SpanIsProduct(n - 1, each);
      assert n * each == (n - 1) * each + each;
    }
  }

  lemma {:induction false} SpanAdds(a: nat, b: nat, each: nat)
    ensures Span(a + b, each) == Span(a, each) + Span(b, each)
  {
    if b > 0 {
      SpanAdds(a, b - 1, each);
    }
  }

  /** More steps take longer, by at least a step. */
  lemma SpanGrows(a: nat, b: nat, each: nat)
    requires a < b
    ensures Span(a, each) + each <= Span(b, each)
  {
    SpanAdds(a, b - a, each);
  }

  lemma {:induction false} SpanAtLeast(n: nat, each: nat)
    requires each >= 1
    ensures Span(n, each) >= n
  {
    if n > 0 {
      SpanAtLeast(n - 1, each);
    }
  }

  lemma {:induction false} SpanOfFits(time: nat, each: nat)
    requires each >= 1
    ensures Span(Fits(time, each), each) <= time < Span(Fits(time, each), each) + each
    ensures Fits(time, each) <= time
  {
    if time >= each {
      SpanOfFits(time - each, each);
    }
  }

  lemma FitsIsQuotient(time: nat, each: nat)
    requires each >= 1
    ensures Fits(time, each) == time / each
  {
    SpanOfFits(time, each);
    SpanIsProduct(Fits(time, each), each);
    DivUnique(time, each, Fits(time, each));
  }

  lemma FitsMonotone(a: nat, b: nat, each: nat)
    requires each >= 1 && a <= b
    ensures Fits(a, each) <= Fits(b, each)
  {
    SpanOfFits(a, each);
    SpanOfFits(b, each);
    if Fits(b, each) < Fits(a, each) { SpanGrows(Fits(b, each), Fits(a, each), each); }
  }

  /** Of the spans within a step of `time`, only the last at or below it and the next qualify. */
  lemma SpansNear(time: nat, each: nat, n: nat)
    requires each >= 1 && time < Span(n, each) + each && Span(n, each) <= time + each
    ensures Fits(time, each) <= n <= Fits(time, each) + 1
  {
    var q := Fits(time, each);
    SpanOfFits(time, each);
    var past: nat := q + 1;
    assert Span(past, each) == Span(q, each) + each;
    if n < q { SpanGrows(n, q, each); }
    if n > past { SpanGrows(past, n, each); }
  }
}
