/**
 * The fixed-width integers of .NET and the two operations on them that
 * `LongExtensions` relies on: C# division of a `long`, and the checked
 * narrowing `Convert.ToInt32(long)`.
 */
module Numerics {
  import opened Wrappers

  const INT32_MIN := -0x8000_0000
  const INT32_MAX := 0x7fff_ffff
  const INT64_MIN := -0x8000_0000_0000_0000
  const INT64_MAX := 0x7fff_ffff_ffff_ffff

  /** System.Int32, the C# `int`. */
  type Int32 = x: int | INT32_MIN <= x <= INT32_MAX

  /** System.Int64, the C# `long`. */
  type Int64 = x: int | INT64_MIN <= x <= INT64_MAX

  /**
   * The C# `/` operator on `long` for a positive divisor. C# rounds the
   * quotient toward zero, whereas Dafny's `/` is Euclidean (for a positive
   * divisor it rounds toward negative infinity), so negative dividends are
   * divided by their magnitude. The ensures clauses say that `q * d` is the
   * multiple of `d` closest to `a` on the side of zero; `DivUnique` shows
   * that this determines `q`.
   */
  function Div(a: Int64, d: Int64): (q: Int64)
    requires d > 0
    ensures a >= 0 ==> 0 <= q * d <= a < q * d + d
    ensures a <= 0 ==> q * d - d < a <= q * d <= 0
  {
    var m: int := if a >= 0 then a else -(a as int);
    var q := m / d;
    assert m == q * d + m % d && q >= 0;
    MulMonotone(1, d, q);
    if a >= 0 then q else -q
  }

  /**
   * `Convert.ToInt32(long)`: the same number as an `int`, or `None` where
   * .NET throws an OverflowException because the value does not fit.
   */
  function ToInt32(x: Int64): (r: Option<Int32>)
    ensures r.Some? <==> INT32_MIN <= x <= INT32_MAX
    ensures r.Some? ==> r.value == x
  {
    if INT32_MIN <= x <= INT32_MAX then Some(x) else None
  }

  /**
   * The ensures clauses of `Div` pin the quotient down: any `q` whose
   * multiple of `d` lies within `d` of `a` on the side of zero is `Div(a, d)`.
   */
  lemma {:induction false} DivUnique(a: Int64, d: Int64, q: int)
    requires d > 0
    requires a >= 0 ==> 0 <= q * d <= a < q * d + d
    requires a <= 0 ==> q * d - d < a <= q * d <= 0
    ensures q == Div(a, d)
  {
    var p := Div(a, d);
    if q < p {
      MulMonotone(q + 1, p, d);
    } else if p < q {
      MulMonotone(p + 1, q, d);
    }
  }

  /** C# division by a positive divisor preserves the order of dividends. */
  lemma {:induction false} DivMonotone(a: Int64, b: Int64, d: Int64)
    requires d > 0 && a <= b
    ensures Div(a, d) <= Div(b, d)
  {
    var p, q := Div(a, d), Div(b, d);
    if q < p {
      MulMonotone(q + 1, p, d);
    }
  }

  /**
   * Against Dafny's own division: C# agrees with it on dividends that are
   * non-negative or exact multiples, and otherwise rounds one higher.
   */
  lemma {:induction false} DivVersusEuclidean(a: Int64, d: Int64)
    requires d > 0
    ensures a >= 0 || a % d == 0 ==> Div(a, d) == a / d
    ensures a < 0 && a % d != 0 ==> Div(a, d) == a / d + 1
  {
    var e := a / d;
    assert a == e * d + a % d;
    if a >= 0 || a % d == 0 {
      DivUnique(a, d, e);
    } else {
      DivUnique(a, d, e + 1);
    }
  }

  /** Dividing an exact multiple of `d` gives the factor back. */
  lemma {:induction false} DivOfMultiple(s: int, d: Int64)
    requires d > 0 && INT64_MIN <= s * d <= INT64_MAX
    ensures Div(s * d, d) == s
  {
    DivUnique(s * d, d, s);
  }

  /** `i <= j` and a non-negative `d` give `i * d <= j * d`. */
  lemma MulMonotone(i: int, j: int, d: int)
    requires i <= j && d >= 0
    ensures i * d <= j * d
  {
    assert j * d == i * d + (j - i) * d;
  }
}
