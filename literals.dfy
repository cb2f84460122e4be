/** Option and Result, as the reader's error path uses them. */
module Wrappers {
  datatype Option<T> = None | Some(value: T)

  datatype Result<T, E> = Ok(value: T) | Err(error: E)
}

/**
 * Decimal literals of the polynomial file format: an optional minus sign,
 * one or more digits, and an optional fraction of one or more digits. The
 * model keeps numbers as these literal records instead of converting them
 * to `f64`; `DeclaredDegree` models the `deg as i64` cast of the count.
 */
module Literals {
  import opened Wrappers

  const I64Min: int := -0x8000_0000_0000_0000
  const I64Max: int := 0x7FFF_FFFF_FFFF_FFFF

  predicate IsDigit(c: char) {
    '0' <= c <= '9'
  }

  predicate AllDigits(s: string) {
    forall i :: 0 <= i < |s| ==> IsDigit(s[i])
  }

  /** The length of the longest prefix of s whose characters all satisfy P. */
  function Span(s: string, P: char -> bool): (k: nat)
    ensures k <= |s|
    ensures forall i :: 0 <= i < k ==> P(s[i])
    ensures k < |s| ==> !P(s[k])
    decreases |s|
  {
    if |s| > 0 && P(s[0]) then
      var k := 1 + Span(s[1..], P);
      assert forall i :: 1 <= i < k ==> s[i] == s[1..][i - 1];
      k
    else 0
  }

  /** A run that P accepts throughout, followed by text P rejects at once, spans exactly the run. */
  lemma {:induction false} SpanOfRun(a: string, b: string, P: char -> bool)
    requires forall i :: 0 <= i < |a| ==> P(a[i])
    requires |b| == 0 || !P(b[0])
    ensures Span(a + b, P) == |a|
    decreases |a|
  {
    if |a| > 0 {
      assert (a + b)[1..] == a[1..] + b;
      SpanOfRun(a[1..], b, P);
    }
  }

  /** n copies of c. */
  function Repeat(c: char, n: nat): (s: string)
    ensures |s| == n && forall i :: 0 <= i < n ==> s[i] == c
  {
    if n == 0 then [] else [c] + Repeat(c, n - 1)
  }

  /** Two runs of c make one. */
  lemma RepeatAdd(c: char, m: nat, n: nat)
    ensures Repeat(c, m) + Repeat(c, n) == Repeat(c, m + n)
  {
    assert forall i :: 0 <= i < m + n ==> (Repeat(c, m) + Repeat(c, n))[i] == c;
  }

  datatype Decimal = Decimal(negative: bool, whole: string, fraction: Option<string>)

  /** A coefficient as the file holds it: real part and imaginary part. */
  datatype ComplexLiteral = ComplexLiteral(re: Decimal, im: Decimal)

  predicate WellFormed(d: Decimal) {
    && |d.whole| > 0
    && AllDigits(d.whole)
    && (d.fraction.Some? ==> |d.fraction.value| > 0 && AllDigits(d.fraction.value))
  }

  function SignText(negative: bool): string {
    if negative then "-" else ""
  }

  function FractionText(fraction: Option<string>): string {
    match fraction
    case Some(f) => "." + f
    case None => ""
  }

  /** The text of a literal, as `fp` reads it and as the writer prints it. */
  function Show(d: Decimal): string {
    SignText(d.negative) + d.whole + FractionText(d.fraction)
  }

  /** A literal followed by more text, with the concatenation nested to the right. */
  lemma ShowThen(d: Decimal, rest: string)
    ensures Show(d) + rest == SignText(d.negative) + (d.whole + (FractionText(d.fraction) + rest))
  {
  }

  function DigitValue(c: char): nat
    requires IsDigit(c)
  {
    (c as int) - ('0' as int)
  }

  function Pow10(k: nat): (r: nat)
    ensures r >= 1
  {
    if k == 0 then 1 else 10 * Pow10(k - 1)
  }

  /** The value of a digit string, most significant digit first. */
  function DigitsValue(s: string): nat
    requires AllDigits(s)
    decreases |s|
  {
    if |s| == 0 then 0 else 10 * DigitsValue(s[..|s| - 1]) + DigitValue(s[|s| - 1])
  }

  /** k digits never reach 10^k: a fraction part is below one. */
  lemma {:induction false} DigitsValueBound(s: string)
    requires AllDigits(s)
    ensures DigitsValue(s) < Pow10(|s|)
    decreases |s|
  {
    if |s| > 0 {
      DigitsValueBound(s[..|s| - 1]);
    }
  }

  /** The exact value of a literal. */
  function Value(d: Decimal): real
    requires WellFormed(d)
  {
    var magnitude := DigitsValue(d.whole) as real
      + match d.fraction
        case Some(f) => DigitsValue(f) as real / Pow10(|f|) as real
        case None => 0.0;
    if d.negative then -magnitude else magnitude
  }

  /**
   * The declared coefficient count: `deg as i64` drops the fraction (it
   * truncates toward zero) and saturates at the ends of the i64 range.
   */
  function DeclaredDegree(d: Decimal): int
    requires WellFormed(d)
  {
    var t: int := if d.negative then -(DigitsValue(d.whole) as int) else DigitsValue(d.whole);
    if t < I64Min then I64Min else if t > I64Max then I64Max else t
  }

  lemma FractionBelowOne(num: real, den: real)
    requires 0.0 <= num < den
    ensures 0.0 <= num / den < 1.0
  {
    assert (num / den) * den == num;
  }

  /**
   * DeclaredDegree is truncation of the literal's value toward zero inside
   * the i64 range, and saturation outside it.
   */
  lemma DeclaredDegreeTruncates(d: Decimal)
    requires WellFormed(d)
    ensures I64Min <= DeclaredDegree(d) <= I64Max
    ensures var v, r := Value(d), DeclaredDegree(d);
      (I64Min - 1) as real < v < (I64Max + 1) as real ==>
        && (v >= 0.0 ==> r as real <= v < r as real + 1.0)
        && (v <= 0.0 ==> r as real - 1.0 < v <= r as real)
    ensures Value(d) >= (I64Max + 1) as real ==> DeclaredDegree(d) == I64Max
    ensures Value(d) <= (I64Min - 1) as real ==> DeclaredDegree(d) == I64Min
  {
    var w := DigitsValue(d.whole) as real;
    var frac := match d.fraction
      case Some(f) => DigitsValue(f) as real / Pow10(|f|) as real
      case None => 0.0;
    if d.fraction.Some? {
      var f := d.fraction.value;
      DigitsValueBound(f);
      var num, den := DigitsValue(f) as real, Pow10(|f|) as real;
      assert frac == num / den;
      FractionBelowOne(num, den);
    }
    assert Value(d) == if d.negative then -(w + frac) else w + frac;
  }

  /** The decimal text of a natural number, as Rust's `{}` prints a `usize` or a non-negative `i64`. */
  function NatDigits(n: nat): (s: string)
    ensures |s| > 0 && AllDigits(s) && DigitsValue(s) == n
    ensures |s| > 1 ==> s[0] != '0'
    decreases n
  {
    var last := ['0' + (n % 10) as char];
    if n < 10 then last
    else
      var init := NatDigits(n / 10);
      var s := init + last;
      assert s[..|s| - 1] == init;
      s
  }

  /** The count line the writer prints, as a literal. */
  function NatLiteral(n: nat): (d: Decimal)
    ensures WellFormed(d) && Show(d) == NatDigits(n)
    ensures DeclaredDegree(d) == if n <= I64Max then n else I64Max
  {
    Decimal(false, NatDigits(n), None)
  }
}
