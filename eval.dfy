/**
 * The three single-point evaluators of `impl Poly for Polynomial`
 * (`evaluateAtNaive`, `evaluateAtHorner`, `evaluateAtNaiveImproved`).
 * Each returns the value of the polynomial at a point together with the
 * number of complex multiplications the source counts for it.
 *
 * A polynomial is its coefficient sequence: p[i] is the coefficient of x^i,
 * and the "degree" of the source is |p|, the number of coefficients.
 */
module Evaluation {
  import opened ComplexArith

  /** x raised to the natural power i (what `x.powf(i as f64)` computes exactly). */
  function Pow(x: Complex, i: nat): Complex
    decreases i
  {
    if i == 0 then One else Mul(Pow(x, i - 1), x)
  }

  /** The value of p at x: the sum over i of p[i] * x^i, added term by term from index 0. */
  function Eval(p: seq<Complex>, x: Complex): Complex
    decreases |p|
  {
    if |p| == 0 then Zero
    else Add(Eval(p[..|p| - 1], x), Mul(p[|p| - 1], Pow(x, |p| - 1)))
  }

  lemma EvalSingleton(c: Complex, x: Complex)
    ensures Eval([c], x) == c
  {
    assert [c][..0] == [];
  }

  /**
   * Horner's identity: peeling off the constant coefficient leaves x times
   * the value of the remaining coefficients.
   */
  lemma {:induction false} EvalCons(c: Complex, q: seq<Complex>, x: Complex)
    ensures Eval([c] + q, x) == Add(c, Mul(x, Eval(q, x)))
    decreases |q|
  {
    if |q| == 0 {
      assert [c] + q == [c];
      EvalSingleton(c, x);
    } else {
      var m := |q|;
      var q' := q[..m - 1];
      var d := q[m - 1];
      assert ([c] + q)[..m] == [c] + q';
      assert q[..m - 1] == q';
      EvalCons(c, q', x);
      // Eval([c] + q) == c + x * Eval(q') + d * x^m
      //               == c + x * (Eval(q') + d * x^(m-1))
      var e := Eval(q', x);
      var w := Pow(x, m - 1);
      assert Pow(x, m) == Mul(w, x);
      calc {
        Add(Add(c, Mul(x, e)), Mul(d, Mul(w, x)));
        { MulAssoc(d, w, x); MulComm(Mul(d, w), x); }
        Add(Add(c, Mul(x, e)), Mul(x, Mul(d, w)));
        { AddAssoc(c, Mul(x, e), Mul(x, Mul(d, w))); }
        Add(c, Add(Mul(x, e), Mul(x, Mul(d, w))));
        { MulAddDistrib(x, e, Mul(d, w)); }
        Add(c, Mul(x, Add(e, Mul(d, w))));
      }
    }
  }

  /**
   * Naive evaluation: each term computes its power from scratch. Term i is
   * charged i + 1 multiplications, so n terms cost n(n+1)/2.
   */
  method EvaluateAtNaive(p: seq<Complex>, x: Complex) returns (sum: Complex, count: nat)
    ensures sum == Eval(p, x)
    ensures count == |p| * (|p| + 1) / 2
  {
    count := 0;
    sum := Zero;
    for i := 0 to |p|
      invariant sum == Eval(p[..i], x)
      invariant count == i * (i + 1) / 2
    {
      assert p[..i + 1][..i] == p[..i];
      sum := Add(sum, Mul(p[i], Pow(x, i)));
      count := count + 1 + i;
    }
    assert p[..|p|] == p;
  }

  /**
   * Horner's method: from the highest index down, sum := sum * x + coefficient.
   * One multiplication per coefficient.
   */
  method EvaluateAtHorner(p: seq<Complex>, x: Complex) returns (sum: Complex, count: nat)
    ensures sum == Eval(p, x)
    ensures count == |p|
  {
    count := 0;
    sum := Zero;
    var i := |p|;
    while i > 0
      invariant 0 <= i <= |p|
      invariant sum == Eval(p[i..], x)
      invariant count == |p| - i
    {
      i := i - 1;
      assert p[i..] == [p[i]] + p[i + 1..];
      EvalCons(p[i], p[i + 1..], x);
      sum := Add(Mul(sum, x), p[i]);
      count := count + 1;
    }
    assert p[0..] == p;
  }

  /**
   * Improved naive evaluation: a running power of x replaces the power
   * computed from scratch. Two multiplications per coefficient.
   */
  method EvaluateAtNaiveImproved(p: seq<Complex>, x: Complex) returns (sum: Complex, count: nat)
    ensures sum == Eval(p, x)
    ensures count == 2 * |p|
  {
    count := 0;
    sum := Zero;
    var xPower := One;
    for i := 0 to |p|
      invariant sum == Eval(p[..i], x)
      invariant xPower == Pow(x, i)
      invariant count == 2 * i
    {
      assert p[..i + 1][..i] == p[..i];
      sum := Add(sum, Mul(p[i], xPower));
      xPower := Mul(xPower, x);
      count := count + 2;
    }
    assert p[..|p|] == p;
  }
  /** The three single-point evaluators. */
  datatype Evaluator = Naive | Horner | NaiveImproved

  /** Multiplications one evaluation of an n-coefficient polynomial costs. */
  function Cost(e: Evaluator, n: nat): nat {
    match e
    case Naive => n * (n + 1) / 2
    case Horner => n
    case NaiveImproved => 2 * n
  }

  /**
   * Evaluating at every point of xs with one evaluator, summing the counts,
   * as the evaluator tests do over the roots of unity: every evaluator gives
   * the same values, and over 4 points a 4-coefficient polynomial costs 40
   * (naive), 16 (Horner) and 32 (improved) multiplications.
   */
  method EvaluateAtPoints(p: seq<Complex>, xs: seq<Complex>, e: Evaluator)
    returns (values: seq<Complex>, counts: nat)
    ensures |values| == |xs|
    ensures forall j :: 0 <= j < |xs| ==> values[j] == Eval(p, xs[j])
    ensures counts == |xs| * Cost(e, |p|)
    ensures |p| == 4 && |xs| == 4 ==> counts == (match e case Naive => 40 case Horner => 16 case NaiveImproved => 32)
  {
    values := [];
    counts := 0;
    var cost := Cost(e, |p|);
    for j := 0 to |xs|
      invariant |values| == j
      invariant forall i :: 0 <= i < j ==> values[i] == Eval(p, xs[i])
      invariant counts == j * cost
    {
      var value, count;
      match e {
        case Naive => value, count := EvaluateAtNaive(p, xs[j]);
        case Horner => value, count := EvaluateAtHorner(p, xs[j]);
        case NaiveImproved => value, count := EvaluateAtNaiveImproved(p, xs[j]);
      }
      assert count == cost;
      assert (j + 1) * cost == j * cost + cost;
      values := values + [value];
      counts := counts + count;
    }
    if |p| == 4 && |xs| == 4 {
      assert cost == (match e case Naive => 10 case Horner => 4 case NaiveImproved => 8);
    }
  }
}
