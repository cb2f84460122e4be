/**
 * The recursive Cooley-Tukey evaluator `evaluateAtFFT` and the generator
 * `rootsOfUnity`.
 *
 * The twiddle factors come from `rootOfUnity(n, k)`, which the source computes
 * with sine and cosine. The model takes that function as a parameter `root`
 * and, where it proves values, assumes only the two laws of the n-th roots of
 * unity that the butterfly step relies on (see IsRootFamily).
 */
module Fft {
  import opened ComplexArith
  import opened Evaluation

  /** n is 1, 2, 4, 8, ... */
  predicate IsPowerOfTwo(n: nat)
    decreases n
  {
    n == 1 || (n >= 2 && n % 2 == 0 && IsPowerOfTwo(n / 2))
  }

  function Pow2(m: nat): (r: nat)
    ensures r >= 1
  {
    if m == 0 then 1 else 2 * Pow2(m - 1)
  }

  /**
   * With w(n, k) = e^(2*pi*i*k/n): squaring a twiddle of size n gives the
   * twiddle of size n/2 with the same index, and the twiddle half a turn
   * further on is its negation.
   */
  ghost predicate HalvingLaws(root: (nat, nat) -> Complex, n: nat, k: nat) {
    2 <= n && n % 2 == 0 && k < n / 2 ==>
      Mul(root(n, k), root(n, k)) == root(n / 2, k) && root(n, k + n / 2) == Neg(root(n, k))
  }

  ghost predicate IsRootFamily(root: (nat, nat) -> Complex) {
    forall n: nat, k: nat :: HalvingLaws(root, n, k)
  }

  /**
   * `rootsOfUnity(n)`: the n twiddles of size n, in index order.
   */
  method RootsOfUnity(n: nat, root: (nat, nat) -> Complex) returns (roots: seq<Complex>)
    ensures |roots| == n
    ensures forall k :: 0 <= k < n ==> roots[k] == root(n, k)
  {
    roots := [];
    for k := 0 to n
      invariant |roots| == k
      invariant forall j :: 0 <= j < k ==> roots[j] == root(n, j)
    {
      roots := roots + [root(n, k)];
    }
  }

  /** even holds the coefficients at even indices of p and odd those at odd indices, in order. */
  ghost predicate IsEvenOddSplit(p: seq<Complex>, even: seq<Complex>, odd: seq<Complex>) {
    && |even| == (|p| + 1) / 2
    && |odd| == |p| / 2
    && (forall j :: 0 <= j < |even| ==> even[j] == p[2 * j])
    && (forall j :: 0 <= j < |odd| ==> odd[j] == p[2 * j + 1])
  }

  /** The split loop of `evaluateAtFFT`: index i goes to even[i/2] or odd[i/2] by its parity. */
  method Split(p: seq<Complex>) returns (even: seq<Complex>, odd: seq<Complex>)
    ensures IsEvenOddSplit(p, even, odd)
  {
    even, odd := [], [];
    for i := 0 to |p|
      invariant |even| == (i + 1) / 2 && |odd| == i / 2
      invariant forall j :: 0 <= j < |even| ==> even[j] == p[2 * j]
      invariant forall j :: 0 <= j < |odd| ==> odd[j] == p[2 * j + 1]
    {
      if i % 2 == 0 {
        even := even + [p[i]];
      } else {
        odd := odd + [p[i]];
      }
    }
  }

  lemma ButterflyAlgebra(a: Complex, b: Complex, x: Complex, e: Complex, o: Complex)
    ensures Add(a, Mul(x, Add(b, Mul(x, Add(e, Mul(x, o))))))
         == Add(Add(a, Mul(Mul(x, x), e)), Mul(x, Add(b, Mul(Mul(x, x), o))))
  {
    var y := Mul(x, x);
    calc {
      Mul(x, Add(e, Mul(x, o)));
      { MulAddDistrib(x, e, Mul(x, o)); }
      Add(Mul(x, e), Mul(x, Mul(x, o)));
      { MulAssoc(x, x, o); }
      Add(Mul(x, e), Mul(y, o));
    }
    calc {
      Mul(x, Add(b, Mul(x, Add(e, Mul(x, o)))));
      Mul(x, Add(b, Add(Mul(x, e), Mul(y, o))));
      { AddAssoc(b, Mul(x, e), Mul(y, o)); AddComm(b, Mul(x, e)); AddAssoc(Mul(x, e), b, Mul(y, o)); }
      Mul(x, Add(Mul(x, e), Add(b, Mul(y, o))));
      { MulAddDistrib(x, Mul(x, e), Add(b, Mul(y, o))); }
      Add(Mul(x, Mul(x, e)), Mul(x, Add(b, Mul(y, o))));
      { MulAssoc(x, x, e); }
      Add(Mul(y, e), Mul(x, Add(b, Mul(y, o))));
    }
    AddAssoc(a, Mul(y, e), Mul(x, Add(b, Mul(y, o))));
  }

  /**
   * The identity the FFT rests on: p(x) = even(x^2) + x * odd(x^2).
   */
  lemma {:induction false} EvalSplit(p: seq<Complex>, even: seq<Complex>, odd: seq<Complex>, x: Complex)
    requires IsEvenOddSplit(p, even, odd)
    ensures Eval(p, x) == Add(Eval(even, Mul(x, x)), Mul(x, Eval(odd, Mul(x, x))))
    decreases |p|
  {
    var y := Mul(x, x);
    if |p| == 0 {
      assert even == [] && odd == [];
    } else if |p| == 1 {
      assert even == [p[0]] && odd == [];
      EvalSingleton(p[0], x);
      EvalSingleton(p[0], y);
    } else {
      var r, e, o := p[2..], even[1..], odd[1..];
      assert IsEvenOddSplit(r, e, o) by {
        forall j | 0 <= j < |e| ensures e[j] == r[2 * j] {
          assert e[j] == even[j + 1] == p[2 * (j + 1)];
        }
        forall j | 0 <= j < |o| ensures o[j] == r[2 * j + 1] {
          assert o[j] == odd[j + 1] == p[2 * (j + 1) + 1];
        }
      }
      EvalSplit(r, e, o, x);
      assert p == [p[0]] + ([p[1]] + r);
      EvalCons(p[0], [p[1]] + r, x);
      EvalCons(p[1], r, x);
      assert even == [p[0]] + e;
      EvalCons(p[0], e, y);
      assert odd == [p[1]] + o;
      EvalCons(p[1], o, y);
      ButterflyAlgebra(p[0], p[1], x, Eval(e, y), Eval(o, y));
    }
  }

  /**
   * One butterfly: the values at twiddles k and k + n/2 of size n are the even
   * half's value plus or minus the twiddle times the odd half's value, both
   * halves taken at twiddle k of size n/2.
   */
  lemma ButterflyCorrect(p: seq<Complex>, even: seq<Complex>, odd: seq<Complex>, root: (nat, nat) -> Complex, k: nat)
    requires |p| >= 2 && |p| % 2 == 0 && k < |p| / 2
    requires IsEvenOddSplit(p, even, odd)
    requires HalvingLaws(root, |p|, k)
    ensures var x, y := root(|p|, k), root(|p| / 2, k);
      && Eval(p, x) == Add(Eval(even, y), Mul(x, Eval(odd, y)))
      && Eval(p, root(|p|, k + |p| / 2)) == Sub(Eval(even, y), Mul(x, Eval(odd, y)))
  {
    var x, y := root(|p|, k), root(|p| / 2, k);
    EvalSplit(p, even, odd, x);
    var x' := root(|p|, k + |p| / 2);
    NegSquare(x);
    EvalSplit(p, even, odd, x');
    MulNegLeft(x, Eval(odd, y));
    SubIsAddNeg(Eval(even, y), Mul(x, Eval(odd, y)));
  }

  /** The multiplication count of `evaluateAtFFT` for n coefficients: one per butterfly. */
  function FftCount(n: nat): nat {
    if n <= 1 then 0 else FftCount((n + 1) / 2) + FftCount(n / 2) + n / 2
  }

  lemma DoublingStep(m: nat, h: nat, f: nat)
    requires m >= 1 && 2 * f == (m - 1) * h
    ensures 2 * (2 * f + h) == m * (2 * h)
  {
  }

  /** For n = 2^m the count is (n/2) * m. */
  lemma {:induction false} FftCountPowerOfTwo(m: nat)
    ensures 2 * FftCount(Pow2(m)) == m * Pow2(m)
  {
    if m > 0 {
      var h := Pow2(m - 1);
      FftCountPowerOfTwo(m - 1);
      assert (2 * h + 1) / 2 == h && 2 * h / 2 == h;
      assert FftCount(2 * h) == 2 * FftCount(h) + h;
      DoublingStep(m, h, FftCount(h));
    }
  }

  /** The closed form of FftCount, stated for every n that is a power of two. */
  lemma FftCountClosedForm(n: nat)
    ensures forall m: nat :: Pow2(m) == n ==> 2 * FftCount(n) == m * n
  {
    forall m: nat | Pow2(m) == n ensures 2 * FftCount(n) == m * n {
      FftCountPowerOfTwo(m);
    }
  }

  /**
   * The values the combine step assembles are the values of p at the twiddles
   * of size |p|, given the halves' values at the twiddles of size |p|/2.
   */
  lemma CombinedValues(p: seq<Complex>, even: seq<Complex>, odd: seq<Complex>,
                       e: seq<Complex>, d: seq<Complex>, answer: seq<Complex>, root: (nat, nat) -> Complex)
    requires IsRootFamily(root)
    requires |p| >= 2 && |p| % 2 == 0 && IsEvenOddSplit(p, even, odd)
    requires |e| == |d| == |p| / 2 && |answer| == |p|
    requires forall j :: 0 <= j < |e| ==> e[j] == Eval(even, root(|e|, j))
    requires forall j :: 0 <= j < |d| ==> d[j] == Eval(odd, root(|d|, j))
    requires forall k :: 0 <= k < |e| ==> answer[k] == Add(e[k], Mul(root(|p|, k), d[k]))
    requires forall k :: 0 <= k < |e| ==> answer[k + |e|] == Sub(e[k], Mul(root(|p|, k), d[k]))
    ensures forall j :: 0 <= j < |p| ==> answer[j] == Eval(p, root(|p|, j))
  {
    var n, h := |p|, |p| / 2;
    forall j | 0 <= j < n ensures answer[j] == Eval(p, root(n, j)) {
      var k := if j < h then j else j - h;
      assert HalvingLaws(root, n, k);
      ButterflyCorrect(p, even, odd, root, k);
    }
  }

  /**
   * The combine loop of `evaluateAtFFT` for n = 2h: `answer` is allocated with
   * n slots and butterfly k writes slot k and slot k + h, spending one
   * multiplication. The ghost result `written` counts the writes per slot.
   */
  method Butterflies(e: seq<Complex>, d: seq<Complex>, root: (nat, nat) -> Complex)
    returns (answer: seq<Complex>, count: nat, ghost written: multiset<nat>)
    requires |e| == |d|
    ensures |answer| == 2 * |e| && count == |e|
    ensures forall k :: 0 <= k < |e| ==> answer[k] == Add(e[k], Mul(root(2 * |e|, k), d[k]))
    ensures forall k :: 0 <= k < |e| ==> answer[k + |e|] == Sub(e[k], Mul(root(2 * |e|, k), d[k]))
    ensures forall j: nat :: written[j] == (if j < 2 * |e| then 1 else 0)
  {
    var h := |e|;
    var n := 2 * h;
    var a := new Complex[n](_ => Zero);
    count := 0;
    written := multiset{};
    for k := 0 to h
      invariant count == k
      invariant forall j :: 0 <= j < k ==> a[j] == Add(e[j], Mul(root(n, j), d[j]))
      invariant forall j :: 0 <= j < k ==> a[j + h] == Sub(e[j], Mul(root(n, j), d[j]))
      invariant forall j: nat :: written[j] == (if j < k || h <= j < h + k then 1 else 0)
    {
      var w := root(n, k);
      var right := Mul(w, d[k]);
      count := count + 1;
      a[k] := Add(e[k], right);
      a[k + h] := Sub(e[k], right);
      written := written + multiset{k, k + h};
    }
    answer := a[..];
  }

  /**
   * `evaluateAtFFT`: the values of p at the |p| twiddles of size |p|, in index
   * order, and the multiplication count. The source sizes `answer` with an
   * unsafe `set_len` and fills it with one butterfly per k < n/2; the model
   * requires what makes every slot written, a length that is 0 or a power of
   * two. The ghost result `written` counts how often the combine loop
   * writes each output index.
   */
  method EvaluateAtFft(p: seq<Complex>, root: (nat, nat) -> Complex)
    returns (answer: seq<Complex>, count: nat, ghost written: multiset<nat>)
    requires |p| == 0 || IsPowerOfTwo(|p|)
    ensures |answer| == |p|
    ensures count == FftCount(|p|)
    ensures forall m: nat :: Pow2(m) == |p| ==> 2 * count == m * |p|
    ensures |p| >= 2 ==> forall j :: 0 <= j < |p| ==> written[j] == 1
    ensures forall j :: |p| <= j ==> written[j] == 0
    ensures IsRootFamily(root) ==> forall j :: 0 <= j < |p| ==> answer[j] == Eval(p, root(|p|, j))
    decreases |p|
  {
    var n := |p|;
    written := multiset{};
    if n == 1 {
      EvalSingleton(p[0], root(1, 0));
      answer, count := [p[0]], 0;
      FftCountClosedForm(1);
      return;
    } else if n == 0 {
      answer, count := [], 0;
      return;
    }

    var even, odd := Split(p);
    var h := n / 2;
    assert |even| == h && |odd| == h && IsPowerOfTwo(h);
    var e, eCount, _ := EvaluateAtFft(even, root);
    var d, dCount, _ := EvaluateAtFft(odd, root);
    var c;
    answer, c, written := Butterflies(e, d, root);
    count := eCount + dCount + c;

    FftCountClosedForm(n);
    if IsRootFamily(root) {
      CombinedValues(p, even, odd, e, d, answer, root);
    }
  }
}
