/**
 * The Rader transform engine (`rader_fft`): validates that the length is
 * prime, forms the DC term, gathers the samples and the kernel through the
 * powers of a primitive root, convolves them circularly and scatters the
 * reconstructed values back to natural bin order.
 *
 * Samples are complex numbers with exact real components; the kernel value
 * exp(-2 pi j k / p) is a parameter, and the FFT / product / inverse-FFT
 * step is the length p - 1 circular convolution it computes.
 */
module Rader {
  import opened Wrappers
  import opened NumberTheory
  import opened IndexMap

  datatype Complex = Complex(re: real, im: real)

  const Zero := Complex(0.0, 0.0)
  const One := Complex(1.0, 0.0)

  function Add(a: Complex, b: Complex): Complex {
    Complex(a.re + b.re, a.im + b.im)
  }

  function Sub(a: Complex, b: Complex): Complex {
    Complex(a.re - b.re, a.im - b.im)
  }

  function Mul(a: Complex, b: Complex): Complex {
    Complex(a.re * b.re - a.im * b.im, a.re * b.im + a.im * b.re)
  }

  /** Python's `sum`: 0 + s[0] + s[1] + ..., added left to right; a single term sums to itself. */
  function Sum(s: seq<Complex>): (r: Complex)
    ensures |s| == 1 ==> r == s[0]
  {
    if s == [] then Zero else Add(Sum(s[..|s| - 1]), s[|s| - 1])
  }

  /** A sum whose terms are all zero except the one at index n is that term. */
  lemma {:induction false} SumOfSingleTerm(s: seq<Complex>, n: int)
    requires 0 <= n < |s|
    requires forall m :: 0 <= m < |s| && m != n ==> s[m] == Zero
    ensures Sum(s) == s[n]
  {
    var last := |s| - 1;
    if n < last {
      SumOfSingleTerm(s[..last], n);
    } else {
      SumOfZeros(s[..last]);
    }
  }

  /** Terms that are all zero sum to zero. */
  lemma {:induction false} SumOfZeros(s: seq<Complex>)
    requires forall m :: 0 <= m < |s| ==> s[m] == Zero
    ensures Sum(s) == Zero
  {
    if s != [] {
      SumOfZeros(s[..|s| - 1]);
    }
  }

  /**
   * The length-n circular convolution c[k] = sum over m of a[m] * b[(k - m) mod n],
   * which fft, elementwise product and ifft compute.
   */
  function CircularConvolution(a: seq<Complex>, b: seq<Complex>): (c: seq<Complex>)
    requires |a| == |b|
    ensures |c| == |a|
  {
    seq(|a|, k requires 0 <= k < |a| =>
      Sum(seq(|a|, m requires 0 <= m < |a| => Mul(a[m], b[(k - m) % |a|]))))
  }

  /**
   * Convolving with an impulse at position s shifts the other operand:
   * c[k] = a[(k - s) mod n]. With s = 0 the unit impulse is the identity.
   */
  lemma ConvolutionWithImpulse(a: seq<Complex>, delta: seq<Complex>, s: int)
    requires |a| == |delta| && 0 <= s < |delta| && delta[s] == One
    requires forall m :: 0 <= m < |delta| && m != s ==> delta[m] == Zero
    ensures forall k :: 0 <= k < |a| ==> CircularConvolution(a, delta)[k] == a[(k - s) % |a|]
  {
    var n := |a|;
    forall k | 0 <= k < n
      ensures CircularConvolution(a, delta)[k] == a[(k - s) % n]
    {
      var terms := seq(n, m requires 0 <= m < n => Mul(a[m], delta[(k - m) % n]));
      var j := (k - s) % n;
      forall m | 0 <= m < n && m != j
        ensures terms[m] == Zero
      {
        ShiftedOffset(k, m, s, n);
      }
      ShiftedOffset(k, j, s, n);
      assert terms[j] == Mul(a[j], delta[s]);
      SumOfSingleTerm(terms, j);
    }
  }

  /** (k - m) mod n is s exactly for m = (k - s) mod n. */
  lemma ShiftedOffset(k: int, m: int, s: int, n: int)
    requires 0 <= k < n && 0 <= m < n && 0 <= s < n
    ensures (k - m) % n == s <==> m == (k - s) % n
  {
    SmallModulus(k - m, n);
    SmallModulus(k - s, n);
  }

  /** The remainder of a difference of two indices below n. */
  lemma SmallModulus(d: int, n: int)
    requires -n < d < n
    ensures d % n == if d >= 0 then d else d + n
  {
    if d < 0 {
      assert d == n * (-1) + (d + n);
    }
  }

  /**
   * Line 117: the value z[i] + x[0] - z[0] written at bin pow(g, i, p). It
   * equals x[0] exactly when z[i] equals z[0], so the pass i = 0 writes x[0].
   */
  function Reconstructed(z: seq<Complex>, x0: Complex, i: int): (r: Complex)
    requires 0 <= i < |z|
    ensures r == x0 <==> z[i] == z[0]
  {
    Sub(Add(z[i], x0), z[0])
  }

  /**
   * The output array after j passes of the scatter loop: zeros with the DC
   * term at bin 0, then X[pow(g, i, p)] := z[i] + x0 - z[0] for i = 0 .. j - 1.
   */
  function Scatter(p: int, g: int, z: seq<Complex>, x0: Complex, dc: Complex, j: int): (X: seq<Complex>)
    requires p >= 2 && |z| == p - 1 && 0 <= j <= p - 1
    ensures |X| == p
    decreases j
  {
    if j == 0 then seq(p, k requires 0 <= k < p => if k == 0 then dc else Zero)
    else Scatter(p, g, z, x0, dc, j - 1)[ModPow(g, j - 1, p) := Reconstructed(z, x0, j - 1)]
  }

  /** The scatter never writes bin 0: the DC term survives. */
  lemma {:induction false} ScatterKeepsDc(p: int, g: int, z: seq<Complex>, x0: Complex, dc: Complex, j: int)
    requires Prime(p) && 1 <= g < p && |z| == p - 1 && 0 <= j <= p - 1
    ensures Scatter(p, g, z, x0, dc, j)[0] == dc
    decreases j
  {
    if j > 0 {
      ScatterKeepsDc(p, g, z, x0, dc, j - 1);
      PowerIndexInRange(p, g, j - 1);
    }
  }

  /** Bin pow(g, i, p) holds the value of the last pass i that wrote it. */
  lemma {:induction false} ScatterLastWrite(p: int, g: int, z: seq<Complex>, x0: Complex, dc: Complex, j: int, i: int)
    requires p >= 2 && |z| == p - 1 && 0 <= i < j <= p - 1
    requires forall i' :: i < i' < j ==> ModPow(g, i', p) != ModPow(g, i, p)
    ensures Scatter(p, g, z, x0, dc, j)[ModPow(g, i, p)] == Reconstructed(z, x0, i)
    decreases j
  {
    if i < j - 1 {
      ScatterLastWrite(p, g, z, x0, dc, j - 1, i);
    }
  }

  /** A bin that no pass wrote keeps its initial value (the DC term at 0, zero elsewhere). */
  lemma {:induction false} ScatterUnwritten(p: int, g: int, z: seq<Complex>, x0: Complex, dc: Complex, j: int, k: int)
    requires p >= 2 && |z| == p - 1 && 0 <= j <= p - 1 && 0 <= k < p
    requires forall i :: 0 <= i < j ==> ModPow(g, i, p) != k
    ensures Scatter(p, g, z, x0, dc, j)[k] == if k == 0 then dc else Zero
    decreases j
  {
    if j > 0 {
      ScatterUnwritten(p, g, z, x0, dc, j - 1, k);
    }
  }

  /** The convolution result z = y (*) h of the gathered samples and the reversed kernel. */
  function Convolved(x: seq<Complex>, g: int, kernel: int -> Complex): (z: seq<Complex>)
    requires |x| >= 2
    ensures |z| == |x| - 1
  {
    CircularConvolution(Gathered(x, g), CyclicReverse(KernelSeq(kernel, g, |x|)))
  }

  /** What `rader_fft` returns for samples x, root g and kernel, once the length check has passed. */
  function Transform(x: seq<Complex>, g: int, kernel: int -> Complex): (X: seq<Complex>)
    requires |x| >= 2
    ensures |X| == |x|
  {
    Scatter(|x|, g, Convolved(x, g, kernel), x[0], Sum(x), |x| - 1)
  }

  /** Whatever root in [1, p - 1] is used, bin 0 of the output is the sum of the samples. */
  lemma TransformDc(x: seq<Complex>, g: int, kernel: int -> Complex)
    requires Prime(|x|) && 1 <= g < |x|
    ensures Transform(x, g, kernel)[0] == Sum(x)
  {
    var p, dc := |x|, Sum(x);
    var z := Convolved(x, g, kernel);
    assert Transform(x, g, kernel) == Scatter(p, g, z, x[0], dc, p - 1);
    ScatterKeepsDc(p, g, z, x[0], dc, p - 1);
  }

  /** With distinct powers no bin is written twice, so bin pow(g, i, p) keeps the pass-i value. */
  lemma ScatterWithGenerator(p: int, g: int, z: seq<Complex>, x0: Complex, dc: Complex)
    requires p >= 2 && |z| == p - 1 && DistinctPowers(p, g)
    ensures forall i :: 0 <= i < p - 1 ==> Scatter(p, g, z, x0, dc, p - 1)[ModPow(g, i, p)] == Reconstructed(z, x0, i)
  {
    forall i | 0 <= i < p - 1
      ensures Scatter(p, g, z, x0, dc, p - 1)[ModPow(g, i, p)] == Reconstructed(z, x0, i)
    {
      ScatterLastWrite(p, g, z, x0, dc, p - 1, i);
    }
  }

  /**
   * When g generates the group modulo p, every bin 1 .. p - 1 is written
   * exactly once, bin pow(g, i, p) with z[i] + x[0] - z[0].
   */
  lemma TransformWithGenerator(x: seq<Complex>, g: int, kernel: int -> Complex)
    requires Prime(|x|) && 1 <= g < |x| && DistinctPowers(|x|, g)
    ensures Powers(|x|, g, |x| - 1) == Interval(1, |x|)
    ensures forall i :: 0 <= i < |x| - 1 ==>
      Transform(x, g, kernel)[ModPow(g, i, |x|)] == Reconstructed(Convolved(x, g, kernel), x[0], i)
  {
    PowersCover(|x|, g);
    ScatterWithGenerator(|x|, g, Convolved(x, g, kernel), x[0], Sum(x));
  }

  /**
   * Line 117 as written: the pass i = 0 writes z[0] + x[0] - z[0] = x[0] to
   * bin g^0 = 1, and a generator never writes bin 1 again, so bin 1 of the
   * output is the first sample whatever the kernel and the convolution give.
   */
  lemma BinOneIsFirstSample(x: seq<Complex>, g: int, kernel: int -> Complex)
    requires Prime(|x|) && 1 <= g < |x| && DistinctPowers(|x|, g)
    ensures Transform(x, g, kernel)[1] == x[0]
  {
    var p := |x|;
    var z := Convolved(x, g, kernel);
    var X := Transform(x, g, kernel);
    assert X == Scatter(p, g, z, x[0], Sum(x), p - 1);
    ScatterLastWrite(p, g, z, x[0], Sum(x), p - 1, 0);
    ModPowZero(g, p);
    assert Reconstructed(z, x[0], 0) == x[0];
  }

  datatype Error = InvalidLength | NoPrimitiveRoot

  /** Lines 64-82: fill y[i] = x[g^i mod p] and h_conv[i] = kernel(g^i mod p) for i in 0 .. p - 2. */
  method GatherSamples(x: array<Complex>, g: int, kernel: int -> Complex) returns (y: array<Complex>, hConv: array<Complex>)
    requires x.Length >= 2
    ensures fresh(y) && fresh(hConv)
    ensures y[..] == Gathered(x[..], g)
    ensures hConv[..] == KernelSeq(kernel, g, x.Length)
  {
    var p := x.Length;
    y := new Complex[p - 1](_ => Zero);
    hConv := new Complex[p - 1](_ => Zero);
    for i := 0 to p - 1
      invariant forall j :: 0 <= j < i ==> y[j] == x[ModPow(g, j, p)]
      invariant forall j :: 0 <= j < i ==> hConv[j] == kernel(ModPow(g, j, p))
    {
      var k := ModPow(g, i, p);
      y[i] := x[k];
      hConv[i] := kernel(k);
    }
  }

  /** Lines 102-117: X starts as zeros with the DC term at 0, then X[g^i mod p] := z[i] + x0 - z[0]. */
  method ScatterOutput(p: int, g: int, z: seq<Complex>, x0: Complex, dc: Complex) returns (X: array<Complex>)
    requires p >= 2 && |z| == p - 1
    ensures fresh(X)
    ensures X[..] == Scatter(p, g, z, x0, dc, p - 1)
  {
    X := new Complex[p](_ => Zero);
    X[0] := dc;
    for i := 0 to p - 1
      invariant X[..] == Scatter(p, g, z, x0, dc, i)
    {
      var k := ModPow(g, i, p);
      X[k] := Reconstructed(z, x0, i);
    }
  }

  /**
   * `rader_fft`. Raises InvalidLength for every length that is not prime
   * (0 and 1 included) and NoPrimitiveRoot when the root search fails;
   * otherwise returns the scattered reconstruction.
   */
  method RaderFft(x: array<Complex>, kernel: int -> Complex) returns (r: Result<seq<Complex>, Error>)
    ensures r == Failure(InvalidLength) <==> !Prime(x.Length)
    ensures r == Failure(NoPrimitiveRoot) ==> Prime(x.Length) && x.Length != 2 && forall c :: 2 <= c < x.Length ==> !PassesRootTest(x.Length, c)
    ensures r.Success? ==> |r.value| == x.Length && r.value[0] == Sum(x[..])
    ensures r.Success? ==> exists g :: ChosenRoot(x.Length, g) && r.value == Transform(x[..], g, kernel)
  {
    var n := x.Length;
    if !IsPrime(n) {
      return Failure(InvalidLength);
    }
    var dc := Sum(x[..]);
    if n == 1 {
      // Unreachable: IsPrime(1) is false, so length 1 was rejected above.
      assert false;
      return Success([dc]);
    }
    var p := n;
    var root := PrimitiveRoot(p);
    if root.None? {
      return Failure(NoPrimitiveRoot);
    }
    var g := root.value;
    var y, hConv := GatherSamples(x, g, kernel);
    var h := CyclicReverse(hConv[..]);
    var z := CircularConvolution(y[..], h);
    var X := ScatterOutput(p, g, z, x[0], dc);
    ScatterKeepsDc(p, g, z, x[0], dc, p - 1);
    return Success(X[..]);
  }
}
