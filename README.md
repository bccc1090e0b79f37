# Rader's prime-length DFT: a Dafny model of `radar_algoritm.py`

This project models the core of `radar_algoritm.py`. That file computes the DFT of a
sequence of prime length p with Rader's reduction to a circular convolution of length
p − 1. The model has four modules:

- `Wrappers`: the `Option` and `Result` types used for `None` results and raised errors.
- `NumberTheory`: two parts of the source.
  - `is_prime` is trial division with an early return. It is modelled as a recursive
    function, and its bound `int(sqrt(n))` is stated exactly as d·d ≤ n.
  - `get_primitive_root` has a factor loop, which becomes the method `DistinctPrimeFactors`.
    Its ascending candidate search becomes the method `PrimitiveRoot`.
  - Both are proved against the textbook definitions of primality and of prime factors.
    The proofs use Euclid's lemma, which is proved in the module by descent.
- `IndexMap`: the data movement of the reduction.
  - The indices `pow(g, i, p)` are shown to lie in 1 .. p − 1 whenever p is prime and 1 ≤ g < p.
  - It defines the gather `y[i] = x[g^i mod p]` and the kernel sequence.
  - It defines the cyclic reversal `[h[0]] + h[1:][::-1]`.
  - It holds the facts that follow when g generates the multiplicative group modulo p, that is,
    when its powers g^0 … g^(p−2) are pairwise distinct.
- `Rader`: the engine `rader_fft`.
  - Samples are complex numbers with exact real parts.
  - The kernel value `exp(-2πj·k/p)` is a parameter.
  - The `fft` / product / `ifft` step is the length p − 1 circular convolution that it computes.
  - `RaderFft` fills `y`, `h_conv` and `X` in arrays, as the source does.
  - Its result is tied to `Transform`. `Transform` is a specification function.
  - `Scatter` gives the output array after each pass of the reconstruction loop, so it keeps
    "last write wins" semantics.

Behaviour of the code as written, which the model keeps:

- `is_prime(1)` is false, so `rader_fft` raises on length 1. The `N == 1` branch of the source
  is unreachable; in `RaderFft` that branch is `assert false`.
- Bin 0 of the output is `sum(x)` for every root g in 1 .. p − 1. No scatter index is 0.
- The reconstruction on line 117 writes `z[i] + x[0] − z[0]` to bin `g^i mod p`. So the
  pass i = 0 writes `(z[0] + x[0]) − z[0]` to bin 1, which is `x[0]` in exact arithmetic (up to
  rounding in the floating-point source). When g is a generator no later pass writes bin 1 again,
  so bin 1 of the output is `x[0]` in exact arithmetic (`BinOneIsFirstSample`).
- The textbook Rader step differs: it writes `x[0] + z[i]` to bin `g^(−i) mod p`. The model
  follows the code and makes no claim that the output equals the DFT.
- The input array `x` is never written. `RaderFft` has no `modifies` clause, so Dafny checks this.

## Model

| member | source | states |
|---|---|---|
| NumberTheory.TrialDivision | radar_algoritm.py:6-8 | the scan from candidate d answers true exactly when no e ≥ d with e·e ≤ n divides n |
| NumberTheory.IsPrime | radar_algoritm.py:3-8 | false for every n < 2; true exactly when n ≥ 2 and no d with 2 ≤ d, d·d ≤ n divides n; and that is exactly primality |
| NumberTheory.SquareRootTest | radar_algoritm.py:6-8 | trial division only up to the square root decides primality: n ≥ 2 with no divisor d, d·d ≤ n, is prime |
| NumberTheory.SmallDivisorSuffices | radar_algoritm.py:19-25 | when the factor loop stops (d·d > n) with no divisor of n below d, a remaining n > 1 is prime |
| NumberTheory.LeastDivisorIsPrime | radar_algoritm.py:19-21 | the first d that divides the remaining n is prime, so only primes enter `factors` |
| NumberTheory.DivideOut | radar_algoritm.py:22-23 | dividing a prime d out of n keeps n ≥ 1, makes it smaller, and removes exactly d from its prime factors; divisors of the quotient divide n |
| NumberTheory.DistinctPrimeFactors | radar_algoritm.py:16-25 | after the factor loop, `factors` is exactly the set of distinct primes dividing p − 1 (empty for p − 1 < 2) |
| NumberTheory.HasPrimeFactor | radar_algoritm.py:16-25 | every n ≥ 2 has a prime factor, so for p > 2 the set `factors` of p − 1 is never empty |
| NumberTheory.ModPow | radar_algoritm.py:75 | Python's `pow(b, e, m)` as g^e mod m, used at lines 31, 75 and 113; for m > 0 the value lies in [0, m) |
| NumberTheory.CongruentToOneFails | radar_algoritm.py:28-33 | for p > 2 a candidate congruent to 1 modulo p gives pow(c, (p−1)/f, p) = 1 at some prime factor f of p − 1 |
| NumberTheory.PassesRootTest | radar_algoritm.py:29-34 | the inner loop's verdict: pow(c, (p−1)/f, p) ≠ 1 for every f in `factors`; for p > 2 no candidate congruent to 1 modulo p passes |
| NumberTheory.ChosenRoot | radar_algoritm.py:12-35 | the returned root: 1 for p = 2, else the least candidate in [2, p − 1] that passes; either way it lies in 1 .. p − 1 and passes the test |
| NumberTheory.ChosenRootUnique | radar_algoritm.py:28-35 | the search is deterministic: at most one value is the chosen root for a given p |
| NumberTheory.PrimitiveRoot | radar_algoritm.py:10-36 | 1 for p = 2; otherwise a result in [2, p − 1] that passes the test pow(g, (p−1)/f, p) ≠ 1 for every prime factor f, with every smaller candidate failing; None only when no candidate in [2, p − 1] passes |
| NumberTheory.PowNotDivisible | radar_algoritm.py:75 | a prime that does not divide g divides no power of g |
| IndexMap.PowerIndexInRange | radar_algoritm.py:73-78 | for prime p and 1 ≤ g < p, every index pow(g, i, p) lies in 1 .. p − 1 |
| IndexMap.Gathered | radar_algoritm.py:73-78 | y = [x[pow(g, i, p)] for i in 0 .. p − 2] has p − 1 entries |
| IndexMap.KernelSeq | radar_algoritm.py:73-82 | h_conv = [kernel(pow(g, i, p)) for i in 0 .. p − 2] has p − 1 entries |
| IndexMap.GatherReadsNonzeroSamples | radar_algoritm.py:73-78 | for prime p and 1 ≤ g < p, pass i reads x[k] at the nonzero residue k = pow(g, i, p), so x[0] is never gathered |
| IndexMap.KernelAtNonzeroResidues | radar_algoritm.py:73-82 | for prime p and 1 ≤ g < p, h_conv[i] is the kernel at the nonzero residue pow(g, i, p), never at 0 |
| IndexMap.Reverse | radar_algoritm.py:85 | `s[::-1]` has the length of s and element i equal to s[len − 1 − i] |
| IndexMap.CyclicReverse | radar_algoritm.py:85 | h keeps the length of h_conv, h[0] = h_conv[0] and h[i] = h_conv[p − 1 − i] for 1 ≤ i ≤ p − 2 |
| IndexMap.CyclicReverseInvolution | radar_algoritm.py:85 | the kernel reversal is its own inverse |
| IndexMap.PowersCover | radar_algoritm.py:73-78 | when g generates the group, the indices g^i mod p for i in 0 .. p − 2 are exactly 1 .. p − 1 |
| IndexMap.GeneratorPassesRootTest | radar_algoritm.py:28-35 | a generator passes the root test of `get_primitive_root` |
| IndexMap.ChosenRootBelowGenerators | radar_algoritm.py:28-36 | the root the search returns is at most every generator, and the search finds one whenever a generator exists |
| Rader.CircularConvolution | radar_algoritm.py:91-98 | the convolution that fft, product and ifft compute has length p − 1 |
| Rader.ConvolutionWithImpulse | radar_algoritm.py:91-98 | convolving with an impulse at position s shifts the other operand, c[k] = a[(k − s) mod n], which fixes the direction of the index; the unit impulse (s = 0) is the identity |
| Rader.Sum | radar_algoritm.py:49 | `sum(x)`: 0 + x[0] + x[1] + … added left to right; a single sample sums to itself |
| Rader.SumOfSingleTerm | radar_algoritm.py:49 | a sum whose terms are zero except one equals that term |
| Rader.Reconstructed | radar_algoritm.py:117 | the value z[i] + x[0] − z[0] written at bin pow(g, i, p); it equals x[0] exactly when z[i] = z[0], so pass 0 always writes x[0] |
| Rader.Scatter | radar_algoritm.py:102-117 | the output array has length p after any number of reconstruction passes |
| Rader.ScatterKeepsDc | radar_algoritm.py:105-117 | for prime p and 1 ≤ g < p the reconstruction loop never overwrites bin 0 |
| Rader.ScatterLastWrite | radar_algoritm.py:111-117 | bin pow(g, i, p) ends with z[i] + x[0] − z[0] when no later pass writes that bin |
| Rader.ScatterUnwritten | radar_algoritm.py:102-105 | a bin that no pass writes keeps its initial value: the sum at bin 0, zero elsewhere |
| Rader.Convolved | radar_algoritm.py:85-98 | the convolution result z has length p − 1 |
| Rader.Transform | radar_algoritm.py:49-120 | the reconstructed output has length p |
| Rader.TransformDc | radar_algoritm.py:49-105 | bin 0 of the output is sum(x), whatever root in 1 .. p − 1 is used |
| Rader.ScatterWithGenerator | radar_algoritm.py:111-117 | when the powers of g are distinct, bin pow(g, i, p) ends with z[i] + x[0] − z[0] for every pass i |
| Rader.TransformWithGenerator | radar_algoritm.py:111-117 | when g generates the group, every bin 1 .. p − 1 is written exactly once: bin pow(g, i, p) holds z[i] + x[0] − z[0] |
| Rader.BinOneIsFirstSample | radar_algoritm.py:117 | when g generates the group, bin 1 of the output is x[0] in exact arithmetic, whatever the kernel and the convolution |
| Rader.GatherSamples | radar_algoritm.py:64-82 | the arrays are fresh, y[i] = x[pow(g, i, p)] and h_conv[i] = kernel(pow(g, i, p)) for i in 0 .. p − 2 |
| Rader.ScatterOutput | radar_algoritm.py:102-117 | a fresh array holding the zeros, the DC term and every scatter write in loop order |
| Rader.RaderFft | radar_algoritm.py:38-120 | raises InvalidLength exactly when the length is not prime (0 and 1 included); raises NoPrimitiveRoot only for a prime p > 2 where no candidate in [2, p − 1] passes (never for p = 2); otherwise returns p values with bin 0 = sum(x), equal to the transform for the root the search chooses; x is never written |

## Left out

- Floating point: samples are complex numbers with exact real parts, and `sum`, `+` and `−` are exact.
- `np.exp` and `np.pi` (lines 81-82): the kernel value at index k is the parameter `kernel`.
- `np.fft.fft`, the elementwise product and `np.fft.ifft` (lines 91-98) are foreign calls. They are replaced by the circular convolution they compute in exact arithmetic.
- The floating-point bound `int(np.sqrt(n))` in `is_prime` is replaced by the exact condition d·d ≤ n.
- Python's three-argument `pow` is modelled by its value, g^e mod p. The algorithm the interpreter uses is not modelled.
- The order in which a Python `set` is iterated: the model picks factors in an arbitrary order. The result does not depend on it.
- NumberTheory.PrimitiveRoot: does not prove that the `None` result is unreachable for prime p. That needs the cyclicity of the multiplicative group modulo p. `ChosenRootBelowGenerators` shows the search succeeds whenever a generator exists.
- Rader.RaderFft: does not prove that NoPrimitiveRoot (the `RuntimeError` on line 58) is unreachable for p > 2, for the same reason. For p = 2 it is proved unreachable: the root is 1 (line 12).
- The converse of the root test is not proved: a candidate that passes is not shown to generate the group, because that needs Fermat's little theorem. The lemmas about full coverage of the bins take the generator property as a hypothesis.
- Any claim that the output equals the DFT. It depends on the kernel values, and the reconstruction on line 117 is not the textbook Rader step.
- The dead variable `x0_offset` (line 109).
- The `__main__` demonstration (lines 124-145): signal generation, the NumPy comparison and printing.
