/**
 * The index mapping of Rader's reduction: the powers g^i mod p that reorder
 * the nonzero sample indices, the gather through them, and the cyclic
 * reversal that aligns the kernel for circular convolution.
 */
module IndexMap {
  import opened NumberTheory

  /** For prime p and 1 <= g < p, every index pow(g, i, p) is a nonzero residue. */
  lemma PowerIndexInRange(p: int, g: int, i: nat)
    requires Prime(p) && 1 <= g < p
    ensures 1 <= ModPow(g, i, p) < p
  {
    assert g % p == g;
    PowNotDivisible(p, g, i);
  }

  /** y[i] = x[pow(g, i, p)] for i in 0 .. p - 2, with p = |x|. */
  function Gathered<T>(x: seq<T>, g: int): (y: seq<T>)
    requires |x| >= 1
    ensures |y| == |x| - 1
  {
    seq(|x| - 1, i requires 0 <= i < |x| - 1 => x[ModPow(g, i, |x|)])
  }

  /** h_conv[i] = kernel(pow(g, i, p)) for i in 0 .. p - 2. */
  function KernelSeq<T>(kernel: int -> T, g: int, p: int): (h: seq<T>)
    requires p >= 1
    ensures |h| == p - 1
  {
    seq(p - 1, i requires 0 <= i < p - 1 => kernel(ModPow(g, i, p)))
  }

  /** The slice reversal `s[::-1]`. */
  function Reverse<T>(s: seq<T>): (r: seq<T>)
    ensures |r| == |s|
    ensures forall i :: 0 <= i < |s| ==> r[i] == s[|s| - 1 - i]
  {
    if s == [] then [] else Reverse(s[1..]) + [s[0]]
  }

  /**
   * `[s[0]] + s[1:][::-1]`: keeps the first element and reverses the rest,
   * that is, index i is read from index -i modulo |s|.
   */
  function CyclicReverse<T>(s: seq<T>): (r: seq<T>)
    requires |s| >= 1
    ensures |r| == |s| && r[0] == s[0]
    ensures forall i :: 1 <= i < |s| ==> r[i] == s[|s| - i]
  {
    [s[0]] + Reverse(s[1..])
  }

  /** Negating indices twice gives the sequence back. */
  lemma CyclicReverseInvolution<T>(s: seq<T>)
    requires |s| >= 1
    ensures CyclicReverse(CyclicReverse(s)) == s
  {
    var r := CyclicReverse(s);
    var rr := CyclicReverse(r);
    forall i | 1 <= i < |s|
      ensures rr[i] == s[i]
    {
      assert rr[i] == r[|s| - i];
    }
  }

  /**
   * g generates the multiplicative group modulo p: the powers g^0 .. g^(p-2)
   * modulo p are pairwise distinct.
   */
  ghost predicate DistinctPowers(p: int, g: int) {
    p >= 1 && forall i, j :: 0 <= i < j < p - 1 ==> ModPow(g, i, p) != ModPow(g, j, p)
  }

  /** The residues pow(g, i, p) for i in 0 .. n - 1. */
  ghost function Powers(p: int, g: int, n: nat): set<int>
    requires p >= 1
  {
    set i | 0 <= i < n :: ModPow(g, i, p)
  }

  lemma {:induction false} PowersSize(p: int, g: int, n: nat)
    requires DistinctPowers(p, g) && n <= p - 1
    ensures |Powers(p, g, n)| == n
  {
    if n > 0 {
      PowersSize(p, g, n - 1);
      var newest := ModPow(g, n - 1, p);
      forall i | 0 <= i < n - 1
        ensures ModPow(g, i, p) != newest
      {
      }
      assert newest !in Powers(p, g, n - 1);
      assert Powers(p, g, n) == Powers(p, g, n - 1) + {newest};
    }
  }

  /** The integers lo .. hi - 1. */
  ghost function Interval(lo: int, hi: int): (r: set<int>)
    ensures forall k :: k in r <==> lo <= k < hi
    ensures lo <= hi ==> |r| == hi - lo
    decreases hi - lo
  {
    if lo >= hi then {} else Interval(lo, hi - 1) + {hi - 1}
  }

  /**
   * When g generates the group, the powers g^0 .. g^(p-2) modulo p reach every
   * nonzero residue, so the gather reads, and the scatter writes, every index
   * 1 .. p - 1 exactly once.
   */
  lemma PowersCover(p: int, g: int)
    requires Prime(p) && 1 <= g < p && DistinctPowers(p, g)
    ensures Powers(p, g, p - 1) == Interval(1, p)
  {
    var image := Powers(p, g, p - 1);
    var nonzero := Interval(1, p);
    PowersSize(p, g, p - 1);
    forall k | k in image
      ensures k in nonzero
    {
      var i :| 0 <= i < p - 1 && ModPow(g, i, p) == k;
      PowerIndexInRange(p, g, i);
    }
    SubsetOfSameSize(image, nonzero);
  }

  /**
   * The gather reads only the samples x[1 ..]: pass i reads x[k] for the
   * nonzero residue k = g^i mod p, so x[0] is never gathered.
   */
  lemma GatherReadsNonzeroSamples<T>(x: seq<T>, g: int)
    requires Prime(|x|) && 1 <= g < |x|
    ensures forall i :: 0 <= i < |x| - 1 ==>
      var k := ModPow(g, i, |x|); 1 <= k < |x| && Gathered(x, g)[i] == x[k]
  {
    var p := |x|;
    forall i | 0 <= i < p - 1
      ensures 1 <= ModPow(g, i, p) < p
    {
      PowerIndexInRange(p, g, i);
    }
  }

  /** The kernel is evaluated only at nonzero residues 1 .. p - 1, never at 0. */
  lemma KernelAtNonzeroResidues<T>(kernel: int -> T, g: int, p: int)
    requires Prime(p) && 1 <= g < p
    ensures forall i :: 0 <= i < p - 1 ==>
      var k := ModPow(g, i, p); 1 <= k < p && KernelSeq(kernel, g, p)[i] == kernel(k)
  {
    forall i | 0 <= i < p - 1
      ensures 1 <= ModPow(g, i, p) < p
    {
      PowerIndexInRange(p, g, i);
    }
  }

  /** A subset as large as its finite superset is the whole superset. */
  lemma SubsetOfSameSize<T>(a: set<T>, b: set<T>)
    requires a <= b && |a| == |b|
    ensures a == b
  {
    assert |b - a| == |b| - |a|;
  }

  /**
   * A generator passes the test `get_primitive_root` applies, so the search
   * never skips one: (p - 1) / f lies in 1 .. p - 2, where g^e differs from g^0 = 1.
   */
  lemma GeneratorPassesRootTest(p: int, g: int)
    requires p > 2 && DistinctPowers(p, g)
    ensures PassesRootTest(p, g)
  {
    var phi := p - 1;
    var factors := PrimeFactors(phi);
    forall f | f in factors
      ensures ModPow(g, phi / f, p) != 1
    {
      var e := phi / f;
      DivisorBound(f, phi);
      assert phi == f * e;
      PositiveFactor(f, e);
      MulLe(2, f, e);
      ModPowZero(g, p);
    }
  }

  /**
   * The ascending search accepts nothing above a generator: the chosen root is
   * at most every generator in [2, p - 1], and when one exists the search
   * does not come back empty.
   */
  lemma ChosenRootBelowGenerators(p: int, c: int)
    requires p > 2 && 2 <= c < p && DistinctPowers(p, c)
    ensures PassesRootTest(p, c)
    ensures forall g :: ChosenRoot(p, g) ==> g <= c
  {
    GeneratorPassesRootTest(p, c);
  }
}
