/** Complex_int16 values, the textbook (exact, unbounded) complex arithmetic
    the kernels are measured against, and the correspondence between a
    register's lanes and the complex elements it packs. */
module Complex {
  import opened Lanes

  /** A pair of integers, fields re and im. It holds a Complex_int16
      {int16 real, int16 imag} only once reduced by Wrap; unreduced, it
      carries the exact results of Mul, Add, Sum and Dot. */
  datatype Complex16 = Complex16(re: int, im: int)

  const Zero := Complex16(0, 0)

  /** Exact complex product (re_a + i im_a)(re_b + i im_b). */
  function Mul(a: Complex16, b: Complex16): (r: Complex16) {
    Complex16(a.re * b.re - a.im * b.im, a.re * b.im + a.im * b.re)
  }

  function Add(a: Complex16, b: Complex16): (r: Complex16) {
    Complex16(a.re + b.re, a.im + b.im)
  }

  /** Both components reduced to int16. */
  function Wrap(c: Complex16): (r: Complex16)
    ensures IsInt16(r.re) && IsInt16(r.im)
  {
    Complex16(Wrap16(c.re), Wrap16(c.im))
  }

  /** Wrapping twice is wrapping once. */
  lemma WrapIdempotent(c: Complex16)
    ensures Wrap(Wrap(c)) == Wrap(c)
  {
    Wrap16OfInt16(Wrap16(c.re));
    Wrap16OfInt16(Wrap16(c.im));
  }

  /** Complex_int16's `+`, defined in a header that is not part of this
      model; taken to be component-wise wrapping addition. */
  function AddWrapping(a: Complex16, b: Complex16): (r: Complex16)
    ensures r == Wrap(Add(Wrap(a), Wrap(b)))
  {
    Wrap16AddWrap(a.re, b.re);
    Wrap16AddWrap(a.im, b.im);
    Wrap(Add(a, b))
  }

  /** Adding wrapped values with wrapping gives the wrapped exact sum: the
      order in which the wrap is applied does not matter. */
  lemma AddWrappingOfWrapped(x: Complex16, y: Complex16)
    ensures AddWrapping(Wrap(x), Wrap(y)) == Wrap(Add(x, y))
  {
    WrapIdempotent(x);
    WrapIdempotent(y);
    Wrap16AddWrap(x.re, y.re);
    Wrap16AddWrap(x.im, y.im);
  }

  /** Exact sum of a sequence of complex values, left to right. */
  function Sum(cs: seq<Complex16>): (r: Complex16)
    decreases |cs|
  {
    if cs == [] then Zero else Add(Sum(cs[..|cs| - 1]), cs[|cs| - 1])
  }

  /** Element-wise products a_k * b_k. */
  function Products(xs: seq<Complex16>, ys: seq<Complex16>): (ps: seq<Complex16>)
    requires |xs| == |ys|
    ensures |ps| == |xs|
  {
    seq(|xs|, k requires 0 <= k < |xs| => Mul(xs[k], ys[k]))
  }

  /** Exact dot product without conjugation: the sum of a_k * b_k. */
  function Dot(xs: seq<Complex16>, ys: seq<Complex16>): (r: Complex16)
    requires |xs| == |ys|
  {
    Sum(Products(xs, ys))
  }

  /** The complex elements a register packs: element k is lanes 2k, 2k+1. */
  function Elements(v: seq<int>): (cs: seq<Complex16>)
    ensures |cs| == |v| / 2
  {
    seq(|v| / 2, k requires 0 <= k < |v| / 2 => Complex16(v[2 * k], v[2 * k + 1]))
  }

  /** Element k of a register, as its two lanes. */
  lemma ElementAt(v: seq<int>, k: nat)
    requires 2 * k + 1 < |v|
    ensures k < |Elements(v)| && Elements(v)[k] == Complex16(v[2 * k], v[2 * k + 1])
  {
  }

  /** A register whose lanes 2k, 2k+1 hold the wrapped real and imaginary
      parts of the product of element k of a and element k of b holds that
      product as its element k. */
  lemma ProductElement(r: seq<int>, a: seq<int>, b: seq<int>, k: nat)
    requires 2 * k + 1 < |r| && 2 * k + 1 < |a| && 2 * k + 1 < |b|
    requires r[2 * k] == Wrap16(a[2 * k] * b[2 * k] - a[2 * k + 1] * b[2 * k + 1])
    requires r[2 * k + 1] == Wrap16(a[2 * k] * b[2 * k + 1] + a[2 * k + 1] * b[2 * k])
    ensures k < |Elements(r)| && k < |Elements(a)| && k < |Elements(b)|
    ensures Elements(r)[k] == Wrap(Mul(Elements(a)[k], Elements(b)[k]))
  {
    ElementAt(r, k);
    ElementAt(a, k);
    ElementAt(b, k);
  }

  /** The register a run of Complex_int16 values in memory loads as. */
  function Interleave(cs: seq<Complex16>): (v: seq<int>)
    ensures |v| == 2 * |cs|
  {
    seq(2 * |cs|, j requires 0 <= j < 2 * |cs| =>
      if j % 2 == 0 then cs[j / 2].re else cs[j / 2].im)
  }

  lemma ElementsOfInterleave(cs: seq<Complex16>)
    ensures Elements(Interleave(cs)) == cs
  {
  }

  lemma InterleaveOfElements(v: seq<int>)
    requires |v| % 2 == 0
    ensures Interleave(Elements(v)) == v
  {
    var w := Interleave(Elements(v));
    forall j | 0 <= j < |v| ensures w[j] == v[j] {
      if j % 2 == 0 {
        assert 2 * (j / 2) == j;
      } else {
        assert 2 * (j / 2) + 1 == j;
      }
    }
  }

  /** Two registers of even width with the same elements are equal. */
  lemma ElementsInjective(v: seq<int>, w: seq<int>)
    requires |v| % 2 == 0 && |w| % 2 == 0 && Elements(v) == Elements(w)
    ensures v == w
  {
    InterleaveOfElements(v);
    InterleaveOfElements(w);
  }

  /** Splitting a register in two splits its elements in two. */
  lemma ElementsSplit(v: seq<int>, n: nat)
    requires |v| % 2 == 0 && n % 2 == 0 && n <= |v|
    ensures Elements(v[..n]) + Elements(v[n..]) == Elements(v)
  {
    var l, h := Elements(v[..n]), Elements(v[n..]);
    forall k | 0 <= k < |v| / 2 ensures (l + h)[k] == Elements(v)[k] {
      if k >= n / 2 {
        assert v[n..][2 * (k - n / 2)] == v[2 * k];
        assert v[n..][2 * (k - n / 2) + 1] == v[2 * k + 1];
      }
    }
  }

  lemma {:induction false} SumAppend(xs: seq<Complex16>, ys: seq<Complex16>)
    ensures Sum(xs + ys) == Add(Sum(xs), Sum(ys))
    decreases |ys|
  {
    if ys == [] {
      assert xs + ys == xs;
    } else {
      var ys' := ys[..|ys| - 1];
      assert (xs + ys)[..|xs + ys| - 1] == xs + ys';
      SumAppend(xs, ys');
    }
  }

  /** The element sum of a register is the sum over its first n lanes plus
      the sum over the rest. */
  lemma SumOfSplit(v: seq<int>, n: nat)
    requires |v| % 2 == 0 && n % 2 == 0 && n <= |v|
    ensures Sum(Elements(v)) == Add(Sum(Elements(v[..n])), Sum(Elements(v[n..])))
  {
    ElementsSplit(v, n);
    SumAppend(Elements(v[..n]), Elements(v[n..]));
  }

  /** Element-wise sums a_k + b_k. */
  function AddEach(xs: seq<Complex16>, ys: seq<Complex16>): (zs: seq<Complex16>)
    requires |xs| == |ys|
    ensures |zs| == |xs|
  {
    seq(|xs|, k requires 0 <= k < |xs| => Add(xs[k], ys[k]))
  }

  /** The sum of element-wise sums is the sum of the two sums. */
  lemma {:induction false} SumAddEach(xs: seq<Complex16>, ys: seq<Complex16>)
    requires |xs| == |ys|
    ensures Sum(AddEach(xs, ys)) == Add(Sum(xs), Sum(ys))
    decreases |xs|
  {
    if xs != [] {
      var n := |xs| - 1;
      var zs := AddEach(xs, ys);
      assert zs[..n] == AddEach(xs[..n], ys[..n]);
      SumAddEach(xs[..n], ys[..n]);
      assert Sum(zs) == Add(Sum(zs[..n]), zs[n]);
    }
  }

  /** Sums of element-wise congruent sequences are congruent: wrapping any
      term of a sum does not change the wrapped total. */
  lemma {:induction false} SumCongruent(xs: seq<Complex16>, ys: seq<Complex16>)
    requires |xs| == |ys|
    requires forall k :: 0 <= k < |xs| ==> Wrap(xs[k]) == Wrap(ys[k])
    ensures Wrap(Sum(xs)) == Wrap(Sum(ys))
    decreases |xs|
  {
    if xs != [] {
      var n := |xs| - 1;
      SumCongruent(xs[..n], ys[..n]);
      var s, t := Sum(xs[..n]), Sum(ys[..n]);
      calc {
        Wrap16(Sum(xs).re);
        Wrap16(s.re + xs[n].re);
        { Wrap16AddWrap(s.re, xs[n].re); }
        Wrap16(Wrap16(s.re) + Wrap16(xs[n].re));
        Wrap16(Wrap16(t.re) + Wrap16(ys[n].re));
        { Wrap16AddWrap(t.re, ys[n].re); }
        Wrap16(Sum(ys).re);
      }
      calc {
        Wrap16(Sum(xs).im);
        Wrap16(s.im + xs[n].im);
        { Wrap16AddWrap(s.im, xs[n].im); }
        Wrap16(Wrap16(s.im) + Wrap16(xs[n].im));
        Wrap16(Wrap16(t.im) + Wrap16(ys[n].im));
        { Wrap16AddWrap(t.im, ys[n].im); }
        Wrap16(Sum(ys).im);
      }
    }
  }

  /** n copies of c sum to n times c. */
  lemma {:induction false} SumRepeated(c: Complex16, n: nat)
    ensures Sum(seq(n, _ => c)) == Complex16(n * c.re, n * c.im)
  {
    if n > 0 {
      assert seq(n, _ => c)[..n - 1] == seq(n - 1, _ => c);
      SumRepeated(c, n - 1);
    }
  }

  /** The real part of a register's element sum is the total of its even
      lanes, the imaginary part the total of its odd lanes. */
  function EvenLaneTotal(v: seq<int>): (r: int)
    decreases |v|
  {
    if |v| < 2 then 0 else EvenLaneTotal(v[..|v| - 2]) + v[|v| - 2]
  }

  function OddLaneTotal(v: seq<int>): (r: int)
    decreases |v|
  {
    if |v| < 2 then 0 else OddLaneTotal(v[..|v| - 2]) + v[|v| - 1]
  }

  lemma {:induction false} SumIsLaneTotals(v: seq<int>)
    requires |v| % 2 == 0
    ensures Sum(Elements(v)) == Complex16(EvenLaneTotal(v), OddLaneTotal(v))
    decreases |v|
  {
    if v != [] {
      var v' := v[..|v| - 2];
      assert Elements(v)[..|v| / 2 - 1] == Elements(v');
      SumIsLaneTotals(v');
    }
  }
}
