/** The complex int16 kernels of src/complex_dotproduct.cpp: the 4-, 8- and
    16-element horizontal sums, the 8-element (256-bit) and 16-element
    (512-bit) complex multiplies, and the two 16-element dot products. Each
    kernel is a chain of register operations from module Lanes; the lemmas
    relate it to exact complex arithmetic reduced to 16 bits. */
module ComplexDotProduct {
  import opened Lanes
  import opened Complex

  // ---------------------------------------------------------------------
  // Horizontal sums
  // ---------------------------------------------------------------------

  /** hsum4x32's permutation: lanes 4..7 moved down to lanes 0..3. */
  const UpperPairsDown: seq<int> := [4, 5, 6, 7, 0, 0, 0, 0]

  /** hsum4x32: the complex sum of the 4 elements packed into a 128-bit
      register. */
  function Hsum4x32(v: seq<int>): (r: Complex16)
    requires |v| == 8
  {
    var r1 := AddLanes(v, PermuteLanes(UpperPairsDown, v));
    var r2 := [Wrap16(ExtractLane(r1, 2)), Wrap16(ExtractLane(r1, 3)), 0, 0, 0, 0, 0, 0];
    var res := AddLanes(r1, r2);
    Complex16(Wrap16(LowInt32(res)), Wrap16(ExtractLane(res, 1)))
  }

  /** The low half of a register added lane-wise to its high half. */
  function FoldHalves(v: seq<int>): (r: seq<int>)
    requires |v| % 2 == 0
    ensures |r| == |v| / 2
  {
    AddLanes(LowHalf(v), ExtractHalf(v, 1))
  }

  /** hsum8x32: fold a 256-bit register into 128 bits, then hsum4x32. */
  function Hsum8x32(v: seq<int>): (r: Complex16)
    requires |v| == 16
  {
    Hsum4x32(FoldHalves(v))
  }

  /** hsum16x32: fold a 512-bit register into 256 bits, then hsum8x32. */
  function Hsum16x32(v: seq<int>): (r: Complex16)
    requires |v| == 32
  {
    Hsum8x32(FoldHalves(v))
  }

  /** hsum4x32 returns (Wrap16(v0 + v2 + v4 + v6), Wrap16(v1 + v3 + v5 + v7)):
      the even lanes summed into the real part, the odd lanes into the
      imaginary part. */
  lemma Hsum4x32Lanes(v: seq<int>)
    requires |v| == 8
    ensures Hsum4x32(v) == Complex16(Wrap16(v[0] + v[2] + v[4] + v[6]), Wrap16(v[1] + v[3] + v[5] + v[7]))
  {
    assert UpperPairsDown[0] == 4 && UpperPairsDown[1] == 5 && UpperPairsDown[2] == 6 && UpperPairsDown[3] == 7;
    var up := PermuteLanes(UpperPairsDown, v);
    assert up[0] == v[4] && up[1] == v[5] && up[2] == v[6] && up[3] == v[7];
    var r1 := AddLanes(v, up);
    assert r1[0] == Wrap16(v[0] + v[4]) && r1[1] == Wrap16(v[1] + v[5]);
    assert r1[2] == Wrap16(v[2] + v[6]) && r1[3] == Wrap16(v[3] + v[7]);
    ExtractLaneNarrows(r1, 2);
    ExtractLaneNarrows(r1, 3);
    var r2 := [Wrap16(ExtractLane(r1, 2)), Wrap16(ExtractLane(r1, 3)), 0, 0, 0, 0, 0, 0];
    var res := AddLanes(r1, r2);
    assert res[0] == Wrap16(Wrap16(v[0] + v[4]) + Wrap16(v[2] + v[6]));
    assert res[1] == Wrap16(Wrap16(v[1] + v[5]) + Wrap16(v[3] + v[7]));
    Wrap16AddWrap(v[0] + v[4], v[2] + v[6]);
    Wrap16AddWrap(v[1] + v[5], v[3] + v[7]);
    LowInt32Narrows(res);
    ExtractLaneNarrows(res, 1);
    assert Hsum4x32(v) == Complex16(res[0], res[1]);
    assert v[0] + v[4] + (v[2] + v[6]) == v[0] + v[2] + v[4] + v[6];
    assert v[1] + v[5] + (v[3] + v[7]) == v[1] + v[3] + v[5] + v[7];
  }

  /** The 4 elements of a 128-bit register sum to its even-lane total and
      its odd-lane total. */
  lemma SumOfFour(v: seq<int>)
    requires |v| == 8
    ensures Sum(Elements(v)) == Complex16(v[0] + v[2] + v[4] + v[6], v[1] + v[3] + v[5] + v[7])
  {
    var es := Elements(v);
    assert es[..1][..0] == [] && es[..2][..1] == es[..1] && es[..3][..2] == es[..2] && es[..3] == es[..|es| - 1];
    assert Sum(es[..1]) == Complex16(v[0], v[1]);
    assert Sum(es[..2]) == Complex16(v[0] + v[2], v[1] + v[3]);
    assert Sum(es[..3]) == Complex16(v[0] + v[2] + v[4], v[1] + v[3] + v[5]);
  }

  /** hsum4x32 returns the complex sum of its 4 elements, mod 2^16. */
  lemma Hsum4x32Sums(v: seq<int>)
    requires |v| == 8
    ensures Hsum4x32(v) == Wrap(Sum(Elements(v)))
  {
    Hsum4x32Lanes(v);
    SumOfFour(v);
  }

  /** Element k of the folded register is element k of the low half plus
      element k of the high half, each component wrapped. */
  lemma FoldHalvesElements(v: seq<int>)
    requires |v| % 2 == 0
    ensures forall k :: 0 <= k < |Elements(FoldHalves(v))| ==>
      Elements(FoldHalves(v))[k] == Wrap(Add(Elements(LowHalf(v))[k], Elements(ExtractHalf(v, 1))[k]))
  {
    var n := |v| / 2;
    var lo, hi, f := LowHalf(v), ExtractHalf(v, 1), FoldHalves(v);
    assert |lo| == n && |hi| == n && |f| == n;
    forall k | 0 <= k < n / 2
      ensures Elements(f)[k] == Wrap(Add(Elements(lo)[k], Elements(hi)[k]))
    {
      assert 2 * k + 1 < n;
      assert f[2 * k] == Wrap16(lo[2 * k] + hi[2 * k]);
      assert f[2 * k + 1] == Wrap16(lo[2 * k + 1] + hi[2 * k + 1]);
    }
  }

  /** Adding the high half to the low half keeps the wrapped element sum:
      the even-lane total and the odd-lane total are each preserved mod 2^16. */
  lemma FoldHalvesKeepsSum(v: seq<int>)
    requires |v| % 4 == 0
    ensures Wrap(Sum(Elements(FoldHalves(v)))) == Wrap(Sum(Elements(v)))
  {
    var q := |v| / 4;
    assert |v| == 4 * q && |v| / 2 == 2 * q;
    assert LowHalf(v) == v[..2 * q] && ExtractHalf(v, 1) == v[2 * q..];
    SumOfSplit(v, 2 * q);
    assert Sum(Elements(v)) == Add(Sum(Elements(LowHalf(v))), Sum(Elements(ExtractHalf(v, 1))));
    FoldedSum(v);
  }

  /** The folded register's wrapped sum is the wrapped sum of the two
      halves' sums. */
  lemma FoldedSum(v: seq<int>)
    requires |v| % 4 == 0
    ensures Wrap(Sum(Elements(FoldHalves(v)))) ==
      Wrap(Add(Sum(Elements(LowHalf(v))), Sum(Elements(ExtractHalf(v, 1)))))
  {
    var lo, hi := Elements(LowHalf(v)), Elements(ExtractHalf(v, 1));
    var folded := Elements(FoldHalves(v));
    FoldHalvesElements(v);
    forall k | 0 <= k < |folded|
      ensures Wrap(folded[k]) == Wrap(AddEach(lo, hi)[k])
    {
      WrapIdempotent(Add(lo[k], hi[k]));
    }
    SumCongruent(folded, AddEach(lo, hi));
    SumAddEach(lo, hi);
  }

  /** hsum8x32 returns the complex sum of all 8 elements, mod 2^16. */
  lemma Hsum8x32Sums(v: seq<int>)
    requires |v| == 16
    ensures Hsum8x32(v) == Wrap(Sum(Elements(v)))
  {
    Hsum4x32Sums(FoldHalves(v));
    FoldHalvesKeepsSum(v);
  }

  /** hsum16x32 returns the complex sum of all 16 elements, mod 2^16. */
  lemma Hsum16x32Sums(v: seq<int>)
    requires |v| == 32
    ensures Hsum16x32(v) == Wrap(Sum(Elements(v)))
  {
    Hsum8x32Sums(FoldHalves(v));
    FoldHalvesKeepsSum(v);
  }

  /** The same result as totals of lanes: the real part is the even-lane
      total and the imaginary part the odd-lane total, each mod 2^16. */
  lemma Hsum16x32LaneTotals(v: seq<int>)
    requires |v| == 32
    ensures Hsum16x32(v) == Complex16(Wrap16(EvenLaneTotal(v)), Wrap16(OddLaneTotal(v)))
  {
    Hsum16x32Sums(v);
    SumIsLaneTotals(v);
  }

  // ---------------------------------------------------------------------
  // 512-bit complex multiply and its four lane tables
  // ---------------------------------------------------------------------

  /** The other lane of lane j's element. */
  function OtherLane(j: int): (r: int) {
    if j % 2 == 0 then j + 1 else j - 1
  }

  /** The imaginary lane of lane j's element. */
  function ImagLane(j: int): (r: int) {
    j - j % 2 + 1
  }

  /** The real lane of lane j's element. */
  function RealLane(j: int): (r: int) {
    j - j % 2
  }

  /** -1 on a real lane, +1 on an imaginary lane. */
  function RealSign(j: int): (r: int) {
    if j % 2 == 0 then -1 else 1
  }

  /** temp0: swaps the real and imaginary lane of every element. */
  function SwapPairs(): (t: seq<int>)
    ensures |t| == 32
  {
    seq(32, OtherLane)
  }

  /** temp1: the imaginary lane of every element, in both its lanes. */
  function ImagBoth(): (t: seq<int>)
    ensures |t| == 32
  {
    seq(32, ImagLane)
  }

  /** temp2: the real lane of every element, in both its lanes. */
  function RealBoth(): (t: seq<int>)
    ensures |t| == 32
  {
    seq(32, RealLane)
  }

  /** temp3: -1 on the real lane, +1 on the imaginary lane. */
  function NegateReal(): (t: seq<int>)
    ensures |t| == 32
  {
    seq(32, RealSign)
  }

  /** The table entries, as temp0 lists them. */
  lemma SwapPairsAsWritten()
    ensures SwapPairs() == [1, 0, 3, 2, 5, 4, 7, 6, 9, 8, 11, 10, 13, 12, 15, 14,
                            17, 16, 19, 18, 21, 20, 23, 22, 25, 24, 27, 26, 29, 28, 31, 30]
  {
  }

  /** The table entries, as temp1 lists them. */
  lemma ImagBothAsWritten()
    ensures ImagBoth() == [1, 1, 3, 3, 5, 5, 7, 7, 9, 9, 11, 11, 13, 13, 15, 15,
                           17, 17, 19, 19, 21, 21, 23, 23, 25, 25, 27, 27, 29, 29, 31, 31]
  {
  }

  /** The table entries, as temp2 lists them. */
  lemma RealBothAsWritten()
    ensures RealBoth() == [0, 0, 2, 2, 4, 4, 6, 6, 8, 8, 10, 10, 12, 12, 14, 14,
                           16, 16, 18, 18, 20, 20, 22, 22, 24, 24, 26, 26, 28, 28, 30, 30]
  {
  }

  /** The table entries, as temp3 lists them. */
  lemma NegateRealAsWritten()
    ensures NegateReal() == [-1, 1, -1, 1, -1, 1, -1, 1, -1, 1, -1, 1, -1, 1, -1, 1,
                             -1, 1, -1, 1, -1, 1, -1, 1, -1, 1, -1, 1, -1, 1, -1, 1]
  {
  }

  /** Swapping twice is the identity: temp0 is an involution on lane
      indices, and so permuting by it twice gives back the register. */
  lemma SwapPairsInvolution(v: seq<int>)
    requires |v| == 32
    ensures forall j :: 0 <= j < 32 ==> 0 <= SwapPairs()[j] < 32 && SwapPairs()[SwapPairs()[j]] == j
    ensures PermuteLanes(SwapPairs(), PermuteLanes(SwapPairs(), v)) == v
  {
    var w := PermuteLanes(SwapPairs(), v);
    var u := PermuteLanes(SwapPairs(), w);
    forall j | 0 <= j < 32
      ensures 0 <= SwapPairs()[j] < 32 && SwapPairs()[SwapPairs()[j]] == j && u[j] == v[j]
    {
      var i := SwapPairs()[j];
      assert LaneMask(i, 32) == i;
      assert u[j] == w[i];
    }
  }

  /** _mm512_myComplexMult_epi16: the 16 element-wise complex products. */
  function ComplexMul512(a: seq<int>, b: seq<int>): (r: seq<int>)
    requires |a| == 32 && |b| == 32
    ensures |r| == 32
  {
    var bFlip := PermuteLanes(SwapPairs(), b);
    var aIm := PermuteLanes(ImagBoth(), a);
    var aRe := PermuteLanes(RealBoth(), a);
    var aib := MulLo(aIm, bFlip);
    var areb := MulLo(aRe, b);
    var aibAddSub := MulLo(aib, NegateReal());
    AddLanes(areb, aibAddSub)
  }

  /** What the four tables route into the lanes of element k: b_flip holds
      (im_b, re_b), a_im holds (im_a, im_a), a_re holds (re_a, re_a), and
      addsub is (-1, +1). */
  lemma ComplexMul512Routing(a: seq<int>, b: seq<int>, k: nat)
    requires |a| == 32 && |b| == 32 && k < 16
    ensures PermuteLanes(SwapPairs(), b)[2 * k] == b[2 * k + 1] && PermuteLanes(SwapPairs(), b)[2 * k + 1] == b[2 * k]
    ensures PermuteLanes(ImagBoth(), a)[2 * k] == a[2 * k + 1] && PermuteLanes(ImagBoth(), a)[2 * k + 1] == a[2 * k + 1]
    ensures PermuteLanes(RealBoth(), a)[2 * k] == a[2 * k] && PermuteLanes(RealBoth(), a)[2 * k + 1] == a[2 * k]
    ensures NegateReal()[2 * k] == -1 && NegateReal()[2 * k + 1] == 1
  {
    var re, im := 2 * k, 2 * k + 1;
    assert re % 2 == 0 && im % 2 == 1;
    assert OtherLane(re) == im && OtherLane(im) == re;
    assert ImagLane(re) == im && ImagLane(im) == im;
    assert RealLane(re) == re && RealLane(im) == re;
    assert LaneMask(re, 32) == re && LaneMask(im, 32) == im;
  }

  /** Lane 2k, the real part of element k, is Wrap16(re_a re_b - im_a im_b). */
  lemma ComplexMul512RealLane(a: seq<int>, b: seq<int>, k: nat)
    requires |a| == 32 && |b| == 32 && k < 16
    ensures ComplexMul512(a, b)[2 * k] == Wrap16(a[2 * k] * b[2 * k] - a[2 * k + 1] * b[2 * k + 1])
  {
    ComplexMul512Routing(a, b, k);
    Wrap16AddSigned(a[2 * k] * b[2 * k], a[2 * k + 1] * b[2 * k + 1]);
  }

  /** Lane 2k+1, the imaginary part of element k, is
      Wrap16(re_a im_b + im_a re_b). */
  lemma ComplexMul512ImagLane(a: seq<int>, b: seq<int>, k: nat)
    requires |a| == 32 && |b| == 32 && k < 16
    ensures ComplexMul512(a, b)[2 * k + 1] == Wrap16(a[2 * k] * b[2 * k + 1] + a[2 * k + 1] * b[2 * k])
  {
    ComplexMul512Routing(a, b, k);
    Wrap16AddSigned(a[2 * k] * b[2 * k + 1], a[2 * k + 1] * b[2 * k]);
  }

  /** Both lanes of element k. */
  lemma ComplexMul512Lanes(a: seq<int>, b: seq<int>, k: nat)
    requires |a| == 32 && |b| == 32 && k < 16
    ensures ComplexMul512(a, b)[2 * k] == Wrap16(a[2 * k] * b[2 * k] - a[2 * k + 1] * b[2 * k + 1])
    ensures ComplexMul512(a, b)[2 * k + 1] == Wrap16(a[2 * k] * b[2 * k + 1] + a[2 * k + 1] * b[2 * k])
  {
    ComplexMul512RealLane(a, b, k);
    ComplexMul512ImagLane(a, b, k);
  }

  /** Element k of the product is the exact complex product of element k of
      a and element k of b, reduced to 16 bits. */
  lemma ComplexMul512Elements(a: seq<int>, b: seq<int>)
    requires |a| == 32 && |b| == 32
    ensures forall k :: 0 <= k < 16 ==>
      Elements(ComplexMul512(a, b))[k] == Wrap(Mul(Elements(a)[k], Elements(b)[k]))
  {
    forall k | 0 <= k < 16
      ensures Elements(ComplexMul512(a, b))[k] == Wrap(Mul(Elements(a)[k], Elements(b)[k]))
    {
      ComplexMul512Lanes(a, b, k);
      ProductElement(ComplexMul512(a, b), a, b, k);
    }
  }

  // ---------------------------------------------------------------------
  // 256-bit complex multiply
  // ---------------------------------------------------------------------

  /** index2: swaps the real and imaginary lane of every element. */
  const SwapPairs256: seq<int> := [1, 0, 3, 2, 5, 4, 7, 6, 9, 8, 11, 10, 13, 12, 15, 14]
  /** neg: +1 on the real lane, -1 on the imaginary lane. */
  const NegateImag: seq<int> := [1, -1, 1, -1, 1, -1, 1, -1, 1, -1, 1, -1, 1, -1, 1, -1]
  /** index6: undoes hsub's layout, giving back [re, im] pairs. */
  const Reinterleave: seq<int> := [0, 4, 1, 5, 2, 6, 3, 7, 8, 12, 9, 13, 10, 14, 11, 15]

  /** index2 sends lane 2k to 2k+1 and back; neg is +1 on lane 2k and -1 on
      lane 2k+1. */
  lemma Tables256Shape()
    ensures |SwapPairs256| == 16 && |NegateImag| == 16
    ensures forall k :: 0 <= k < 8 ==> SwapPairs256[2 * k] == 2 * k + 1 && SwapPairs256[2 * k + 1] == 2 * k
    ensures forall k :: 0 <= k < 8 ==> NegateImag[2 * k] == 1 && NegateImag[2 * k + 1] == -1
  {
  }

  /** The lane where hsub leaves the real part of element k (0 <= k < 8);
      the imaginary part is 4 lanes above it. */
  function HsubRealLane(k: nat): (j: nat)
    requires k < 8
    ensures j < 12
  {
    if k < 4 then k else k + 4
  }

  /** index6 sends lane 2k to element k's real part and lane 2k+1 to its
      imaginary part. */
  lemma ReinterleaveShape()
    ensures |Reinterleave| == 16
    ensures forall k :: 0 <= k < 8 ==>
      Reinterleave[2 * k] == HsubRealLane(k) && Reinterleave[2 * k + 1] == HsubRealLane(k) + 4
  {
  }

  /** The lane-wise product and the product with the flipped, negated b,
      before the horizontal subtraction. */
  function Mul256Terms(vec1: seq<int>, vec2: seq<int>): (t: (seq<int>, seq<int>))
    requires |vec1| == 16 && |vec2| == 16
    ensures |t.0| == 16 && |t.1| == 16
  {
    var vec3 := MulLo(vec1, vec2);
    var flipped := MulLo(PermuteLanes(SwapPairs256, vec2), NegateImag);
    var vec4 := MulLo(vec1, flipped);
    (vec3, vec4)
  }

  /** _mm256_myComplexMult_epi16: the 8 element-wise complex products. */
  function ComplexMul256(vec1: seq<int>, vec2: seq<int>): (r: seq<int>)
    requires |vec1| == 16 && |vec2| == 16
    ensures |r| == 16
  {
    var (vec3, vec4) := Mul256Terms(vec1, vec2);
    PermuteLanes(Reinterleave, HorizontalSub(vec3, vec4))
  }

  /** vec3 holds the products re_a re_b, im_a im_b of element k; vec4 holds
      re_a (im_b times +1) and im_a (re_b times -1). */
  lemma Mul256TermsLanes(a: seq<int>, b: seq<int>, k: nat)
    requires |a| == 16 && |b| == 16 && k < 8
    ensures Mul256Terms(a, b).0[2 * k] == Wrap16(a[2 * k] * b[2 * k])
    ensures Mul256Terms(a, b).0[2 * k + 1] == Wrap16(a[2 * k + 1] * b[2 * k + 1])
    ensures Mul256Terms(a, b).1[2 * k] == Wrap16(a[2 * k] * Wrap16(b[2 * k + 1] * 1))
    ensures Mul256Terms(a, b).1[2 * k + 1] == Wrap16(a[2 * k + 1] * Wrap16(b[2 * k] * -1))
  {
    Tables256Shape();
    var re, im := 2 * k, 2 * k + 1;
    assert LaneMask(re + 1, 16) == im && LaneMask(re, 16) == re;
  }

  /** _mm256_hsub_epi16 on x and y: the real part of element k lands in lane
      HsubRealLane(k) as x[2k] - x[2k+1], and 4 lanes above it y[2k] -
      y[2k+1]; lanes 0-3 come from elements 0-3 of x, lanes 4-7 from elements
      0-3 of y, lanes 8-15 the same for elements 4-7. */
  lemma HsubLayout(x: seq<int>, y: seq<int>, k: nat)
    requires |x| == 16 && |y| == 16 && k < 8
    ensures HorizontalSub(x, y)[HsubRealLane(k)] == Wrap16(x[2 * k] - x[2 * k + 1])
    ensures HorizontalSub(x, y)[HsubRealLane(k) + 4] == Wrap16(y[2 * k] - y[2 * k + 1])
  {
  }

  /** Lane 2k is element k's real part from hsub, lane 2k+1 its imaginary
      part: index6 undoes the hsub layout. */
  lemma ComplexMul256Terms(a: seq<int>, b: seq<int>, k: nat)
    requires |a| == 16 && |b| == 16 && k < 8
    ensures var (vec3, vec4) := Mul256Terms(a, b);
      ComplexMul256(a, b)[2 * k] == Wrap16(vec3[2 * k] - vec3[2 * k + 1]) &&
      ComplexMul256(a, b)[2 * k + 1] == Wrap16(vec4[2 * k] - vec4[2 * k + 1])
  {
    var (vec3, vec4) := Mul256Terms(a, b);
    ReinterleaveShape();
    HsubLayout(vec3, vec4, k);
    var j := HsubRealLane(k);
    assert LaneMask(j, 16) == j && LaneMask(j + 4, 16) == j + 4;
  }

  /** Lane 2k is Wrap16(re_a re_b - im_a im_b) and lane 2k+1 is
      Wrap16(re_a im_b + im_a re_b), for every element k < 8. */
  lemma ComplexMul256Lanes(a: seq<int>, b: seq<int>, k: nat)
    requires |a| == 16 && |b| == 16 && k < 8
    ensures ComplexMul256(a, b)[2 * k] == Wrap16(a[2 * k] * b[2 * k] - a[2 * k + 1] * b[2 * k + 1])
    ensures ComplexMul256(a, b)[2 * k + 1] == Wrap16(a[2 * k] * b[2 * k + 1] + a[2 * k + 1] * b[2 * k])
  {
    ComplexMul256Terms(a, b, k);
    Mul256TermsLanes(a, b, k);
    var re, im := 2 * k, 2 * k + 1;
    Wrap16AddWrap(a[re] * b[re], a[im] * b[im]);
    Wrap16CrossTerms(a[re], b[im], a[im], b[re]);
  }

  /** Element k of the product is the exact complex product of element k of
      vec1 and element k of vec2, reduced to 16 bits. */
  lemma ComplexMul256Elements(a: seq<int>, b: seq<int>)
    requires |a| == 16 && |b| == 16
    ensures forall k :: 0 <= k < 8 ==>
      Elements(ComplexMul256(a, b))[k] == Wrap(Mul(Elements(a)[k], Elements(b)[k]))
  {
    forall k | 0 <= k < 8
      ensures Elements(ComplexMul256(a, b))[k] == Wrap(Mul(Elements(a)[k], Elements(b)[k]))
    {
      ComplexMul256Element(a, b, k);
    }
  }

  lemma ComplexMul256Element(a: seq<int>, b: seq<int>, k: nat)
    requires |a| == 16 && |b| == 16 && k < 8
    ensures Elements(ComplexMul256(a, b))[k] == Wrap(Mul(Elements(a)[k], Elements(b)[k]))
  {
    ComplexMul256Lanes(a, b, k);
    ProductElement(ComplexMul256(a, b), a, b, k);
  }

  /** The 256-bit kernel computes, element by element, what the 512-bit
      kernel computes on either half. */
  lemma ComplexMul256AgreesWith512(a: seq<int>, b: seq<int>)
    requires |a| == 32 && |b| == 32
    ensures ComplexMul512(a, b) == ComplexMul256(a[..16], b[..16]) + ComplexMul256(a[16..], b[16..])
  {
    var r, lo, hi := ComplexMul512(a, b), ComplexMul256(a[..16], b[..16]), ComplexMul256(a[16..], b[16..]);
    ComplexMul512Elements(a, b);
    ComplexMul256Elements(a[..16], b[..16]);
    ComplexMul256Elements(a[16..], b[16..]);
    ElementsSplit(a, 16);
    ElementsSplit(b, 16);
    assert (lo + hi)[..16] == lo && (lo + hi)[16..] == hi;
    ElementsSplit(lo + hi, 16);
    assert Elements(r) == Elements(lo + hi);
    ElementsInjective(r, lo + hi);
  }

  // ---------------------------------------------------------------------
  // Dot products
  // ---------------------------------------------------------------------

  /** _mm512_reduce_add_epi16 as dotProduct16x32 uses it. Its definition is
      in a header that is not part of this model. It is assumed to be the
      even/odd lane reduction that hsum16x32 performs; the code shown does
      not call hsum16x32 from dotProduct16x32. */
  function ReduceAdd512(v: seq<int>): (r: Complex16)
    requires |v| == 32
  {
    Hsum16x32(v)
  }

  /** dotProduct16x32: multiply, then reduce. */
  function DotProduct16x32(a: seq<int>, b: seq<int>): (r: Complex16)
    requires |a| == 32 && |b| == 32
  {
    ReduceAdd512(ComplexMul512(a, b))
  }

  /** old_dotProduct16x32: multiply the front and back halves with the
      256-bit kernel, sum each, and add the two sums. */
  function OldDotProduct16x32(a: seq<int>, b: seq<int>): (r: Complex16)
    requires |a| == 32 && |b| == 32
  {
    var frontMul := ComplexMul256(LowHalf(a), LowHalf(b));
    var backMul := ComplexMul256(ExtractHalf(a, 1), ExtractHalf(b, 1));
    AddWrapping(Hsum8x32(frontMul), Hsum8x32(backMul))
  }

  /** A wrapped sum of wrapped products is the wrapped dot product. */
  lemma SumOfWrappedProducts(m: seq<int>, xs: seq<Complex16>, ys: seq<Complex16>)
    requires |m| % 2 == 0 && |xs| == |ys| == |m| / 2
    requires forall k :: 0 <= k < |xs| ==> Elements(m)[k] == Wrap(Mul(xs[k], ys[k]))
    ensures Wrap(Sum(Elements(m))) == Wrap(Dot(xs, ys))
  {
    var ps := Products(xs, ys);
    forall k | 0 <= k < |xs| ensures Wrap(Elements(m)[k]) == Wrap(ps[k]) {
      WrapIdempotent(Mul(xs[k], ys[k]));
    }
    SumCongruent(Elements(m), ps);
  }

  /** dotProduct16x32(a, b) is the sum over k of a_k * b_k, with complex
      products and the sum taken mod 2^16 and no conjugation. */
  lemma DotProductIsDot(a: seq<int>, b: seq<int>)
    requires |a| == 32 && |b| == 32
    ensures DotProduct16x32(a, b) == Wrap(Dot(Elements(a), Elements(b)))
  {
    var m := ComplexMul512(a, b);
    Hsum16x32Sums(m);
    ComplexMul512Elements(a, b);
    SumOfWrappedProducts(m, Elements(a), Elements(b));
  }

  /** The front-half dot product plus the back-half dot product is the dot
      product of the whole. */
  lemma DotSplits(a: seq<int>, b: seq<int>)
    requires |a| == 32 && |b| == 32
    ensures Dot(Elements(a), Elements(b)) ==
      Add(Dot(Elements(a[..16]), Elements(b[..16])), Dot(Elements(a[16..]), Elements(b[16..])))
  {
    var pF := Products(Elements(a[..16]), Elements(b[..16]));
    var pB := Products(Elements(a[16..]), Elements(b[16..]));
    ElementsSplit(a, 16);
    ElementsSplit(b, 16);
    assert Products(Elements(a), Elements(b)) == pF + pB;
    SumAppend(pF, pB);
  }

  /** hsum8x32 of the 256-bit product is the wrapped 8-element dot
      product. */
  lemma Hsum8x32OfProduct(x: seq<int>, y: seq<int>)
    requires |x| == 16 && |y| == 16
    ensures Hsum8x32(ComplexMul256(x, y)) == Wrap(Dot(Elements(x), Elements(y)))
  {
    var m := ComplexMul256(x, y);
    Hsum8x32Sums(m);
    ComplexMul256Elements(x, y);
    SumOfWrappedProducts(m, Elements(x), Elements(y));
  }

  /** old_dotProduct16x32 returns the wrapped dot product too. */
  lemma OldDotProductIsDot(a: seq<int>, b: seq<int>)
    requires |a| == 32 && |b| == 32
    ensures OldDotProduct16x32(a, b) == Wrap(Dot(Elements(a), Elements(b)))
  {
    assert LowHalf(a) == a[..16] && ExtractHalf(a, 1) == a[16..];
    assert LowHalf(b) == b[..16] && ExtractHalf(b, 1) == b[16..];
    Hsum8x32OfProduct(a[..16], b[..16]);
    Hsum8x32OfProduct(a[16..], b[16..]);
    DotSplits(a, b);
    AddWrappingOfWrapped(Dot(Elements(a[..16]), Elements(b[..16])), Dot(Elements(a[16..]), Elements(b[16..])));
  }

  /** old_dotProduct16x32 equals dotProduct16x32 on all inputs. */
  lemma OldDotProductAgrees(a: seq<int>, b: seq<int>)
    requires |a| == 32 && |b| == 32
    ensures OldDotProduct16x32(a, b) == DotProduct16x32(a, b)
  {
    OldDotProductIsDot(a, b);
    DotProductIsDot(a, b);
  }

  /** The exact dot product of 16 copies of {6, 3} with itself is
      16 * {27, 36} = {432, 576}. */
  lemma BenchmarkDot()
    ensures Dot(seq(16, _ => Complex16(6, 3)), seq(16, _ => Complex16(6, 3))) == Complex16(432, 576)
  {
    var cs := seq(16, _ => Complex16(6, 3));
    assert Products(cs, cs) == seq(16, _ => Complex16(27, 36));
    SumRepeated(Complex16(27, 36), 16);
  }

  /** The benchmark's input: 16 copies of {6, 3} dotted with itself gives
      {432, 576}, which fits in int16 and so comes back unwrapped. */
  lemma BenchmarkExample()
    ensures var a := Interleave(seq(16, _ => Complex16(6, 3)));
      |a| == 32 && DotProduct16x32(a, a) == Complex16(432, 576)
  {
    var cs := seq(16, _ => Complex16(6, 3));
    var a := Interleave(cs);
    DotProductIsDot(a, a);
    ElementsOfInterleave(cs);
    BenchmarkDot();
  }

  /** Overflow wraps rather than saturates: {200, 200} squared is
      {0, 80000}, whose imaginary part wraps to 80000 - 65536 = 14464. */
  lemma OverflowWraps(a: seq<int>)
    requires |a| == 32
    requires forall j :: 0 <= j < 32 ==> a[j] == 200
    ensures forall k :: 0 <= k < 16 ==> ComplexMul512(a, a)[2 * k] == 0 && ComplexMul512(a, a)[2 * k + 1] == 14464
  {
    forall k | 0 <= k < 16
      ensures ComplexMul512(a, a)[2 * k] == 0 && ComplexMul512(a, a)[2 * k + 1] == 14464
    {
      ComplexMul512Lanes(a, a, k);
    }
  }
}
