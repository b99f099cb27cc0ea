/** src/deinterleave.hpp: splitting a matrix of Complex_int16 values, stored
    as interleaved (re, im) pairs, into a matrix of real parts and a matrix of
    imaginary parts, 32 elements per step. */
module Deinterleave {
  import opened Lanes
  import opened Complex

  /** The lane seperateSwap moves into lane j: the real lane of element j
      for j < 16, the imaginary lane of element j - 16 above that. */
  function SeparatedLane(j: int): (r: int) {
    if j < 16 then 2 * j else 2 * (j - 16) + 1
  }

  /** seperateSwap: the 16 even lanes (the real parts) in order, then the 16
      odd lanes (the imaginary parts) in order. */
  function SeperateSwap(): (t: seq<int>)
    ensures |t| == 32
  {
    seq(32, SeparatedLane)
  }

  /** The table entries, as the array temp lists them. */
  lemma SeperateSwapAsWritten()
    ensures SeperateSwap() == [0, 2, 4, 6, 8, 10, 12, 14, 16, 18, 20, 22, 24, 26, 28, 30,
                               1, 3, 5, 7, 9, 11, 13, 15, 17, 19, 21, 23, 25, 27, 29, 31]
  {
  }

  /** seperateSwap is a permutation of 0..31: every entry is a lane index,
      no two entries are equal, and every lane index occurs. */
  lemma SeperateSwapIsPermutation()
    ensures forall j :: 0 <= j < 32 ==> 0 <= SeperateSwap()[j] < 32
    ensures forall i, j :: 0 <= i < j < 32 ==> SeperateSwap()[i] != SeperateSwap()[j]
    ensures forall l :: 0 <= l < 32 ==> l in SeperateSwap()
  {
    forall i, j | 0 <= i < j < 32 ensures SeperateSwap()[i] != SeperateSwap()[j] {
      if i < 16 && 16 <= j {
        assert SeperateSwap()[i] % 2 == 0 && SeperateSwap()[j] % 2 == 1;
      }
    }
    forall l | 0 <= l < 32 ensures l in SeperateSwap() {
      if l % 2 == 0 {
        assert SeperateSwap()[l / 2] == l;
      } else {
        assert SeperateSwap()[16 + l / 2] == l;
      }
    }
  }

  /** Permuting 16 loaded elements by seperateSwap puts their real parts in
      the low 16 lanes and their imaginary parts in the high 16, each in
      element order. */
  lemma SeperateSwapSplits(cs: seq<Complex16>)
    requires |cs| == 16
    ensures var p := PermuteLanes(SeperateSwap(), Interleave(cs));
      forall k :: 0 <= k < 16 ==> p[k] == cs[k].re && p[16 + k] == cs[k].im
  {
    var v := Interleave(cs);
    var p := PermuteLanes(SeperateSwap(), v);
    forall k | 0 <= k < 16 ensures p[k] == cs[k].re && p[16 + k] == cs[k].im {
      assert SeparatedLane(k) == 2 * k && SeparatedLane(16 + k) == 2 * k + 1;
      assert (2 * k) % 2 == 0 && (2 * k) / 2 == k;
      assert (2 * k + 1) % 2 == 1 && (2 * k + 1) / 2 == k;
    }
  }

  /** Steps 2 and 3 of one iteration: from the two loaded registers complex1
      (elements 0-15) and complex2 (elements 16-31), the register of 32 real
      parts and the register of 32 imaginary parts. */
  function SplitChunk(complex1: seq<int>, complex2: seq<int>): (r: (seq<int>, seq<int>))
    requires |complex1| == 32 && |complex2| == 32
    ensures |r.0| == 32 && |r.1| == 32
  {
    var c1 := PermuteLanes(SeperateSwap(), complex1);
    var c2 := PermuteLanes(SeperateSwap(), complex2);
    var reals := InsertHalf(c1, LowHalf(c2), 1);
    var imags := InsertHalf(c2, ExtractHalf(c1, 1), 0);
    (reals, imags)
  }

  /** Lane k of the real register is the real part of element k and lane k
      of the imaginary register its imaginary part: the lower 16 lanes come
      from complex1, the upper 16 from complex2. */
  lemma SplitChunkCorrect(lo: seq<Complex16>, hi: seq<Complex16>)
    requires |lo| == 16 && |hi| == 16
    ensures var (reals, imags) := SplitChunk(Interleave(lo), Interleave(hi));
      forall k :: 0 <= k < 32 ==> reals[k] == (lo + hi)[k].re && imags[k] == (lo + hi)[k].im
  {
    SeperateSwapSplits(lo);
    SeperateSwapSplits(hi);
  }

  /** The chunk of 32 elements starting at element i of a matrix, loaded
      as two registers and split: lane j holds the parts of element i + j. */
  lemma SplitChunkAt(m: seq<Complex16>, i: nat)
    requires i + 32 <= |m|
    ensures var (reals, imags) := SplitChunk(Interleave(m[i..i + 16]), Interleave(m[i + 16..i + 32]));
      forall j :: 0 <= j < 32 ==> reals[j] == m[i + j].re && imags[j] == m[i + j].im
  {
    SplitChunkCorrect(m[i..i + 16], m[i + 16..i + 32]);
    assert m[i..i + 16] + m[i + 16..i + 32] == m[i..i + 32];
  }

  /** The number of elements the loop covers: size rounded up to a multiple
      of 32, or none when size is not positive. */
  function Span(size: int): (n: nat)
    ensures n % 32 == 0
    ensures size <= 0 ==> n == 0
    ensures size > 0 ==> size <= n < size + 32
  {
    if size <= 0 then 0 else (size + 31) / 32 * 32
  }

  /** For the sizes the routine is meant for, a multiple of 32, exactly size
      elements are covered. */
  lemma SpanOfMultiple(size: int)
    requires size >= 0 && size % 32 == 0
    ensures Span(size) == size
  {
  }

  /** deinterleaveMatrix: for every element k the loop covers, real_res[k]
      is the real part of src[k] and imag_res[k] its imaginary part; nothing
      past the covered elements changes. When the two outputs are the same
      array, the imaginary parts are the ones left in it. */
  method DeinterleaveMatrix(src: array<Complex16>, size: int, realRes: array<int>, imagRes: array<int>)
    requires Span(size) <= src.Length && Span(size) <= realRes.Length && Span(size) <= imagRes.Length
    modifies realRes, imagRes
    ensures forall k :: 0 <= k < Span(size) ==> imagRes[k] == src[k].im
    ensures realRes != imagRes ==> forall k :: 0 <= k < Span(size) ==> realRes[k] == src[k].re
    ensures forall k :: Span(size) <= k < realRes.Length ==> realRes[k] == old(realRes[k])
    ensures forall k :: Span(size) <= k < imagRes.Length ==> imagRes[k] == old(imagRes[k])
  {
    var i := 0;
    while i < size
      invariant 0 <= i <= Span(size) && i % 32 == 0
      invariant forall k :: 0 <= k < i ==> imagRes[k] == src[k].im
      invariant realRes != imagRes ==> forall k :: 0 <= k < i ==> realRes[k] == src[k].re
      invariant forall k :: i <= k < realRes.Length ==> realRes[k] == old(realRes[k])
      invariant forall k :: i <= k < imagRes.Length ==> imagRes[k] == old(imagRes[k])
      decreases size - i
    {
      assert i + 32 <= Span(size);
      var complex1 := Interleave(src[i..i + 16]);
      var complex2 := Interleave(src[i + 16..i + 32]);
      var (reals, imags) := SplitChunk(complex1, complex2);
      SplitChunkAt(src[..], i);
      forall j | 0 <= j < 32 {
        realRes[i + j] := reals[j];
      }
      forall j | 0 <= j < 32 {
        imagRes[i + j] := imags[j];
      }
      i := i + 32;
    }
  }
}
