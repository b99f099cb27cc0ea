/** 16-bit lane arithmetic and the register operations (Intel intrinsics)
    the kernels are built from. A register is the sequence of its signed
    16-bit lanes, lowest lane first. */
module Lanes {

  /** Two's-complement reduction of an integer to a signed 16-bit lane: what
      every wrapping 16-bit operation (mullo, add, hsub) and every narrowing
      to int16_t leaves behind. */
  function Wrap16(x: int): (r: int)
    ensures -0x8000 <= r < 0x8000
    decreases if x < 0 then -2 * x else 2 * x + 1
  {
    if x < -0x8000 then Wrap16(x + 0x1_0000)
    else if x >= 0x8000 then Wrap16(x - 0x1_0000)
    else x
  }

  predicate IsInt16(x: int) {
    -0x8000 <= x < 0x8000
  }

  /** x and y agree modulo 2^16. */
  predicate Cong16(x: int, y: int) {
    (x - y) % 0x1_0000 == 0
  }

  /** Wrap16(x) differs from x by a multiple of 2^16. */
  lemma {:induction false} Wrap16IsCong(x: int)
    ensures Cong16(Wrap16(x), x) && Cong16(x, Wrap16(x))
    decreases if x < 0 then -2 * x else 2 * x + 1
  {
    if x < -0x8000 {
      Wrap16IsCong(x + 0x1_0000);
    } else if x >= 0x8000 {
      Wrap16IsCong(x - 0x1_0000);
    }
  }

  lemma Cong16Trans(x: int, y: int, z: int)
    requires Cong16(x, y) && Cong16(y, z)
    ensures Cong16(x, z)
  {
    assert x - z == (x - y) + (y - z);
  }

  /** Wrap16 is the identity on int16 values and equal on congruent inputs:
      it picks the one int16 value of each residue class. */
  lemma {:induction false} Wrap16Unique(x: int, y: int)
    requires IsInt16(y) && Cong16(x, y)
    ensures Wrap16(x) == y
  {
    var r := Wrap16(x);
    Wrap16IsCong(x);
    Cong16Trans(r, x, y);
    var d := r - y;
    assert -0x1_0000 < d < 0x1_0000;
    assert d % 0x1_0000 == 0;
  }

  lemma Wrap16OfInt16(x: int)
    requires IsInt16(x)
    ensures Wrap16(x) == x
  {
  }

  /** Wrap16 agrees with the closed form of two's-complement truncation:
      add 2^15, keep the remainder mod 2^16, subtract 2^15. */
  lemma Wrap16ClosedForm(x: int)
    ensures Wrap16(x) == (x + 0x8000) % 0x1_0000 - 0x8000
  {
    var c := (x + 0x8000) % 0x1_0000 - 0x8000;
    assert (x + 0x8000) - (x + 0x8000) % 0x1_0000 == 0x1_0000 * ((x + 0x8000) / 0x1_0000);
    assert Cong16(x, c);
    Wrap16Unique(x, c);
  }

  lemma Wrap16Cong(x: int, y: int)
    requires Cong16(x, y)
    ensures Wrap16(x) == Wrap16(y)
  {
    var r := Wrap16(y);
    Wrap16IsCong(y);
    Cong16Trans(x, y, r);
    Wrap16Unique(x, r);
  }

  lemma Cong16Add(x: int, x': int, y: int, y': int)
    requires Cong16(x, x') && Cong16(y, y')
    ensures Cong16(x + y, x' + y') && Cong16(x - y, x' - y')
  {
    var p, q := (x - x') / 0x1_0000, (y - y') / 0x1_0000;
    assert x - x' == 0x1_0000 * p;
    assert y - y' == 0x1_0000 * q;
    assert (x + y) - (x' + y') == 0x1_0000 * (p + q);
    assert (x - y) - (x' - y') == 0x1_0000 * (p - q);
  }

  lemma Cong16Mul(x: int, x': int, y: int)
    requires Cong16(x, x')
    ensures Cong16(x * y, x' * y) && Cong16(y * x, y * x')
  {
    var p := (x - x') / 0x1_0000;
    assert x - x' == 0x1_0000 * p;
    calc {
      x * y - x' * y;
      (x - x') * y;
      0x1_0000 * p * y;
      0x1_0000 * (p * y);
    }
    assert y * x - y * x' == x * y - x' * y;
  }


  /** Wrapping after every step of a sum or product gives the same lane as
      wrapping once at the end. */
  lemma Wrap16AddWrap(x: int, y: int)
    ensures Wrap16(Wrap16(x) + Wrap16(y)) == Wrap16(x + y)
    ensures Wrap16(Wrap16(x) - Wrap16(y)) == Wrap16(x - y)
  {
    Wrap16IsCong(x);
    Wrap16IsCong(y);
    Cong16Add(Wrap16(x), x, Wrap16(y), y);
    Wrap16Cong(Wrap16(x) + Wrap16(y), x + y);
    Wrap16Cong(Wrap16(x) - Wrap16(y), x - y);
  }

  /** Wrapping one factor first does not change the wrapped product. */
  lemma Wrap16MulInner(x: int, y: int)
    ensures Wrap16(Wrap16(x) * y) == Wrap16(x * y)
    ensures Wrap16(x * Wrap16(y)) == Wrap16(x * y)
  {
    Wrap16IsCong(x);
    Wrap16IsCong(y);
    Cong16Mul(Wrap16(x), x, y);
    Cong16Mul(Wrap16(y), y, x);
    Wrap16Cong(Wrap16(x) * y, x * y);
    Wrap16Cong(x * Wrap16(y), x * y);
  }

  /** The two lanes of a complex product as the 512-bit kernel forms them:
      x plus y times -1 (the real lane) or times +1 (the imaginary lane),
      every step wrapped, is the wrapped difference or sum. */
  lemma Wrap16AddSigned(x: int, y: int)
    ensures Wrap16(Wrap16(x) + Wrap16(Wrap16(y) * -1)) == Wrap16(x - y)
    ensures Wrap16(Wrap16(x) + Wrap16(Wrap16(y) * 1)) == Wrap16(x + y)
  {
    Wrap16MulInner(y, -1);
    Wrap16AddWrap(x, -y);
    Wrap16OfInt16(Wrap16(y));
    Wrap16AddWrap(x, y);
  }

  /** The imaginary lane as the 256-bit kernel forms it: x times (y times
      +1) minus z times (w times -1), every step wrapped, is the wrapped
      x*y + z*w. */
  lemma Wrap16CrossTerms(x: int, y: int, z: int, w: int)
    ensures Wrap16(Wrap16(x * Wrap16(y * 1)) - Wrap16(z * Wrap16(w * -1))) == Wrap16(x * y + z * w)
  {
    Wrap16MulInner(x, y);
    Wrap16MulInner(z, -w);
    assert z * (w * -1) == -(z * w) && z * -w == -(z * w);
    Wrap16AddWrap(x * y, -(z * w));
  }

  // ---------------------------------------------------------------------
  // Register operations. Each is the lane-level meaning of one intrinsic.
  // ---------------------------------------------------------------------

  /** The lane an index selects in an n-lane register: _mm*_permutexvar_epi16
      looks only at the low bits of each index, idx & (n - 1), which for
      these widths is the index reduced into 0 .. n-1 by adding or
      subtracting multiples of n. */
  function LaneMask(i: int, n: int): (r: int)
    requires n == 8 || n == 16 || n == 32
    ensures 0 <= r < n
    decreases if i < 0 then n - i else i
  {
    if i < 0 then LaneMask(i + n, n)
    else if i >= n then LaneMask(i - n, n)
    else i
  }

  /** _mm*_permutexvar_epi16(idx, v): lane j of the result is lane idx[j] of
      v, the index masked to the register's width. */
  function PermuteLanes(idx: seq<int>, v: seq<int>): (r: seq<int>)
    requires |idx| == |v| && (|v| == 8 || |v| == 16 || |v| == 32)
    ensures |r| == |v|
  {
    seq(|v|, j requires 0 <= j < |v| => v[LaneMask(idx[j], |v|)])
  }

  /** _mm*_mullo_epi16: lane-wise product, low 16 bits kept. */
  function MulLo(a: seq<int>, b: seq<int>): (r: seq<int>)
    requires |a| == |b|
    ensures |r| == |a|
  {
    seq(|a|, j requires 0 <= j < |a| => Wrap16(a[j] * b[j]))
  }

  /** _mm*_add_epi16: lane-wise wrapping sum. */
  function AddLanes(a: seq<int>, b: seq<int>): (r: seq<int>)
    requires |a| == |b|
    ensures |r| == |a|
  {
    seq(|a|, j requires 0 <= j < |a| => Wrap16(a[j] + b[j]))
  }

  /** _mm256_hsub_epi16(a, b): within each 128-bit half (8 lanes), the four
      differences of adjacent lane pairs of a, then the four of b, wrapping. */
  function HorizontalSub(a: seq<int>, b: seq<int>): (r: seq<int>)
    requires |a| == 16 && |b| == 16
    ensures |r| == 16
  {
    seq(16, j requires 0 <= j < 16 =>
      var half := if j < 8 then 0 else 8;
      var q := j - half;
      var src := if q < 4 then a else b;
      var p := half + 2 * (if q < 4 then q else q - 4);
      Wrap16(src[p] - src[p + 1]))
  }

  /** _mm512_castsi512_si256, _mm256_castsi256_si128: the low half. */
  function LowHalf(v: seq<int>): (r: seq<int>)
    ensures |r| == |v| / 2
  {
    v[..|v| / 2]
  }

  /** _mm512_extracti64x4_epi64(v, imm), _mm256_extracti128_si256(v, imm):
      the half selected by bit 0 of imm. */
  function ExtractHalf(v: seq<int>, imm: int): (r: seq<int>)
    ensures |r| == |v| - |v| / 2
  {
    if imm % 2 == 0 then v[..|v| - |v| / 2] else v[|v| / 2..]
  }

  /** _mm512_inserti32x8(v, h, imm): v with the half selected by bit 0 of
      imm replaced by h. */
  function InsertHalf(v: seq<int>, h: seq<int>, imm: int): (r: seq<int>)
    requires |v| == 2 * |h|
    ensures |r| == |v|
  {
    if imm % 2 == 0 then h + v[|h|..] else v[..|h|] + h
  }

  /** _mm_extract_epi16(v, i): lane i zero-extended to an int. */
  function ExtractLane(v: seq<int>, i: nat): (r: int)
    requires i < |v|
    ensures 0 <= r < 0x1_0000
  {
    var lane := Wrap16(v[i]);
    if lane < 0 then lane + 0x1_0000 else lane
  }

  /** _mm_cvtsi128_si32(v): the low 32 bits (lanes 0 and 1) as a signed
      32-bit int. */
  function LowInt32(v: seq<int>): (r: int)
    requires |v| >= 2
    ensures -0x8000_0000 <= r < 0x8000_0000
  {
    var u := ExtractLane(v, 0) + 0x1_0000 * ExtractLane(v, 1);
    if u < 0x8000_0000 then u else u - 0x1_0000_0000
  }

  /** Narrowing the zero-extended lane back to int16_t gives the lane. */
  lemma ExtractLaneNarrows(v: seq<int>, i: nat)
    requires i < |v| && IsInt16(v[i])
    ensures Wrap16(ExtractLane(v, i)) == v[i]
  {
    Wrap16OfInt16(v[i]);
    Wrap16Unique(ExtractLane(v, i), v[i]);
  }

  /** Narrowing the low 32 bits to int16_t gives lane 0. */
  lemma LowInt32Narrows(v: seq<int>)
    requires |v| >= 2 && IsInt16(v[0])
    ensures Wrap16(LowInt32(v)) == v[0]
  {
    var lo, hi := ExtractLane(v, 0), ExtractLane(v, 1);
    Wrap16OfInt16(v[0]);
    assert Cong16(lo, v[0]);
    assert Cong16(LowInt32(v), lo) by {
      if lo + 0x1_0000 * hi < 0x8000_0000 {
        assert LowInt32(v) - lo == 0x1_0000 * hi;
      } else {
        assert LowInt32(v) - lo == 0x1_0000 * (hi - 0x1_0000);
      }
    }
    Cong16Trans(LowInt32(v), lo, v[0]);
    Wrap16Unique(LowInt32(v), v[0]);
  }
}
