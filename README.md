# Complex int16 kernels of matvec-AVX512, modelled in Dafny

The repository multiplies and sums complex numbers stored as `Complex_int16`
pairs `{int16 real, int16 imag}` with AVX-512 and AVX2 intrinsics. This project
models two parts of it:

- `src/complex_dotproduct.cpp`, a pure part. It covers the horizontal sums
  `hsum4x32`, `hsum8x32` and `hsum16x32`, the 8-element and 16-element complex
  multiplies `_mm256_myComplexMult_epi16` and `_mm512_myComplexMult_epi16`, and
  the two 16-element dot products `dotProduct16x32` and `old_dotProduct16x32`.
- `src/deinterleave.hpp`, an imperative part. It covers the `seperateSwap`
  lane table and `deinterleaveMatrix`, which splits a matrix of interleaved
  complex values into a matrix of real parts and a matrix of imaginary parts,
  32 elements per step.

A register is the sequence of its signed 16-bit lanes, lowest lane first.
Element k of a register is lanes 2k (real part) and 2k+1 (imaginary part).
The register operations the kernels use (permute, mullo, add, hsub, the
casts and the half extracts and inserts, `_mm_extract_epi16` and
`_mm_cvtsi128_si32`) are functions in module `Lanes`, with their lane-level
meaning. The other intrinsics appear as follows:

- The `_mm_setr_epi16` and `_mm256_setr_epi16` constants are sequence
  literals: `UpperPairsDown`, the `r2` literal inside `Hsum4x32`,
  `SwapPairs256`, `NegateImag` and `Reinterleave`.
- The 512-bit tables loaded from `temp0`..`temp3` and `temp` are the
  functions `SwapPairs`, `ImagBoth`, `RealBoth`, `NegateReal` and
  `SeperateSwap`, each proved equal to the listed entries.
- The loads `_mm512_load_si512` and `_mm512_loadu_si512` of `Complex_int16`
  values are `Complex.Interleave`.
- The stores `_mm512_store_si512` are the two `forall` statements in
  `DeinterleaveMatrix`.
- `_mm512_reduce_add_epi16` is `ComplexDotProduct.ReduceAdd512`.

All 16-bit arithmetic wraps: `Wrap16` is two's-complement
reduction to int16. `Wrap16ClosedForm` shows it equals
`(x + 2^15) mod 2^16 - 2^15`. Module `Complex` holds the exact, unbounded
complex arithmetic (`Mul`, `Add`, `Sum`, `Dot`) that the kernels are proved
against. The kernel results are that arithmetic reduced to 16 bits.

Files:

- `lanes.dfy`: 16-bit wrapping and the register operations.
- `complex.dfy`: `Complex16`, exact complex arithmetic, and how a register
  packs elements.
- `complex_dotproduct.dfy`: the kernels and their properties.
- `deinterleave.dfy`: the `seperateSwap` table and `DeinterleaveMatrix`, an
  imperative method over arrays.

Two operations the kernels call are defined in a header that is not part of
this model. The model makes these assumptions about them:

- `_mm512_reduce_add_epi16` returns the `Complex_int16` whose real part is the
  wrapped total of the even lanes and whose imaginary part is the wrapped
  total of the odd lanes. This is an assumption: it is the reduction
  `hsum16x32` performs, and `ReduceAdd512` is defined as `Hsum16x32`. The code
  shown does not call `hsum16x32` from `dotProduct16x32`, and it marks
  `hsum16x32` as unused.
- `Complex_int16::operator+` adds component-wise and wraps to int16
  (`AddWrapping`).

## Model

| member | source | states |
|---|---|---|
| Lanes.Wrap16ClosedForm | src/complex_dotproduct.cpp:52 | 16-bit lane wrapping is two's-complement truncation: (x + 2^15) mod 2^16 - 2^15 |
| Lanes.Wrap16Unique | src/complex_dotproduct.cpp:60-61 | narrowing to int16_t keeps the one int16 value congruent to x mod 2^16 |
| Lanes.Wrap16AddWrap | src/complex_dotproduct.cpp:59 | wrapping each addend and then the sum gives the wrapped exact sum or difference |
| Lanes.Wrap16MulInner | src/complex_dotproduct.cpp:88 | wrapping one factor before a 16-bit multiply does not change the wrapped product |
| Lanes.Wrap16AddSigned | src/complex_dotproduct.cpp:141-142 | x plus y times -1 or +1, every step wrapped, is the wrapped x - y or x + y |
| Lanes.Wrap16CrossTerms | src/complex_dotproduct.cpp:93-98 | the 256-bit imaginary lane, x(y·1) - z(w·-1) with every step wrapped, is the wrapped x·y + z·w |
| Lanes.ExtractLaneNarrows | src/complex_dotproduct.cpp:57 | narrowing a zero-extended extracted lane back to int16 gives the lane |
| Lanes.LowInt32Narrows | src/complex_dotproduct.cpp:60 | narrowing the low 32 bits of a register to int16_t gives lane 0 |
| Complex.AddWrappingOfWrapped | src/complex_dotproduct.cpp:160 | the wrapping `+` of two wrapped complex values is the wrapped exact sum |
| Complex.ElementsOfInterleave | src/complex_dotproduct.cpp:150 | loading Complex_int16 values into a register and reading its elements back gives the values |
| Complex.InterleaveOfElements | src/complex_dotproduct.cpp:150 | a register of even width is the interleaving of its elements |
| Complex.SumIsLaneTotals | src/complex_dotproduct.cpp:46-64 | the exact element sum of a register is (even-lane total, odd-lane total) |
| ComplexDotProduct.Hsum4x32Lanes | src/complex_dotproduct.cpp:47-64 | hsum4x32 returns (Wrap16(v0+v2+v4+v6), Wrap16(v1+v3+v5+v7)) |
| ComplexDotProduct.Hsum4x32Sums | src/complex_dotproduct.cpp:47-64 | hsum4x32 is the wrapped complex sum of the register's 4 elements |
| ComplexDotProduct.FoldHalvesKeepsSum | src/complex_dotproduct.cpp:68-70 | adding the high half to the low half keeps the wrapped element sum |
| ComplexDotProduct.Hsum8x32Sums | src/complex_dotproduct.cpp:67-72 | hsum8x32 is the wrapped complex sum of the register's 8 elements |
| ComplexDotProduct.Hsum16x32Sums | src/complex_dotproduct.cpp:76-81 | hsum16x32 is the wrapped complex sum of the register's 16 elements |
| ComplexDotProduct.Hsum16x32LaneTotals | src/complex_dotproduct.cpp:76-81 | hsum16x32 is (Wrap16 of the even-lane total, Wrap16 of the odd-lane total) |
| ComplexDotProduct.SwapPairsAsWritten | src/complex_dotproduct.cpp:128 | the formula for temp0 (the other lane of each element) gives the 32 listed entries |
| ComplexDotProduct.ImagBothAsWritten | src/complex_dotproduct.cpp:129 | the formula for temp1 (the imaginary lane, in both lanes) gives the 32 listed entries |
| ComplexDotProduct.RealBothAsWritten | src/complex_dotproduct.cpp:130 | the formula for temp2 (the real lane, in both lanes) gives the 32 listed entries |
| ComplexDotProduct.NegateRealAsWritten | src/complex_dotproduct.cpp:131 | the formula for temp3 (-1 on real lanes, +1 on imaginary lanes) gives the 32 listed entries |
| ComplexDotProduct.SwapPairsInvolution | src/complex_dotproduct.cpp:128 | temp0 is an in-range involution, and permuting by it twice gives back the register |
| ComplexDotProduct.ComplexMul512Routing | src/complex_dotproduct.cpp:136-141 | b_flip holds (im_b, re_b), a_im holds (im_a, im_a), a_re holds (re_a, re_a) and addsub is (-1, +1) in element k |
| ComplexDotProduct.ComplexMul512RealLane | src/complex_dotproduct.cpp:125-143 | lane 2k of the 512-bit product is Wrap16(re_a·re_b - im_a·im_b) |
| ComplexDotProduct.ComplexMul512ImagLane | src/complex_dotproduct.cpp:125-143 | lane 2k+1 of the 512-bit product is Wrap16(re_a·im_b + im_a·re_b) |
| ComplexDotProduct.ComplexMul512Lanes | src/complex_dotproduct.cpp:125-143 | both lanes of every element of the 512-bit product |
| ComplexDotProduct.ComplexMul512Elements | src/complex_dotproduct.cpp:125-143 | element k of the 512-bit product is the exact complex product of the two elements k, wrapped |
| ComplexDotProduct.Tables256Shape | src/complex_dotproduct.cpp:90-93 | index2 swaps lanes 2k and 2k+1, and neg is +1 on lane 2k and -1 on lane 2k+1 |
| ComplexDotProduct.ReinterleaveShape | src/complex_dotproduct.cpp:100 | index6 fetches element k's real part from where hsub leaves it, and its imaginary part from 4 lanes above |
| ComplexDotProduct.HsubLayout | src/complex_dotproduct.cpp:98 | hsub leaves element k's real difference in lane HsubRealLane(k) and its imaginary difference 4 lanes above |
| ComplexDotProduct.Mul256TermsLanes | src/complex_dotproduct.cpp:88-96 | vec3 holds re_a·re_b and im_a·im_b, and vec4 holds re_a·(im_b·1) and im_a·(re_b·-1), each wrapped |
| ComplexDotProduct.ComplexMul256Terms | src/complex_dotproduct.cpp:98-101 | after hsub and index6, lane 2k is vec3's pair difference and lane 2k+1 is vec4's |
| ComplexDotProduct.ComplexMul256Lanes | src/complex_dotproduct.cpp:86-103 | lane 2k of the 256-bit product is Wrap16(re_a·re_b - im_a·im_b), and lane 2k+1 is Wrap16(re_a·im_b + im_a·re_b) |
| ComplexDotProduct.ComplexMul256Elements | src/complex_dotproduct.cpp:86-103 | element k of the 256-bit product is the exact complex product of the two elements k, wrapped |
| ComplexDotProduct.ComplexMul256AgreesWith512 | src/complex_dotproduct.cpp:86-103 | the 512-bit multiply equals the 256-bit multiply applied to each half |
| ComplexDotProduct.DotProductIsDot | src/complex_dotproduct.cpp:145-147 | dotProduct16x32 is the sum over k of a_k·b_k (no conjugation), wrapped to 16 bits |
| ComplexDotProduct.DotSplits | src/complex_dotproduct.cpp:157 | the front-half dot product plus the back-half dot product is the whole dot product |
| ComplexDotProduct.Hsum8x32OfProduct | src/complex_dotproduct.cpp:158-160 | hsum8x32 of a 256-bit product is the wrapped 8-element dot product |
| ComplexDotProduct.OldDotProductIsDot | src/complex_dotproduct.cpp:151-161 | old_dotProduct16x32 is the wrapped dot product too |
| ComplexDotProduct.OldDotProductAgrees | src/complex_dotproduct.cpp:151-161 | old_dotProduct16x32 and dotProduct16x32 agree on all inputs |
| ComplexDotProduct.BenchmarkDot | src/bench_dot.hpp:44-57 | the exact dot product of 16 copies of {6, 3} with itself is {432, 576} |
| ComplexDotProduct.BenchmarkExample | src/bench_dot.hpp:44-57 | dotProduct16x32 of the benchmark's register with itself is {432, 576} |
| ComplexDotProduct.OverflowWraps | src/complex_dotproduct.cpp:139-142 | products overflow by wrapping: {200, 200} squared gives {0, 14464} in every element |
| Deinterleave.SeperateSwapAsWritten | src/deinterleave.hpp:6-7 | the formula for seperateSwap (even lanes, then odd lanes) gives the 32 listed entries |
| Deinterleave.SeperateSwapIsPermutation | src/deinterleave.hpp:6-7 | seperateSwap is a permutation of 0..31 |
| Deinterleave.SeperateSwapSplits | src/deinterleave.hpp:21-22 | permuting 16 loaded elements puts their real parts in order in the low 16 lanes and their imaginary parts in order in the high 16 |
| Deinterleave.SplitChunkCorrect | src/deinterleave.hpp:16-29 | after steps 1-3, lane k of `real` is the real part of element k of the chunk, and lane k of `imag` its imaginary part |
| Deinterleave.SplitChunkAt | src/deinterleave.hpp:16-29 | the same for the chunk of 32 elements starting at element i of the matrix |
| Deinterleave.Span | src/deinterleave.hpp:14 | the loop covers a multiple of 32 elements: none when size <= 0, otherwise size rounded up to the next multiple of 32 |
| Deinterleave.SpanOfMultiple | src/deinterleave.hpp:14 | when size is a multiple of 32, exactly size elements are covered |
| Deinterleave.DeinterleaveMatrix | src/deinterleave.hpp:11-37 | every covered element k gets real_res[k] = src[k].real and imag_res[k] = src[k].imag, and nothing past the covered elements changes |

## Left out

- The print helpers (`print_m512i`, `print_m256i`, `print_m128i`, `print_m512`) are debugging output.
- `_mm512_myComplexMult_ps` works on single-precision floats and prints its intermediate registers. Floating point is not modelled.
- The benchmark harness in `src/bench_dot.hpp` (timing, Armadillo, VCL, VOLK) is not part of this model. Only its input, 16 copies of {6, 3}, appears, in `BenchmarkDot` and `BenchmarkExample`.
- `ReduceAdd512`: `_mm512_reduce_add_epi16` is defined in a header that is not part of this model. It is assumed to be the even/odd reduction of `hsum16x32`.
- `AddWrapping`: `Complex_int16::operator+` is defined in a header that is not part of this model. It is assumed to add component-wise and wrap to int16.
- Alignment: `_mm512_load_si512` and `_mm512_store_si512` need 64-byte-aligned addresses. So do the 512-bit loads `*(__m512i*)temp0` .. `*(__m512i*)temp3` in `_mm512_myComplexMult_epi16`, which read plain `int16_t` arrays with no alignment guarantee. The model has no addresses.
- The bit encoding of registers and intrinsics is not modelled. A lane is an integer, and only the low bits of a permute index matter (`LaneMask`).
- `DeinterleaveMatrix`: the C++ `int` counter `i += 32` can overflow for `size` near `INT_MAX`. The model's counter is unbounded.
- `DeinterleaveMatrix`: for a `size` that is not a multiple of 32, the loop reads and writes up to 31 elements past `size`. The model requires all three arrays to hold `Span(size)` elements, which is what the loop touches. Out-of-bounds memory is not modelled.
- `DeinterleaveMatrix`: when `real_res` and `imag_res` are the same array, the imaginary store runs second and wins. The model states the imaginary parts for that case and gives no guarantee about real parts. A partial overlap of the two outputs (for example `imag_res == real_res + 16`) cannot be expressed with two Dafny arrays and is not modelled. Neither is any overlap between the outputs and `src`: `src` is a separate array of `Complex16` values.
