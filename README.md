# GC content calculator, modelled in Dafny

This project models the native GC-content primitive of the genotype
bioinformatics library: `calculate_gc_content` in `src/native/src/lib.rs`. It
scans a buffer of raw nucleotide bytes once. It puts each byte into one of three
classes:

- G/C, meaning `G`, `C`, `g` or `c`;
- A/T, meaning `A`, `T`, `a` or `t`;
- every other byte, such as `N` and gaps.

It keeps two counters, `gc_count` and `valid_bases`, and returns
`gc_count / valid_bases`. It returns the sentinel 0 for an empty buffer or a
buffer with no valid base.

Files and modules:

- `bases.dfy` (`Bases`): the byte type, the three-way classification and the
  ASCII case flip used to state case insensitivity.
- `gc_content.dfy` (`GcContent`): the specification functions `GcCount`,
  `AtCount`, `ValidCount`, `Ratio` and `GcRatio`, and the method
  `CalculateGcContent`. This method is the scan: it has a `while` loop over an
  array, and its invariants tie the two running counters to the counting
  functions over the prefix scanned so far.
- `gc_properties.dfy` (`GcProperties`): the counters and the result are
  additive over contiguous chunks, independent of byte order, unchanged by
  skipped bytes and by case changes, and take the sentinel and extreme values.
- `gc_examples.dfy` (`GcExamples`): the values the unit tests expect, derived
  from the general lemmas.

The result is the exact rational `gc_count / valid_bases` as a Dafny `real`.
The counters are unbounded naturals.

## Model

| member | source | states |
|---|---|---|
| `Bases.Classify` | src/native/src/lib.rs:37-48 | a byte is G/C exactly when it is one of `G C g c`, A/T exactly when it is one of `A T a t`, and in the skipped class exactly when it is neither |
| `Bases.ClassifyIgnoresCase` | src/native/src/lib.rs:38-43 | flipping the ASCII case of any byte never changes its class |
| `GcContent.GcCount` | src/native/src/lib.rs:36-41 | the number of G/C bytes never exceeds the number of bytes scanned |
| `GcContent.AtCount` | src/native/src/lib.rs:42-44 | the number of A/T bytes never exceeds the number of bytes scanned |
| `GcContent.ValidCount` | src/native/src/lib.rs:29-49 | 0 <= `gc_count` <= `valid_bases` <= number of bytes scanned |
| `GcContent.Ratio` | src/native/src/lib.rs:52-57 | the final division lies in [0, 1]; it is 0 exactly when there is no G/C byte, which includes the zero-denominator sentinel; it is 1 exactly when there are valid bases and all of them are G/C |
| `GcContent.RatioIsFraction` | src/native/src/lib.rs:57 | with at least one valid base, the result multiplied by `valid_bases` gives back `gc_count` |
| `GcContent.GcRatio` | src/native/src/lib.rs:21-58 | the early return for length 0 agrees with the no-valid-base sentinel, so the GC content is always the final division of the two counts; it lies in [0, 1] |
| `GcContent.CalculateGcContent` | src/native/src/lib.rs:23-58 | for a buffer holding at least `length` bytes, the single in-order scan returns exactly the GC content of the first `length` bytes (0 for `length` 0), a value in [0, 1] |
| `GcProperties.ValidIsGcPlusAt` | src/native/src/lib.rs:38-44 | `valid_bases` is the number of G/C bytes plus the number of A/T bytes |
| `GcProperties.CountsAdditive` | src/native/src/lib.rs:36-49 | each counter over `s + t` is its count over `s` plus its count over `t` |
| `GcProperties.ChunkedRatio` | src/native/src/lib.rs:36-57 | summing the counter pairs of two contiguous chunks and then dividing gives the result of one pass over their concatenation |
| `GcProperties.SameCountsSameRatio` | src/native/src/lib.rs:52-57 | two sequences with equal counters have equal GC content |
| `GcProperties.CountsAreTallies` | src/native/src/lib.rs:36-49 | the scan's counters equal order-free tallies of the bytes' multiset: occurrences of `G C g c`, and those plus occurrences of `A T a t` |
| `GcProperties.RatioOrderIndependent` | src/native/src/lib.rs:36-57 | any permutation of the bytes gives the same counters and the same GC content |
| `GcProperties.Nucleotides` | src/native/src/lib.rs:45-47 | the filtered sequence is no longer than the input and holds valid bases only |
| `GcProperties.SkippingOthersKeepsCounts` | src/native/src/lib.rs:45-47 | dropping every non-nucleotide byte changes neither counter nor the result, and what remains has exactly `valid_bases` bytes |
| `GcProperties.OtherCountsNothing` | src/native/src/lib.rs:45-47 | a single non-nucleotide byte adds to neither counter |
| `GcProperties.InsertOtherKeepsRatio` | src/native/src/lib.rs:45-47 | inserting a non-nucleotide byte at any position changes neither counter nor the result |
| `GcProperties.CaseVariantKeepsCounts` | src/native/src/lib.rs:38-43 | changing the ASCII case of any bytes leaves both counters and the result unchanged |
| `GcProperties.NoValidBaseIsSentinel` | src/native/src/lib.rs:52-54 | `valid_bases` is 0 exactly when no byte is a valid base, and then the result is the 0 sentinel, for any length |
| `GcProperties.AllGcCount` | src/native/src/lib.rs:38-41 | the G/C count equals the length exactly when every byte is one of `G C g c` |
| `GcProperties.AllAtCount` | src/native/src/lib.rs:42-44 | the A/T count equals the length exactly when every byte is one of `A T a t` |
| `GcProperties.AllGcIsOne` | src/native/src/lib.rs:57 | a non-empty all-G/C sequence has GC content exactly 1 |
| `GcProperties.AllAtIsZero` | src/native/src/lib.rs:57 | a non-empty all-A/T sequence has `valid_bases` equal to its length (> 0) and GC content exactly 0, the same value as the sentinel |
| `GcExamples.AtcgAtcgCounts` | src/native/src/lib.rs:64-73 | the bytes `A T C G A T C G` hold 4 G/C bytes and 8 valid bases |
| `GcExamples.BasicSequence` | src/native/src/lib.rs:64-73 | `ATCGATCG` has 4 G/C bytes out of 8 valid bases, so 0.5 |
| `GcExamples.EmptySequence` | src/native/src/lib.rs:75-80 | the empty sequence gives 0 |
| `GcExamples.AllGcSequence` | src/native/src/lib.rs:82-91 | `GCGCGC` gives exactly 1 |
| `GcExamples.AllAtSequence` | src/native/src/lib.rs:93-102 | `ATATAT` has 6 valid bases and gives exactly 0 |
| `GcExamples.LowerCase` | src/native/src/lib.rs:104-113 | `atcgatcg` gives 0.5, the value of `ATCGATCG` |
| `GcExamples.MixedCase` | src/native/src/lib.rs:115-124 | `AtCgAtCg` gives 0.5, the value of `ATCGATCG` |
| `GcExamples.AmbiguousBasesSkipped` | src/native/src/lib.rs:126-137 | `ATCGNNATCG` has 8 valid bases and gives 0.5 |
| `GcExamples.OnlyAmbiguousBases` | src/native/src/lib.rs:139-144 | `NNNXXX` has no valid base and gives the 0 sentinel |

## Left out

- The C ABI boundary (`#[no_mangle]`, `extern "C"`, the raw `*const u8` and `std::slice::from_raw_parts`): the validity of a raw address cannot be expressed in the model. The buffer is an `array<byte>`, and the caller's safety obligation becomes `requires length <= sequence.Length`.
- GcContent.CalculateGcContent: returns the exact rational `gc_count / valid_bases` as a `real`, not its IEEE-754 `f64` rounding. The unit tests compare within a 0.001 tolerance, so no rounding behaviour is promised.
- Overflow of the `usize` counters: both counters are bounded by `length`, which is itself a `usize`, so they cannot wrap; they are modelled as unbounded naturals.
- The unit-test harness (`#[cfg(test)]`, `assert!`): the tests' inputs and expected values are stated as lemmas instead.
