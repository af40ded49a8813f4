/** The GC-content calculator: one pass over a byte buffer that keeps two
    counters, followed by the sentinel rule and the final ratio.

    The specification is given by pure functions over the bytes scanned
    (`GcCount`, `ValidCount`, `GcRatio`); the method `CalculateGcContent` is
    the scan itself and is proved to compute exactly `GcRatio`.
 */
module GcContent {
  import opened Bases

  /** Number of G/C bytes (either case) in `s`: the final value of `gc_count`. */
  function GcCount(s: seq<byte>): (n: nat)
    ensures n <= |s|
  {
    if s == [] then 0
    else GcCount(s[..|s| - 1]) + (if Classify(s[|s| - 1]) == Gc then 1 else 0)
  }

  /** Number of A/T bytes (either case) in `s`. */
  function AtCount(s: seq<byte>): (n: nat)
    ensures n <= |s|
  {
    if s == [] then 0
    else AtCount(s[..|s| - 1]) + (if Classify(s[|s| - 1]) == At then 1 else 0)
  }

  /** Number of valid bases (A, C, G, T in either case) in `s`: the final value
      of `valid_bases`. It never falls below the G/C count and never exceeds
      the number of bytes scanned. */
  function ValidCount(s: seq<byte>): (n: nat)
    ensures GcCount(s) <= n <= |s|
  {
    if s == [] then 0
    else ValidCount(s[..|s| - 1]) + (if IsValidBase(s[|s| - 1]) then 1 else 0)
  }

  /** The final division with its sentinel: no valid base gives 0, otherwise the
      exact ratio of the two counters. */
  function Ratio(gc: nat, valid: nat): (r: real)
    requires gc <= valid
    ensures 0.0 <= r <= 1.0
    ensures r == 0.0 <==> gc == 0
    ensures r == 1.0 <==> valid > 0 && gc == valid
  {
    if valid == 0 then 0.0 else gc as real / valid as real
  }

  /** With at least one valid base, the result is the fraction `gc / valid`:
      multiplied back by the denominator it gives the numerator. */
  lemma RatioIsFraction(gc: nat, valid: nat)
    requires gc <= valid && valid > 0
    ensures Ratio(gc, valid) * valid as real == gc as real
  {
  }

  /** The GC content of a sequence, as the calculator defines it: 0 for the
      empty sequence, and otherwise the final division of the two counts. The
      early return for the empty sequence agrees with the no-valid-base
      sentinel, so the result is always the final division of the counts. */
  function GcRatio(s: seq<byte>): (r: real)
    ensures r == Ratio(GcCount(s), ValidCount(s))
    ensures 0.0 <= r <= 1.0
  {
    if |s| == 0 then 0.0 else Ratio(GcCount(s), ValidCount(s))
  }

  /** The calculator: scans the first `length` bytes of `sequence` once, in
      order, and returns their GC content. The caller guarantees that the
      buffer holds at least `length` readable bytes. */
  method CalculateGcContent(sequence: array<byte>, length: nat) returns (ratio: real)
    requires length <= sequence.Length
    ensures ratio == GcRatio(sequence[..length])
    ensures 0.0 <= ratio <= 1.0
  {
    if length == 0 {
      return 0.0;
    }

    var gcCount: nat := 0;
    var validBases: nat := 0;

    var i := 0;
    while i < length
      invariant 0 <= i <= length
      invariant gcCount == GcCount(sequence[..i])
      invariant validBases == ValidCount(sequence[..i])
      invariant gcCount <= validBases <= i
    {
      var base := sequence[i];
      assert sequence[..i + 1][..i] == sequence[..i];
      match Classify(base) {
        case Gc =>
          gcCount := gcCount + 1;
          validBases := validBases + 1;
        case At =>
          validBases := validBases + 1;
        case Other =>
          // ambiguous bases and gaps are skipped
      }
      i := i + 1;
    }
    assert sequence[..i] == sequence[..length];

    if validBases == 0 {
      return 0.0;
    }

    ratio := gcCount as real / validBases as real;
  }
}
