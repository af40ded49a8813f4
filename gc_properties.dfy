/** What the calculator promises about its counts and its result, proved about
    the specification functions of `GcContent`.
 */
module GcProperties {
  import opened Bases
  import opened GcContent

  // ---------------------------------------------------------------------------
  // The two counters

  /** `valid_bases` counts exactly the G/C bytes plus the A/T bytes. */
  lemma {:induction false} ValidIsGcPlusAt(s: seq<byte>)
    ensures ValidCount(s) == GcCount(s) + AtCount(s)
  {
    if s != [] {
      ValidIsGcPlusAt(s[..|s| - 1]);
    }
  }

  /** Counting the bytes of `s + t` in one pass gives the sum of the counts of
      `s` and of `t`: each byte is classified on its own. */
  lemma {:induction false} CountsAdditive(s: seq<byte>, t: seq<byte>)
    ensures GcCount(s + t) == GcCount(s) + GcCount(t)
    ensures AtCount(s + t) == AtCount(s) + AtCount(t)
    ensures ValidCount(s + t) == ValidCount(s) + ValidCount(t)
  {
    if t == [] {
      assert s + t == s;
    } else {
      var t' := t[..|t| - 1];
      assert (s + t)[..|s + t| - 1] == s + t';
      CountsAdditive(s, t');
    }
  }

  /** Splitting a sequence into two contiguous chunks, counting each chunk and
      adding the counter pairs before the final division gives the same result
      as one pass over the whole sequence. */
  lemma {:induction false} ChunkedRatio(s: seq<byte>, t: seq<byte>)
    ensures GcCount(s) + GcCount(t) <= ValidCount(s) + ValidCount(t)
    ensures GcRatio(s + t) == Ratio(GcCount(s) + GcCount(t), ValidCount(s) + ValidCount(t))
  {
    CountsAdditive(s, t);
  }

  /** Two sequences with the same counters have the same GC content. */
  lemma {:induction false} SameCountsSameRatio(s: seq<byte>, t: seq<byte>)
    requires GcCount(s) == GcCount(t) && ValidCount(s) == ValidCount(t)
    ensures GcRatio(s) == GcRatio(t)
  {
  }

  // ---------------------------------------------------------------------------
  // Order independence

  /** Reference definitions of the counters from the multiset of bytes alone,
      with no scan order. */
  function GcTally(m: multiset<byte>): nat
  {
    m[UpperG] + m[UpperC] + m[LowerG] + m[LowerC]
  }

  function AtTally(m: multiset<byte>): nat
  {
    m[UpperA] + m[UpperT] + m[LowerA] + m[LowerT]
  }

  /** The scan's counters agree with the order-free tallies of the bytes. */
  lemma {:induction false} CountsAreTallies(s: seq<byte>)
    ensures GcCount(s) == GcTally(multiset(s))
    ensures AtCount(s) == AtTally(multiset(s))
    ensures ValidCount(s) == GcTally(multiset(s)) + AtTally(multiset(s))
  {
    if s != [] {
      var p := s[..|s| - 1];
      assert s == p + [s[|s| - 1]];
      assert multiset(s) == multiset(p) + multiset{s[|s| - 1]};
      CountsAreTallies(p);
    }
    ValidIsGcPlusAt(s);
  }

  /** Any rearrangement of the bytes gives the same counters and the same GC
      content: the result does not depend on the scan order. */
  lemma {:induction false} RatioOrderIndependent(s: seq<byte>, t: seq<byte>)
    requires multiset(s) == multiset(t)
    ensures GcCount(s) == GcCount(t) && ValidCount(s) == ValidCount(t)
    ensures GcRatio(s) == GcRatio(t)
  {
    CountsAreTallies(s);
    CountsAreTallies(t);
    assert |s| == |multiset(s)| == |t|;
  }

  // ---------------------------------------------------------------------------
  // Non-nucleotide bytes are skipped

  /** The valid bases of `s`, in order, with every other byte dropped. */
  function Nucleotides(s: seq<byte>): (r: seq<byte>)
    ensures |r| <= |s|
    ensures forall i :: 0 <= i < |r| ==> IsValidBase(r[i])
  {
    if s == [] then []
    else Nucleotides(s[..|s| - 1]) + (if IsValidBase(s[|s| - 1]) then [s[|s| - 1]] else [])
  }

  /** Dropping the non-nucleotide bytes changes neither counter nor the result,
      and what is left is exactly the denominator's bytes. */
  lemma {:induction false} SkippingOthersKeepsCounts(s: seq<byte>)
    ensures GcCount(Nucleotides(s)) == GcCount(s)
    ensures ValidCount(Nucleotides(s)) == ValidCount(s) == |Nucleotides(s)|
    ensures GcRatio(Nucleotides(s)) == GcRatio(s)
  {
    if s != [] {
      var p := s[..|s| - 1];
      var b := s[|s| - 1];
      SkippingOthersKeepsCounts(p);
      var tail := if IsValidBase(b) then [b] else [];
      CountsAdditive(Nucleotides(p), tail);
      if IsValidBase(b) {
        assert [b][..0] == [];
      }
    }
  }

  /** A single non-nucleotide byte counts for nothing. */
  lemma {:induction false} OtherCountsNothing(b: byte)
    requires Classify(b) == Other
    ensures GcCount([b]) == 0 && ValidCount([b]) == 0
  {
  }

  /** Inserting a non-nucleotide byte anywhere changes neither counter nor the
      result. */
  lemma {:induction false} InsertOtherKeepsRatio(s: seq<byte>, i: nat, b: byte)
    requires i <= |s|
    requires Classify(b) == Other
    ensures GcCount(s[..i] + [b] + s[i..]) == GcCount(s)
    ensures ValidCount(s[..i] + [b] + s[i..]) == ValidCount(s)
    ensures GcRatio(s[..i] + [b] + s[i..]) == GcRatio(s)
  {
    var front, back := s[..i], s[i..];
    var x := s[..i] + [b] + s[i..];
    assert x == (front + [b]) + back;
    assert s == front + back;
    OtherCountsNothing(b);
    CountsAdditive(front, [b]);
    CountsAdditive(front + [b], back);
    CountsAdditive(front, back);
    SameCountsSameRatio(x, s);
  }

  // ---------------------------------------------------------------------------
  // Case insensitivity

  /** `t` is `s` with the ASCII case of any of its bytes flipped. */
  ghost predicate CaseVariant(s: seq<byte>, t: seq<byte>)
  {
    |s| == |t| && forall i :: 0 <= i < |s| ==> t[i] == s[i] || t[i] == FlipCase(s[i])
  }

  /** Changing the case of any bytes leaves both counters and the result
      unchanged. */
  lemma {:induction false} CaseVariantKeepsCounts(s: seq<byte>, t: seq<byte>)
    requires CaseVariant(s, t)
    ensures GcCount(t) == GcCount(s) && ValidCount(t) == ValidCount(s)
    ensures GcRatio(t) == GcRatio(s)
  {
    if s != [] {
      var n := |s| - 1;
      ClassifyIgnoresCase(s[n]);
      assert CaseVariant(s[..n], t[..n]);
      CaseVariantKeepsCounts(s[..n], t[..n]);
    }
  }

  // ---------------------------------------------------------------------------
  // Sentinels and extremes

  /** No valid base, and only then, makes the denominator zero; the result is
      then the 0 sentinel, whatever the length. */
  lemma {:induction false} NoValidBaseIsSentinel(s: seq<byte>)
    ensures ValidCount(s) == 0 <==> forall i :: 0 <= i < |s| ==> !IsValidBase(s[i])
    ensures ValidCount(s) == 0 ==> GcRatio(s) == 0.0
  {
    if s != [] {
      var n := |s| - 1;
      NoValidBaseIsSentinel(s[..n]);
      assert forall i :: 0 <= i < n ==> s[..n][i] == s[i];
    }
  }

  /** Every byte is G or C (either case) exactly when the G/C count is the
      length. */
  lemma {:induction false} AllGcCount(s: seq<byte>)
    ensures GcCount(s) == |s| <==> forall i :: 0 <= i < |s| ==> s[i] in GcBases
  {
    if s != [] {
      var n := |s| - 1;
      AllGcCount(s[..n]);
      assert forall i :: 0 <= i < n ==> s[..n][i] == s[i];
    }
  }

  /** Every byte is A or T (either case) exactly when the A/T count is the
      length. */
  lemma {:induction false} AllAtCount(s: seq<byte>)
    ensures AtCount(s) == |s| <==> forall i :: 0 <= i < |s| ==> s[i] in AtBases
  {
    if s != [] {
      var n := |s| - 1;
      AllAtCount(s[..n]);
      assert forall i :: 0 <= i < n ==> s[..n][i] == s[i];
    }
  }

  /** A non-empty sequence of G/C bytes only has GC content exactly 1. */
  lemma {:induction false} AllGcIsOne(s: seq<byte>)
    requires s != []
    requires forall i :: 0 <= i < |s| ==> s[i] in GcBases
    ensures GcRatio(s) == 1.0
  {
    AllGcCount(s);
  }

  /** A non-empty sequence of A/T bytes only has valid bases and GC content
      exactly 0 (the same value as the no-valid-base sentinel). */
  lemma {:induction false} AllAtIsZero(s: seq<byte>)
    requires s != []
    requires forall i :: 0 <= i < |s| ==> s[i] in AtBases
    ensures ValidCount(s) == |s| > 0
    ensures GcRatio(s) == 0.0
  {
    AllAtCount(s);
    ValidIsGcPlusAt(s);
  }
}
