/** The concrete values the calculator's unit tests expect, proved about the
    specification and, for the method, about the scan itself.
 */
module GcExamples {
  import opened Bases
  import opened GcContent
  import opened GcProperties

  /** The bytes of an ASCII string literal (Rust `b"..."`). */
  function Ascii(s: string): (r: seq<byte>)
    requires forall i :: 0 <= i < |s| ==> s[i] as int < 256
    ensures |r| == |s|
    ensures forall i :: 0 <= i < |s| ==> r[i] as int == s[i] as int
  {
    seq(|s|, i requires 0 <= i < |s| => s[i] as byte)
  }

  /** The bytes of the test inputs, spelled out. */
  lemma {:induction false} TestInputBytes()
    ensures Ascii("ATCGATCG") == [UpperA, UpperT, UpperC, UpperG, UpperA, UpperT, UpperC, UpperG]
    ensures Ascii("atcgatcg") == [LowerA, LowerT, LowerC, LowerG, LowerA, LowerT, LowerC, LowerG]
    ensures Ascii("AtCgAtCg") == [UpperA, LowerT, UpperC, LowerG, UpperA, LowerT, UpperC, LowerG]
    ensures Ascii("GCGCGC") == [UpperG, UpperC, UpperG, UpperC, UpperG, UpperC]
    ensures Ascii("ATATAT") == [UpperA, UpperT, UpperA, UpperT, UpperA, UpperT]
    ensures Ascii("NNNXXX") == ['N' as byte, 'N' as byte, 'N' as byte, 'X' as byte, 'X' as byte, 'X' as byte]
    ensures Ascii("ATCGNNATCG")
         == [UpperA, UpperT, UpperC, UpperG, 'N' as byte, 'N' as byte, UpperA, UpperT, UpperC, UpperG]
  {
  }

  /** The bytes A T C G A T C G hold 4 G/C bytes out of 8 valid bases,
      counted as four chunks of two bytes whose counter pairs add up. */
  lemma {:induction false} AtcgAtcgCounts()
    ensures GcCount([UpperA, UpperT, UpperC, UpperG, UpperA, UpperT, UpperC, UpperG]) == 4
    ensures ValidCount([UpperA, UpperT, UpperC, UpperG, UpperA, UpperT, UpperC, UpperG]) == 8
  {
    var at, cg := [UpperA, UpperT], [UpperC, UpperG];
    assert [UpperA, UpperT, UpperC, UpperG, UpperA, UpperT, UpperC, UpperG] == ((at + cg) + at) + cg;
    assert at[..1] == [UpperA] && [UpperA][..0] == [];
    assert cg[..1] == [UpperC] && [UpperC][..0] == [];
    assert GcCount(at) == 0 && ValidCount(at) == 2;
    assert GcCount(cg) == 2 && ValidCount(cg) == 2;
    CountsAdditive(at, cg);
    CountsAdditive(at + cg, at);
    CountsAdditive((at + cg) + at, cg);
  }

  /** "ATCGATCG": 4 G/C bytes out of 8 valid bases, so 0.5. */
  lemma BasicSequence()
    ensures GcCount(Ascii("ATCGATCG")) == 4 && ValidCount(Ascii("ATCGATCG")) == 8
    ensures GcRatio(Ascii("ATCGATCG")) == 0.5
  {
    TestInputBytes();
    AtcgAtcgCounts();
  }

  /** The empty sequence gives the 0 sentinel. */
  lemma EmptySequence()
    ensures ValidCount(Ascii("")) == 0
    ensures GcRatio(Ascii("")) == 0.0
  {
  }

  /** "GCGCGC": every base is G or C, so exactly 1. */
  lemma AllGcSequence()
    ensures GcRatio(Ascii("GCGCGC")) == 1.0
  {
    TestInputBytes();
    AllGcIsOne(Ascii("GCGCGC"));
  }

  /** "ATATAT": six valid bases, none of them G or C, so exactly 0. */
  lemma AllAtSequence()
    ensures ValidCount(Ascii("ATATAT")) == 6
    ensures GcRatio(Ascii("ATATAT")) == 0.0
  {
    TestInputBytes();
    AllAtIsZero(Ascii("ATATAT"));
  }

  /** "atcgatcg" is the lower-case variant of "ATCGATCG" and gives the same
      0.5. */
  lemma LowerCase()
    ensures GcRatio(Ascii("atcgatcg")) == 0.5
  {
    var s, t := Ascii("ATCGATCG"), Ascii("atcgatcg");
    TestInputBytes();
    BasicSequence();
    assert forall i :: 0 <= i < |s| ==> t[i] == FlipCase(s[i]);
    CaseVariantKeepsCounts(s, t);
  }

  /** "AtCgAtCg" is a mixed-case variant of "ATCGATCG" and gives the same 0.5. */
  lemma MixedCase()
    ensures GcRatio(Ascii("AtCgAtCg")) == 0.5
  {
    var s, t := Ascii("ATCGATCG"), Ascii("AtCgAtCg");
    TestInputBytes();
    BasicSequence();
    assert forall i :: 0 <= i < |s| ==> t[i] == s[i] || t[i] == FlipCase(s[i]);
    CaseVariantKeepsCounts(s, t);
  }

  /** "ATCGNNATCG" is "ATCGATCG" with two N bytes inserted; they are skipped,
      leaving 4 G/C bytes out of 8 valid bases. */
  lemma AmbiguousBasesSkipped()
    ensures ValidCount(Ascii("ATCGNNATCG")) == 8
    ensures GcRatio(Ascii("ATCGNNATCG")) == 0.5
  {
    var n := 'N' as byte;
    var s := Ascii("ATCGATCG");
    var once := s[..4] + [n] + s[4..];
    TestInputBytes();
    BasicSequence();
    InsertOtherKeepsRatio(s, 4, n);
    assert once == [UpperA, UpperT, UpperC, UpperG, n, UpperA, UpperT, UpperC, UpperG];
    InsertOtherKeepsRatio(once, 4, n);
    assert Ascii("ATCGNNATCG") == once[..4] + [n] + once[4..];
  }

  /** "NNNXXX": non-empty, but no valid base, so the 0 sentinel. */
  lemma OnlyAmbiguousBases()
    ensures ValidCount(Ascii("NNNXXX")) == 0
    ensures GcRatio(Ascii("NNNXXX")) == 0.0
  {
    var s := Ascii("NNNXXX");
    TestInputBytes();
    assert forall i :: 0 <= i < |s| ==> s[i] == 'N' as byte || s[i] == 'X' as byte;
    NoValidBaseIsSentinel(s);
  }
}
