/** Nucleotide bytes and their classification.

    The calculator reads raw ASCII bytes and sorts each one into exactly one of
    three classes by comparing it against an explicit list of byte values (no
    locale-aware case folding).
 */
module Bases {

  /** One raw byte of the caller's buffer (Rust `u8`). */
  newtype byte = b: int | 0 <= b < 256

  const UpperA: byte := 'A' as byte
  const UpperC: byte := 'C' as byte
  const UpperG: byte := 'G' as byte
  const UpperT: byte := 'T' as byte
  const LowerA: byte := 'a' as byte
  const LowerC: byte := 'c' as byte
  const LowerG: byte := 'g' as byte
  const LowerT: byte := 't' as byte

  /** The bytes counted in both the numerator and the denominator. */
  const GcBases: set<byte> := {UpperG, UpperC, LowerG, LowerC}

  /** The bytes counted in the denominator only. */
  const AtBases: set<byte> := {UpperA, UpperT, LowerA, LowerT}

  /** The three classes a byte can fall into; `Other` absorbs ambiguity codes
      such as `N`, gap markers and every byte that is not a nucleotide letter. */
  datatype BaseClass = Gc | At | Other

  /** The classification of one byte: the three arms of the scan's `match`. */
  function Classify(b: byte): (c: BaseClass)
    ensures c == Gc <==> b in GcBases
    ensures c == At <==> b in AtBases
    ensures c == Other <==> b !in GcBases + AtBases
  {
    if b == UpperG || b == UpperC || b == LowerG || b == LowerC then Gc
    else if b == UpperA || b == UpperT || b == LowerA || b == LowerT then At
    else Other
  }

  /** A valid base is one of A, C, G, T in either case. */
  predicate IsValidBase(b: byte)
  {
    Classify(b) != Other
  }

  /** ASCII case flip: upper-case letters become lower-case and vice versa,
      every other byte is left as it is. */
  function FlipCase(b: byte): byte
  {
    if 'A' as byte <= b <= 'Z' as byte then b + 32
    else if 'a' as byte <= b <= 'z' as byte then b - 32
    else b
  }

  /** The classification ignores ASCII case: a byte and its case flip always
      land in the same class. */
  lemma ClassifyIgnoresCase(b: byte)
    ensures Classify(FlipCase(b)) == Classify(b)
  {
  }
}
