/** Condition codes: which flags they test, and what they decide after a comparison. */
module Conditions {
  import opened Words
  import opened X86State
  import opened Rtl

  /** Condition codes 0 to 15; an odd code is the inverse of the even one before it. */
  type code = c: int | 0 <= c < 16

  /** The parity codes are not supported. */
  predicate Supported(cc: code) {
    cc != 10 && cc != 11
  }

  /** Whether a supported condition code is satisfied, as the Intel 80386 manual defines it on the flags. */
  predicate Satisfied(f: Flags, cc: code)
    requires Supported(cc)
  {
    match cc
    case 0 => f.of_ == 1
    case 1 => f.of_ == 0
    case 2 => f.cf == 1
    case 3 => f.cf == 0
    case 4 => f.zf == 1
    case 5 => f.zf == 0
    case 6 => f.cf == 1 || f.zf == 1
    case 7 => f.cf == 0 && f.zf == 0
    case 8 => f.sf == 1
    case 9 => f.sf == 0
    case 12 => f.sf != f.of_
    case 13 => f.sf == f.of_
    case 14 => f.sf != f.of_ || f.zf == 1
    case _ => f.sf == f.of_ && f.zf == 0
  }

  /** Codes that compare: B, NB, E, NE, BE, NBE, L, NL, LE, NLE. */
  predicate Compares(cc: code) {
    2 <= cc <= 7 || cc >= 12
  }

  predicate IsSigned(cc: code) {
    cc >= 12
  }

  /** The simple comparison a comparing code stands for. */
  function RelopOf(cc: code): Relop
    requires Compares(cc)
  {
    match cc
    case 2 => LTU
    case 3 => GEU
    case 4 => EQ
    case 5 => NE
    case 6 => LEU
    case 7 => GTU
    case 12 => LT
    case 13 => GE
    case 14 => LE
    case _ => GT
  }

  /** An operand of the width extended to a word: by its sign for signed comparisons, by zeros otherwise. */
  function Extended(v: word, w: width, signed: bool): word
    requires v < Size(w)
  {
    if signed then Wrap(SignedAt(v, w)) else v
  }

  lemma ExtendedKeepsSign(v: word, w: width)
    requires v < Size(w)
    ensures Signed(Extended(v, w, true)) == SignedAt(v, w)
  {}

  /** The sign of the difference, corrected by overflow, is the signed order. */
  lemma SignAndOverflow(d: word, s: word, w: width)
    requires d < Size(w) && s < Size(w)
    ensures Negative(CSub(d, s), w) != Overflows(SignedAt(d, w) - SignedAt(s, w), w) <==>
            SignedAt(d, w) < SignedAt(s, w)
  {
    NarrowDifference(d, s, w);
    SmallRemainder(d, w);
    SmallRemainder(s, w);
    SignOfDifference(d, s, Size(w) / 2);
  }

  lemma SignOfDifference(d: int, s: int, h: int)
    requires 0 <= d < 2 * h && 0 <= s < 2 * h
    ensures var r := if d < s then d - s + 2 * h else d - s;
            (r >= h) != !(-h <= Reading(d, h) - Reading(s, h) < h) <==> Reading(d, h) < Reading(s, h)
  {}

  lemma ZeroDifference(d: word, s: word, w: width)
    requires d < Size(w) && s < Size(w)
    ensures CSub(d, s) % Size(w) == 0 <==> d == s
  {
    NarrowDifference(d, s, w);
  }

  /**
   After a comparison of operands of any width, every comparing code decides exactly as the simple comparison
   does on the operands extended to words; the overflow code tells whether the signed difference fits.
   */
  lemma ComparisonDecides(f: Flags, d: word, s: word, w: width, cc: code)
    requires d < Size(w) && s < Size(w) && ComparisonFlags(f, d, s, w)
    ensures Compares(cc) ==>
      (Satisfied(f, cc) <==>
       InterpretRelop(RelopOf(cc), Extended(d, w, IsSigned(cc)), Extended(s, w, IsSigned(cc))))
    ensures cc == 0 ==> (Satisfied(f, cc) <==> Overflows(SignedAt(d, w) - SignedAt(s, w), w))
  {
    ZeroDifference(d, s, w);
    SignAndOverflow(d, s, w);
    ExtendedKeepsSign(d, w);
    ExtendedKeepsSign(s, w);
    assert SignedAt(d, w) == SignedAt(s, w) <==> d == s;
  }
}
