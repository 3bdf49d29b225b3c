/**
 The register-transfer operators of the emulator on 32-bit words, the relational operators, and the numeric
 meaning of the bit tricks by which carry, overflow, zero and sign are found.
 */
module Rtl {
  import opened Words
  import opened Arithmetic
  import opened Bits
  import opened X86State

  // ---------- Arithmetic operators ----------

  function CAdd(a: word, b: word): word { Wrap(a + b) }

  function CSub(a: word, b: word): word { Wrap(a - b) }

  function CShl(a: word, n: nat): word { Wrap(a * Pow2(n)) }

  function CShr(a: word, n: nat): (r: word)
    ensures r <= a
  {
    DivNonnegative(a, Pow2(n));
    a / Pow2(n)
  }

  function CMulLo(a: word, b: word): word { Wrap(a * b) }

  /** The upper half of the 64-bit product. */
  function CMulHi(a: word, b: word): word {
    ProductBelow(a, b, MODULUS);
    DivNonnegative(a * b, MODULUS);
    DivBelow(a * b, MODULUS, MODULUS);
    a * b / MODULUS
  }

  function CImulLo(a: word, b: word): word { Wrap(Signed(a) * Signed(b)) }

  /** The upper half of the signed 64-bit product; the right shift of a negative product rounds down. */
  function CImulHi(a: word, b: word): word { Wrap(Signed(a) * Signed(b) / MODULUS) }

  /** The quotient and remainder of unsigned words. */
  function CDivQ(n: word, d: word): (q: word)
    requires d > 0
  {
    DivNonnegative(n, d);
    n / d
  }

  function CDivR(n: word, d: word): (r: word)
    requires d > 0
    ensures r < d
  {
    n % d
  }

  // ---------- Relational operators ----------

  datatype Relop = FALSE | TRUE | EQ | NE | LT | LE | GT | GE | LTU | LEU | GTU | GEU

  function InterpretRelop(relop: Relop, a: word, b: word): bool {
    match relop
    case FALSE => false
    case TRUE => true
    case EQ => a == b
    case NE => a != b
    case LT => Signed(a) < Signed(b)
    case LE => Signed(a) <= Signed(b)
    case GT => Signed(a) > Signed(b)
    case GE => Signed(a) >= Signed(b)
    case LTU => a < b
    case LEU => a <= b
    case GTU => a > b
    case GEU => a >= b
  }

  function SetRelop(relop: Relop, a: word, b: word): bit {
    if InterpretRelop(relop, a, b) then 1 else 0
  }

  // ---------- What the tricks mean ----------

  lemma {:induction false} BitOfComplement(a: nat, n: nat, k: nat)
    requires a < Pow2(n) && k < n
    ensures Bit(Pow2(n) - 1 - a, k) == 1 - Bit(a, k)
    decreases n
  {
    if k > 0 {
      assert (Pow2(n) - 1 - a) / 2 == Pow2(n - 1) - 1 - a / 2;
      BitOfComplement(a / 2, n - 1, k - 1);
    }
  }

  lemma BitNot(a: word, k: nat)
    requires k < 32
    ensures Bit(Not(a), k) == 1 - Bit(a, k)
  {
    Powers();
    BitOfComplement(a, 32, k);
  }

  /** Shifting the unused upper bits out leaves zero exactly when the result is zero at its width. */
  lemma ShiftedOutIsZero(x: word, w: width)
    ensures CShl(x, 32 - 8 * w) == 0 <==> x % Size(w) == 0
  {
    Powers();
    assert Pow2(24) == 256 * Pow2(16);
    var (q, r) := (x / Size(w), x % Size(w));
    var m := Pow2(32 - 8 * w);
    assert m * Size(w) == MODULUS;
    assert x * m == q * MODULUS + r * m by {
      assert x == q * Size(w) + r;
      MulDistributes(q * Size(w), r, m);
      assert q * Size(w) * m == q * MODULUS;
    }
    MulMonotone(r, Size(w) - 1, m);
    MulDistributes(Size(w), 1, m);
    DivModUnique(x * m, MODULUS, q, r * m);
  }

  /** A borrow happened exactly when the wrapped difference exceeds the minuend. */
  lemma BorrowIsBelow(d: word, s: word)
    ensures d < CSub(d, s) <==> d < s
  {}

  /** A carry out of 32 bits happened exactly when the wrapped sum is below an addend. */
  lemma CarryIsAbove(d: word, s: word)
    ensures CAdd(d, s) < d <==> d + s >= MODULUS
  {}

  predicate Negative(v: nat, w: width) {
    v % Size(w) >= Size(w) / 2
  }

  lemma NarrowDifference(d: word, s: word, w: width)
    requires d < Size(w) && s < Size(w)
    ensures CSub(d, s) % Size(w) == if d < s then d - s + Size(w) else d - s
  {}

  lemma NarrowSum(d: word, s: word, w: width)
    requires d < Size(w) && s < Size(w)
    ensures CAdd(d, s) % Size(w) == if d + s < Size(w) then d + s else d + s - Size(w)
  {}

  /** Two's complement with 2h values, without reference to words. */
  function Reading(v: int, h: int): int {
    if v < h then v else v - 2 * h
  }

  lemma DifferenceLeavesRange(d: int, s: int, h: int)
    requires 0 <= d < 2 * h && 0 <= s < 2 * h
    ensures var r := if d < s then d - s + 2 * h else d - s;
            (d >= h) != (s >= h) && (r >= h) != (d >= h) <==> !(-h <= Reading(d, h) - Reading(s, h) < h)
  {}

  lemma SumLeavesRange(d: int, s: int, h: int)
    requires 0 <= d < 2 * h && 0 <= s < 2 * h
    ensures var r := if d + s < 2 * h then d + s else d + s - 2 * h;
            (d >= h) == (s >= h) && (r >= h) != (d >= h) <==> !(-h <= Reading(d, h) + Reading(s, h) < h)
  {}

  lemma SmallRemainder(v: word, w: width)
    requires v < Size(w)
    ensures v % Size(w) == v && SignedAt(v, w) == Reading(v, Size(w) / 2)
  {}

  lemma DifferenceOverflows(d: word, s: word, w: width)
    requires d < Size(w) && s < Size(w)
    ensures Negative(d, w) != Negative(s, w) && Negative(CSub(d, s), w) != Negative(d, w) <==>
            Overflows(SignedAt(d, w) - SignedAt(s, w), w)
  {
    NarrowDifference(d, s, w);
    SmallRemainder(d, w);
    SmallRemainder(s, w);
    DifferenceLeavesRange(d, s, Size(w) / 2);
  }

  lemma SumOverflows(d: word, s: word, w: width)
    requires d < Size(w) && s < Size(w)
    ensures Negative(d, w) == Negative(s, w) && Negative(CAdd(d, s), w) != Negative(d, w) <==>
            Overflows(SignedAt(d, w) + SignedAt(s, w), w)
  {
    NarrowSum(d, s, w);
    SmallRemainder(d, w);
    SmallRemainder(s, w);
    SumLeavesRange(d, s, Size(w) / 2);
  }

  // ---------- Masks ----------

  lemma {:induction false} AndOnes(x: nat, n: nat)
    ensures And(Pow2(n) - 1, x) == x % Pow2(n)
    decreases n
  {
    if x == 0 {
      DivModUnique(0, Pow2(n), 0, 0);
    } else if n > 0 {
      var ones := Pow2(n) - 1;
      assert ones / 2 == Pow2(n - 1) - 1 && ones % 2 == 1;
      assert And(ones, x) == x % 2 + 2 * And(ones / 2, x / 2);
      AndOnes(x / 2, n - 1);
      HalvedRemainder(x, Pow2(n - 1));
    } else {
      DivModUnique(x, 1, x, 0);
    }
  }

  /** ~0u >> ((4 - len) << 3), the mask of the low len bytes. */
  function Mask(len: width): word {
    Size(len) - 1
  }

  lemma AndMask(x: word, w: width)
    ensures And(Mask(w), x) == x % Size(w)
  {
    SizeIsPower(w);
    AndOnes(x, SignBit(w) + 1);
  }

  lemma OrOfBits(a: bit, b: bit)
    ensures Or(a, b) == if a == 1 || b == 1 then 1 else 0
  {}

  lemma XorOfBits(a: bit, b: bit)
    ensures Xor(a, b) == if a == b then 0 else 1
  {}

  // ---------- Carries through two additions ----------

  lemma WrapAgain(a: int, c: int)
    ensures Wrap(Wrap(a) + c) == Wrap(a + c)
  {
    var w: int := Wrap(a);
    ModShift(w + c, a / MODULUS, MODULUS);
  }

  /** adc: the carry comes out of the first addition, or out of adding the carry flag to its result. */
  lemma CarryOfTwo(d: word, s: word, c: bit, w: width)
    requires d < Size(w) && s < Size(w)
    ensures Wrap(d + s + c) % Size(w) < CAdd(d, s) || CAdd(d, s) < d <==> d + s + c >= Size(w)
  {
    if w == 4 {
      assert Wrap(d + s + c) % Size(w) == Wrap(d + s + c);
    } else {
      assert CAdd(d, s) == d + s && Wrap(d + s + c) == d + s + c;
    }
  }

  /** sbb: the borrow. */
  lemma BorrowOfTwo(d: word, s: word, c: bit, w: width)
    requires d < Size(w) && s < Size(w)
    ensures CSub(d, s) < Wrap(d - s - c) % Size(w) || d < CSub(d, s) <==> d < s + c
  {
    BorrowIsBelow(d, s);
    if d >= s + c {
      assert Wrap(d - s - c) == d - s - c;
    } else if d == s {
      assert Wrap(d - s - c) == MODULUS - 1 && (MODULUS - 1) % Size(w) == Size(w) - 1;
    }
  }

  // ---------- Overflow ----------

  /** What msb((a ^ b) & (res ^ a)) says about the sign bits. */
  predicate SubOverflowSigns(res: word, a: word, b: word, w: width) {
    Bit(a, SignBit(w)) != Bit(b, SignBit(w)) && Bit(res, SignBit(w)) != Bit(a, SignBit(w))
  }

  /** What msb((res ^ a) & (~a ^ b)) says about the sign bits. */
  predicate AddOverflowSigns(res: word, a: word, b: word, w: width) {
    Bit(a, SignBit(w)) == Bit(b, SignBit(w)) && Bit(res, SignBit(w)) != Bit(a, SignBit(w))
  }

  lemma {:induction false} SubOverflowBits(res: nat, a: nat, b: nat, k: nat)
    ensures Bit(And(Xor(a, b), Xor(res, a)), k) == 1 <==> Bit(a, k) != Bit(b, k) && Bit(res, k) != Bit(a, k)
  {
    var x, y := Xor(a, b), Xor(res, a);
    BitXor(a, b, k);
    BitXor(res, a, k);
    BitAnd(x, y, k);
  }

  lemma {:induction false} AddOverflowBits(res: word, a: word, b: word, k: nat)
    requires k < 32
    ensures Bit(And(Xor(res, a), Xor(Not(a), b)), k) == 1 <==> Bit(a, k) == Bit(b, k) && Bit(res, k) != Bit(a, k)
  {
    var n: nat := Not(a);
    var x, y := Xor(res, a), Xor(n, b);
    BitNot(a, k);
    BitXor(n, b, k);
    BitXor(res, a, k);
    BitAnd(x, y, k);
  }

  /** The tricks tell whether the signed difference and sum leave the range of the width. */
  lemma OverflowFlags(d: word, s: word, w: width)
    requires d < Size(w) && s < Size(w)
    ensures SubOverflowSigns(CSub(d, s), d, s, w) <==> Overflows(SignedAt(d, w) - SignedAt(s, w), w)
    ensures AddOverflowSigns(CAdd(d, s), d, s, w) <==> Overflows(SignedAt(d, w) + SignedAt(s, w), w)
  {
    SignBitIsUpperHalf(d, w);
    SignBitIsUpperHalf(s, w);
    SignBitIsUpperHalf(CSub(d, s), w);
    SignBitIsUpperHalf(CAdd(d, s), w);
    DifferenceOverflows(d, s, w);
    SumOverflows(d, s, w);
  }

  /** The tricks as adc and sbb apply them: to a carry bit in place of the result. */
  lemma OverflowFlagsOfBit(c: word, d: word, s: word, w: width)
    requires c < 2
    ensures SubOverflowSigns(c, d, s, w) <==> Negative(d, w) && !Negative(s, w)
    ensures AddOverflowSigns(c, d, s, w) <==> Negative(d, w) && Negative(s, w)
  {
    SignBitIsUpperHalf(d, w);
    SignBitIsUpperHalf(s, w);
    SignBitIsUpperHalf(c, w);
    SmallRemainder(c, w);
  }

  // ---------- Signed products ----------

  lemma SignedProductBound(a: int, b: int)
    requires -0x8000_0000 <= a < 0x8000_0000 && -0x8000_0000 <= b < 0x8000_0000
    ensures -0x8000_0000 * 0x8000_0000 <= a * b <= 0x8000_0000 * 0x8000_0000
  {
    var m := 0x8000_0000;
    if b >= 0 {
      MulMonotone(-m, a, b);
      MulMonotone(a, m, b);
      MulMonotone(b, m, m);
    } else {
      MulMonotone(-m, a, -b);
      MulMonotone(a, m, -b);
      MulMonotone(-b, m, m);
      assert a * -b == -(a * b);
    }
  }

  lemma SignedParts(p: int)
    requires -0x8000_0000 * 0x8000_0000 <= p <= 0x8000_0000 * 0x8000_0000
    ensures Signed(Wrap(p / MODULUS)) * MODULUS + Wrap(p) == p
  {}

  /** The two halves make up the exact signed product. */
  lemma SignedProductParts(a: word, b: word)
    ensures Signed(CImulHi(a, b)) * MODULUS + CImulLo(a, b) == Signed(a) * Signed(b)
  {
    SignedProductBound(Signed(a), Signed(b));
    SignedParts(Signed(a) * Signed(b));
  }

  // ---------- Halves of words ----------

  lemma ShiftRight16(x: word)
    ensures CShr(x, 16) == x / 65536
  {
    Powers();
  }

  lemma JoinHalves(hi: word, lo: word)
    requires hi < 65536 && lo < 65536
    ensures CShl(hi, 16) == hi * 65536 && Or(lo, hi * 65536) == hi * 65536 + lo
  {
    Powers();
    var high: nat := hi * 65536;
    WrapSmall(high);
    OrOfDisjoint(hi, lo, 16);
    OrCommutes(lo, high);
  }

  lemma WrapSmall(x: int)
    requires 0 <= x < MODULUS
    ensures Wrap(x) == x
  {}

  // ---------- One limb of a sum or difference ----------

  /** `add` (with c = 0) and `adc`: the word stored and the carry flag. */
  function AddWithCarry(d: word, s: word, c: bit): (word, bit) {
    (Wrap(d + s + c), if d + s + c >= MODULUS then 1 else 0)
  }

  /** `sub` (with c = 0) and `sbb`: the word stored and the carry flag. */
  function SubWithBorrow(d: word, s: word, c: bit): (word, bit) {
    (Wrap(d - s - c), if d < s + c then 1 else 0)
  }

  /** Adding or subtracting the operands and then the carry flag stores the limb. */
  lemma LimbWord(d: word, s: word, c: bit)
    ensures CAdd(CAdd(d, s), c) == AddWithCarry(d, s, c).0 && CSub(CSub(d, s), c) == SubWithBorrow(d, s, c).0
  {
    var (difference: int, carry: int) := (d - s, c);
    WrapAgain(d + s, carry);
    WrapAgain(difference, -carry);
  }

  // ---------- Flags as the instructions leave them, and what they mean ----------

  /** sub and cmp. */
  lemma SubFlagsMean(f: Flags, d: word, s: word, w: width)
    requires d < Size(w) && s < Size(w) && ResultFlags(f, CSub(d, s), w)
    requires f.cf == SetRelop(LTU, d, CSub(d, s))
    requires f.of_ == 1 <==> SubOverflowSigns(CSub(d, s), d, s, w)
    ensures ComparisonFlags(f, d, s, w) && (CSub(d, s), f.cf) == SubWithBorrow(d, s, 0)
  {
    BorrowIsBelow(d, s);
    OverflowFlags(d, s, w);
  }

  /** The flags of a sum, but for a carry that is out of 32 bits at every width. */
  predicate SumFlags(f: Flags, d: word, s: word, w: width)
    requires d < Size(w) && s < Size(w)
  {
    && ResultFlags(f, Wrap(d + s), w)
    && (f.cf == 1 <==> d + s >= MODULUS)
    && (f.of_ == 1 <==> Overflows(SignedAt(d, w) + SignedAt(s, w), w))
  }

  lemma AddFlagsMean(f: Flags, d: word, s: word, w: width)
    requires d < Size(w) && s < Size(w) && ResultFlags(f, CAdd(d, s), w)
    requires f.cf == SetRelop(LTU, CAdd(d, s), d)
    requires f.of_ == 1 <==> AddOverflowSigns(CAdd(d, s), d, s, w)
    ensures SumFlags(f, d, s, w) && (CAdd(d, s), f.cf) == AddWithCarry(d, s, 0)
  {
    CarryIsAbove(d, s);
    OverflowFlags(d, s, w);
  }

  /**
   The carry flag add leaves is the carry at the width exactly when the width is full or nothing is carried:
   at 8 bits 255 + 1 carries and the flag stays clear.
   */
  lemma AddCarryFlag(f: Flags, d: word, s: word, w: width)
    requires d < Size(w) && s < Size(w) && SumFlags(f, d, s, w)
    ensures (f.cf == 1 <==> d + s >= Size(w)) <==> (w == 4 || d + s < Size(w))
  {
    assert Size(w) < MODULUS ==> d + s < MODULUS;
  }

  /** The largest number plus one, below full width. */
  lemma CarryMissed(f: Flags, w: width)
    requires w < 4 && SumFlags(f, Size(w) - 1, 1, w)
    ensures f.cf == 0
  {
    AddCarryFlag(f, Size(w) - 1, 1, w);
  }

  /** adc: zero, sign and carry are those of the sum at the width; OF is set when both operands are negative. */
  predicate AdcFlags(f: Flags, d: word, s: word, c: bit, w: width) {
    && ResultFlags(f, Wrap(d + s + c), w)
    && (f.cf == 1 <==> d + s + c >= Size(w))
    && (f.of_ == 1 <==> Negative(d, w) && Negative(s, w))
  }

  lemma ResultFlagsOfRemainder(f: Flags, v: word, w: width)
    requires ResultFlags(f, v % Size(w), w)
    ensures ResultFlags(f, v, w)
  {}

  lemma AdcFlagsMean(f: Flags, d: word, s: word, c: bit, w: width)
    requires d < Size(w) && s < Size(w)
    requires var v := CAdd(CAdd(d, s), c);
             var (first, second) := (SetRelop(LTU, CAdd(d, s), d), SetRelop(LTU, v % Size(w), CAdd(d, s)));
             && ResultFlags(f, v % Size(w), w)
             && f.cf == (if first == 1 || second == 1 then 1 else 0)
             && (f.of_ == 1 <==> AddOverflowSigns(second, d, s, w))
    ensures AdcFlags(f, d, s, c, w)
  {
    LimbWord(d, s, c);
    var v := Wrap(d + s + c);
    ResultFlagsOfRemainder(f, v, w);
    AdcCarry(f, d, s, c, w);
    AdcOverflow(f, d, s, v % Size(w), w);
  }

  lemma AdcCarry(f: Flags, d: word, s: word, c: bit, w: width)
    requires d < Size(w) && s < Size(w)
    requires f.cf == if SetRelop(LTU, CAdd(d, s), d) == 1 || SetRelop(LTU, Wrap(d + s + c) % Size(w), CAdd(d, s)) == 1
                     then 1 else 0
    ensures f.cf == 1 <==> d + s + c >= Size(w)
  {
    CarryOfTwo(d, s, c, w);
  }

  lemma AdcOverflow(f: Flags, d: word, s: word, v: word, w: width)
    requires f.of_ == 1 <==> AddOverflowSigns(SetRelop(LTU, v, CAdd(d, s)), d, s, w)
    ensures f.of_ == 1 <==> Negative(d, w) && Negative(s, w)
  {
    OverflowFlagsOfBit(SetRelop(LTU, v, CAdd(d, s)), d, s, w);
  }

  /** At full width the carry flag is the carry of one limb. */
  lemma AdcIsLimb(f: Flags, d: word, s: word, c: bit)
    requires AdcFlags(f, d, s, c, 4)
    ensures (Wrap(d + s + c), f.cf) == AddWithCarry(d, s, c)
  {}

  /** sbb: zero, sign and borrow are those of the difference; OF is set for a negative minus a non-negative. */
  predicate SbbFlags(f: Flags, d: word, s: word, c: bit, w: width) {
    && ResultFlags(f, Wrap(d - s - c), w)
    && (f.cf == 1 <==> d < s + c)
    && (f.of_ == 1 <==> Negative(d, w) && !Negative(s, w))
  }

  lemma SbbFlagsMean(f: Flags, d: word, s: word, c: bit, w: width)
    requires d < Size(w) && s < Size(w)
    requires var v := CSub(CSub(d, s), c);
             var (first, second) := (SetRelop(LTU, d, CSub(d, s)), SetRelop(LTU, CSub(d, s), v % Size(w)));
             && ResultFlags(f, v % Size(w), w)
             && f.cf == (if first == 1 || second == 1 then 1 else 0)
             && (f.of_ == 1 <==> SubOverflowSigns(second, d, s, w))
    ensures SbbFlags(f, d, s, c, w) && f.cf == SubWithBorrow(d, s, c).1
  {
    LimbWord(d, s, c);
    var v := SubWithBorrow(d, s, c).0;
    ResultFlagsOfRemainder(f, v, w);
    SbbCarry(f, d, s, c, w);
    SbbOverflow(f, d, s, v % Size(w), w);
  }

  lemma SbbCarry(f: Flags, d: word, s: word, c: bit, w: width)
    requires d < Size(w) && s < Size(w)
    requires f.cf == if SetRelop(LTU, d, CSub(d, s)) == 1 || SetRelop(LTU, CSub(d, s), Wrap(d - s - c) % Size(w)) == 1
                     then 1 else 0
    ensures f.cf == 1 <==> d < s + c
  {
    BorrowOfTwo(d, s, c, w);
  }

  lemma SbbOverflow(f: Flags, d: word, s: word, v: word, w: width)
    requires f.of_ == 1 <==> SubOverflowSigns(SetRelop(LTU, CSub(d, s), v), d, s, w)
    ensures f.of_ == 1 <==> Negative(d, w) && !Negative(s, w)
  {
    OverflowFlagsOfBit(SetRelop(LTU, CSub(d, s), v), d, s, w);
  }

  /**
   The overflow flag adc leaves is the signed overflow exactly when the signs differ or the sum at the width is
   not negative.
   */
  lemma AdcOverflowFlag(f: Flags, d: word, s: word, c: bit, w: width)
    requires d < Size(w) && s < Size(w) && AdcFlags(f, d, s, c, w)
    ensures (f.of_ == 1 <==> Overflows(SignedAt(d, w) + SignedAt(s, w) + c, w)) <==>
            (Negative(d, w) != Negative(s, w) || (d + s + c) % Size(w) < Size(w) / 2)
  {
    SmallRemainder(d, w);
    SmallRemainder(s, w);
    NarrowSumWithCarry(d, s, c, w);
    AdcTable(d, s, c, Size(w) / 2);
  }

  /** The largest positive number plus the carry overflows, and adc leaves OF clear. */
  lemma AdcOverflowMissed(f: Flags, w: width)
    requires AdcFlags(f, Size(w) / 2 - 1, 0, 1, w)
    ensures f.of_ == 0 && Overflows(SignedAt(Size(w) / 2 - 1, w) + SignedAt(0, w) + 1, w)
  {
    AdcOverflowFlag(f, Size(w) / 2 - 1, 0, 1, w);
  }

  lemma NarrowSumWithCarry(d: word, s: word, c: bit, w: width)
    requires d < Size(w) && s < Size(w)
    ensures (d + s + c) % Size(w) == if d + s + c < Size(w) then d + s + c else d + s + c - Size(w)
  {}

  lemma AdcTable(d: int, s: int, c: bit, h: int)
    requires 0 <= d < 2 * h && 0 <= s < 2 * h
    ensures var r := if d + s + c < 2 * h then d + s + c else d + s + c - 2 * h;
            ((d >= h && s >= h) == !(-h <= Reading(d, h) + Reading(s, h) + c < h)) <==>
            ((d >= h) != (s >= h) || r < h)
  {}

  /**
   The overflow flag sbb leaves is the signed overflow exactly when the signs agree or the difference at the
   width is not negative.
   */
  lemma SbbOverflowFlag(f: Flags, d: word, s: word, c: bit, w: width)
    requires d < Size(w) && s < Size(w) && SbbFlags(f, d, s, c, w)
    ensures (f.of_ == 1 <==> Overflows(SignedAt(d, w) - SignedAt(s, w) - c, w)) <==>
            (Negative(d, w) == Negative(s, w) || (d as int - s - c) % Size(w) < Size(w) / 2)
  {
    SmallRemainder(d, w);
    SmallRemainder(s, w);
    NarrowDifferenceWithBorrow(d, s, c, w);
    SbbTable(d, s, c, Size(w) / 2);
  }

  /** The smallest number minus nothing fits, and sbb sets OF. */
  lemma SbbOverflowFalse(f: Flags, w: width)
    requires SbbFlags(f, Size(w) / 2, 0, 0, w)
    ensures f.of_ == 1 && !Overflows(SignedAt(Size(w) / 2, w) - SignedAt(0, w) - 0, w)
  {
    SbbOverflowFlag(f, Size(w) / 2, 0, 0, w);
  }

  lemma NarrowDifferenceWithBorrow(d: int, s: int, c: bit, w: width)
    requires 0 <= d < Size(w) && 0 <= s < Size(w)
    ensures (d - s - c) % Size(w) == if d < s + c then d - s - c + Size(w) else d - s - c
  {}

  lemma SbbTable(d: int, s: int, c: bit, h: int)
    requires 0 <= d < 2 * h && 0 <= s < 2 * h
    ensures var r := if d < s + c then d - s - c + 2 * h else d - s - c;
            ((d >= h && s < h) == !(-h <= Reading(d, h) - Reading(s, h) - c < h)) <==>
            ((d >= h) == (s >= h) || r < h)
  {}
}
