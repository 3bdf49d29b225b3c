/**
 Sign extension and signed division: the 64-bit dividend in EDX:EAX is divided by the sign-read operand and
 quotient and remainder are cut to words. After `cltd` the dividend is the sign-extended EAX.
 */
module SignedDivision {
  import opened Words
  import opened Arithmetic
  import opened Bits
  import opened X86State
  import opened Rtl
  import opened Conditions

  /** The int64_t made of two words. */
  function SignedWide(hi: word, lo: word): int {
    Signed(hi) * MODULUS + lo
  }

  /** The dividends and divisors on which the host's 64-bit division faults. */
  predicate Faults(hi: word, lo: word, d: word) {
    d == 0 || (SignedWide(hi, lo) == -0x8000_0000_0000_0000 && Signed(d) == -1)
  }

  /** `idiv`: EAX and EDX after the instruction. */
  function IdivWide(hi: word, lo: word, d: word): (word, word)
    requires d != 0
  {
    (Wrap(Truncated(SignedWide(hi, lo), Signed(d))), Wrap(TruncatedRemainder(SignedWide(hi, lo), Signed(d))))
  }

  /** The 32-bit signed quotient and remainder, by a divisor that is not negative. */
  function CIdivQ(n: word, d: word): word
    requires 0 < d < 0x8000_0000
  {
    Wrap(Truncated(Signed(n), d))
  }

  function CIdivR(n: word, d: word): word
    requires 0 < d < 0x8000_0000
  {
    Wrap(TruncatedRemainder(Signed(n), d))
  }

  /** `idiv` at 8 and 16 bits: AX is taken as unsigned, DX:AX as signed, and the divisor as unsigned. */
  ghost predicate NarrowlyDivided(g: Registers, g': Registers, d: word, w: width)
    requires w < 4 && 0 < d < Size(w)
  {
    && ReadReg(g', EAX, w) == CIdivQ(ReadWide(g, w), d) % Size(w)
    && ReadReg(g', Remainder(w), w) == CIdivR(ReadWide(g, w), d) % Size(w)
    && SameBut(g, g', w)
  }

  lemma NarrowlyDividedBytes(g: Registers, g': Registers, n: word, d: word)
    requires 0 < d < 256 && n == ReadWide(g, 1)
    requires g' == WriteReg(WriteReg(g, EAX, CIdivQ(n, d), 1), AH, CIdivR(n, d), 1)
    ensures NarrowlyDivided(g, g', d, 1)
  {
    StoredBytes(g, g', CIdivQ(n, d), CIdivR(n, d));
  }

  lemma NarrowlyDividedWords(g: Registers, g': Registers, n: word, d: word)
    requires 0 < d < 65536 && n == ReadWide(g, 2)
    requires g' == WriteReg(WriteReg(g, EAX, CIdivQ(n, d), 2), EDX, CIdivR(n, d), 2)
    ensures NarrowlyDivided(g, g', d, 2)
  {
    StoredHalves(g, g', CIdivQ(n, d), CIdivR(n, d));
  }

  /** EDX after `cltd`. */
  function SignWord(a: word): word {
    if Signed(a) < 0 then MODULUS - 1 else 0
  }

  lemma SignedFits(i: int)
    ensures Signed(Wrap(i)) == i <==> -0x8000_0000 <= i < 0x8000_0000
  {}

  lemma QuotientFits(a: int, b: int)
    requires -0x8000_0000 <= a < 0x8000_0000 && b != 0
    ensures -0x8000_0000 <= Truncated(a, b) <= 0x8000_0000
    ensures Truncated(a, b) == 0x8000_0000 <==> a == -0x8000_0000 && b == -1
  {
    var m: int, n: int := Magnitude(a), Magnitude(b);
    DivNonnegative(m, n);
    if n == 1 {
      DivModUnique(m, 1, m, 0);
    } else {
      MulMonotone(2, n, 0x8000_0000);
      DivBelow(m, n, 0x8000_0000);
    }
  }

  /**
   `cltd` then `idiv` never meets the overflowing dividend, always leaves the remainder of truncating division,
   and leaves its quotient exactly when the operands are not the smallest number and minus one.
   */
  lemma ExtendedDivision(a: word, d: word)
    requires d != 0
    ensures !Faults(SignWord(a), a, d)
    ensures var (q, r) := IdivWide(SignWord(a), a, d);
            && Signed(r) == TruncatedRemainder(Signed(a), Signed(d))
            && (Signed(q) == Truncated(Signed(a), Signed(d)) <==> !(a == 0x8000_0000 && d == MODULUS - 1))
            && (a == 0x8000_0000 && d == MODULUS - 1 ==> q == a)
  {
    var n, m := Signed(a), Signed(d);
    assert SignedWide(SignWord(a), a) == n;
    QuotientFits(n, m);
    TruncatedDivision(n, m);
    SignedFits(Truncated(n, m));
    SignedFits(TruncatedRemainder(n, m));
  }

  // ---------- Sign extension ----------

  lemma OrHighBytes(x: word, w: width)
    ensures Or(MODULUS - Size(w), x) == MODULUS - Size(w) + x % Size(w)
  {
    if w < 4 {
      OrHighBytesNarrow(x, w);
    }
  }

  lemma OrHighBytesNarrow(x: word, w: width)
    requires w < 4
    ensures Or(MODULUS - Size(w), x) == MODULUS - Size(w) + x % Size(w)
  {
    var (m, n) := (32 - 8 * w, 8 * w);
    assert Pow2(n) == Size(w) && Pow2(m + n) == MODULUS by {
      Powers();
    }
    OnesValue(m, n);
    OrHighOnes(x, m, n);
  }

  lemma ExtendedSmall(v: word, w: width)
    requires v < Size(w)
    ensures Extended(v, w, true) == if v >= Size(w) / 2 then MODULUS - Size(w) + v else v
  {}

  /** The two branches of rtl_sext: set all bits above the width, or clear them, depending on the sign bit. */
  lemma Extending(x: word, w: width)
    ensures Extended(x % Size(w), w, true) ==
            if Bit(x, SignBit(w)) == 1 then MODULUS - Size(w) + x % Size(w) else x % Size(w)
  {
    var v, k := x % Size(w), SignBit(w);
    assert Bit(x, k) == 1 <==> v >= Size(w) / 2 by {
      SignBitIsUpperHalf(x, w);
    }
    ExtendedSmall(v, w);
  }

  /** What cltd stores in DX makes DX:AX the sign-extended AX. */
  lemma ExtendedHalf(g: Registers, g': Registers, s: word)
    requires s == Extended(g[EAX] % 65536, 2, true) && g' == WriteReg(g, EDX, s / 65536, 2)
    ensures g'[EAX] == g[EAX] && SameBut(g, g', 2)
    ensures Signed(ReadWide(g', 2)) == SignedAt(ReadReg(g, EAX, 2), 2)
  {
    var a := g[EAX] % 65536;
    ExtendedSmall(a, 2);
    assert s / 65536 == if a >= 32768 then 65535 else 0;
    assert g'[EDX] == SetLow(g[EDX], s / 65536, 65536);
  }

  // ---------- Narrow signed products ----------

  /** The two's-complement reading of a value in AX or DX:AX. */
  function ReadingWide(v: word, w: width): int
    requires w < 4 && v < Size(w) * Size(w)
  {
    if w == 1 then SignedAt(v, 2) else Signed(v)
  }

  /** Operands whose unsigned product is also their signed product at double width. */
  predicate SignsIrrelevant(d: word, a: word, w: width) {
    var half := Size(w) / 2;
    (d < half && a < half) || d == 0 || a == 0 || (d == half && a == half)
  }

  lemma ProductOfSmall(d: int, a: int, h: int)
    requires 0 <= d < h && 0 <= a < h
    ensures d * a < h * h
  {
    MulMonotone(d, h - 1, a);
    MulMonotone(a, h - 1, h - 1);
    MulDistributes(h, 1, h - 1);
  }

  /** The signed product in terms of the unsigned one, x * y being p. */
  lemma SignsCorrect(x: int, y: int, p: int, m: int)
    requires p == x * y
    ensures (x - m) * y == p - m * y && x * (y - m) == p - m * x
    ensures (x - m) * (y - m) == p - m * x - m * y + m * m
  {
    MulDistributes(x, m, y);
    MulDistributes(y, m, x);
    MulDistributes(y, m, x - m);
  }

  /** With an operand of the upper half, at 8 bits. */
  lemma ByteCases(x: int, y: int, p: int, s: int)
    requires 0 <= x < 256 && 0 <= y < 256 && (x >= 128 || y >= 128) && 0 <= p < 65536
    requires (x == 0 || y == 0 ==> p == 0) && (x == 128 && y == 128 ==> p == 16384)
    requires s == p - (if x >= 128 then 256 * y else 0) - (if y >= 128 then 256 * x else 0) +
                  (if x >= 128 && y >= 128 then 65536 else 0)
    ensures s == (if p < 32768 then p else p - 65536) <==> x == 0 || y == 0 || (x == 128 && y == 128)
  {}

  /** And at 16 bits. */
  lemma HalfCases(x: int, y: int, p: int, s: int)
    requires 0 <= x < 65536 && 0 <= y < 65536 && (x >= 32768 || y >= 32768) && 0 <= p < MODULUS
    requires (x == 0 || y == 0 ==> p == 0) && (x == 32768 && y == 32768 ==> p == 0x4000_0000)
    requires s == p - (if x >= 32768 then 65536 * y else 0) - (if y >= 32768 then 65536 * x else 0) +
                  (if x >= 32768 && y >= 32768 then MODULUS else 0)
    ensures s == (if p < 0x8000_0000 then p else p - MODULUS) <==> x == 0 || y == 0 || (x == 32768 && y == 32768)
  {}

  lemma NarrowImul(d: word, a: word, w: width)
    requires w < 4 && d < Size(w) && a < Size(w)
    ensures CImulLo(d, a) == d * a
  {
    ProductBelow(d, a, Size(w));
    WrapSmall(d * a);
  }

  /** imul1 multiplies the zero-extended operands; read as signed the result is right exactly for these. */
  lemma NarrowSignedProduct(d: word, a: word, w: width)
    requires w < 4 && d < Size(w) && a < Size(w)
    ensures 0 <= d * a < Size(w) * Size(w)
    ensures ReadingWide(d * a, w) == SignedAt(d, w) * SignedAt(a, w) <==> SignsIrrelevant(d, a, w)
  {
    var p: int := d * a;
    ProductBelow(d, a, Size(w));
    SignsCorrect(d, a, p, Size(w));
    if d < Size(w) / 2 && a < Size(w) / 2 {
      ProductOfSmall(d, a, Size(w) / 2);
    } else if w == 1 {
      ByteCases(d, a, p, SignedAt(d, w) * SignedAt(a, w));
    } else {
      HalfCases(d, a, p, SignedAt(d, w) * SignedAt(a, w));
    }
  }

  /** -1 times 1: the product comes out as 255, or 65535, and not as -1. */
  lemma MinusOneTimesOne(w: width)
    requires w < 4
    ensures var d: word := Size(w) - 1;
            ReadingWide(d * 1, w) == Size(w) - 1 && SignedAt(d, w) * SignedAt(1, w) == -1
  {}
}
