/**
 Signed division at 8 and 16 bits: the divisor is not sign-extended, and at 8 bits neither is AX. When the quotient
 and the remainder are the signed ones all the same.
 */
module NarrowDivision {
  import opened Words
  import opened Arithmetic
  import opened X86State
  import opened SignedDivision

  /** Read as signed numbers, AL and AH, or AX and DX, are the truncating quotient and remainder. */
  ghost predicate SignedlyDivided(g: Registers, g': Registers, d: word, w: width)
    requires w < 4 && 0 < d < Size(w)
  {
    var n, b := ReadingWide(ReadWide(g, w), w), SignedAt(d, w);
    && SignedAt(ReadReg(g', EAX, w), w) == Truncated(n, b)
    && SignedAt(ReadReg(g', Remainder(w), w), w) == TruncatedRemainder(n, b)
  }

  /**
   The dividends (in AX or DX:AX, unsigned) and divisors for which that happens: a divisor of the lower half whose
   quotient fits, a divisor of the upper half with a dividend smaller than its negative, and a few coincidences.
   */
  predicate SignsHandled(v: word, d: word, w: width)
    requires w < 4 && v < Size(w) * Size(w) && 0 < d < Size(w)
  {
    var n, h, e: int := ReadingWide(v, w), Size(w) / 2, Size(w) - d;
    if w == 1 && n < 0 then
      if d < h then 256 % d == 0 && -n % d == 0 && -n <= h * d else -n == e * e && e < h
    else if d < h then
      -((h + 1) * d) < n < h * d
    else
      Magnitude(n) < e || (d == h && h * h <= n < h * h + h)
  }

  /** What the instruction stores, as numbers: q and r cut to the width and read as p and t. */
  predicate ReadAs(q: int, r: int, p: int, t: int, w: width)
    requires w < 4
  {
    SignedAt(q % Size(w), w) == p && SignedAt(r % Size(w), w) == t
  }

  lemma CutTwice(x: int, w: width)
    requires w < 4
    ensures Wrap(x) % Size(w) == x % Size(w)
  {
    var y, k := Wrap(x), x / MODULUS;
    if w == 1 {
      ModShift(y, k * 0x100_0000, 256);
    } else {
      ModShift(y, k * 65536, 65536);
    }
  }

  lemma CutQuotient(n: word, d: word, w: width)
    requires w < 4 && 0 < d < Size(w)
    ensures CIdivQ(n, d) % Size(w) == Truncated(Signed(n), d) % Size(w)
    ensures CIdivR(n, d) % Size(w) == TruncatedRemainder(Signed(n), d) % Size(w)
  {
    CutTwice(Truncated(Signed(n), d), w);
    CutTwice(TruncatedRemainder(Signed(n), d), w);
  }

  lemma DivBelowExactly(a: nat, b: int, bound: int)
    requires b > 0
    ensures a / b < bound <==> a < bound * b
  {
    var q := a / b;
    assert a == q * b + a % b;
    if q < bound {
      MulMonotone(q + 1, bound, b);
      MulDistributes(q, 1, b);
    } else {
      MulMonotone(bound, q, b);
    }
  }

  /** A quotient is in the range of the width exactly for these dividends. */
  lemma QuotientInRange(n: int, d: int, h: int)
    requires 0 < d && h > 0
    ensures -h <= Truncated(n, d) < h <==> -((h + 1) * d) < n < h * d
  {
    DivNonnegative(Magnitude(n), d);
    MulMonotone(1, h, d);
    MulMonotone(1, h + 1, d);
    if n >= 0 {
      DivBelowExactly(n, d, h);
    } else {
      DivBelowExactly(-n, d, h + 1);
    }
  }

  lemma ReadAsItself(x: int, w: width)
    requires w < 4
    ensures SignedAt(x % Size(w), w) == x <==> -(Size(w) / 2) <= x < Size(w) / 2
  {}

  /** A divisor of the lower half is read as it is. */
  lemma LowDivisor(n: int, d: int, w: width)
    requires w < 4 && 0 < d < Size(w) / 2
    ensures var (q, r, h) := (Truncated(n, d), TruncatedRemainder(n, d), Size(w) / 2);
            ReadAs(q, r, q, r, w) <==> -((h + 1) * d) < n < h * d
  {
    TruncatedDivision(n, d);
    QuotientInRange(n, d, Size(w) / 2);
    ReadAsItself(Truncated(n, d), w);
    ReadAsItself(TruncatedRemainder(n, d), w);
  }

  lemma DivEquation(n: int, d: int)
    requires d > 0
    ensures n == n / d * d + n % d && 0 <= n % d < d
  {}

  /** A quotient that is read as -p. */
  lemma ReadNegative(q: int, p: int, w: width)
    requires w < 4 && q >= 0 && p > 0 && SignedAt(q % Size(w), w) == -p
    ensures p <= Size(w) / 2 && q >= Size(w) - p
  {}

  lemma ReadPositive(r: int, t: int, w: width)
    requires w < 4 && 0 <= r < Size(w) && 0 <= t && SignedAt(r % Size(w), w) == t
    ensures r == t
  {}

  lemma PositiveQuotient(n: nat, d: int)
    requires 0 < d <= n
    ensures n / d > 0
  {
    if n / d <= 0 {
      DivEquation(n, d);
      MulMonotone(n / d, 0, d);
    }
  }

  lemma NoOtherQuotient(q: int, p: int, d: int, e: int, h: int)
    requires h > 0 && e == 2 * h - d && h <= d < 2 * h && 0 < p <= h && 2 * h - p <= q && q * d == p * e
    ensures d == h && p == h
  {
    MulMonotone(h, q, d);
    MulMonotone(p, h, e);
    if d > h {
      MulMonotone(e, d - 1, h);
    }
    if p < h {
      MulMonotone(p, h - 1, e);
    }
  }

  lemma HighDivisorOnly(n: nat, d: int, w: width)
    requires w < 4 && Size(w) / 2 <= d < Size(w)
    requires var e := Size(w) - d; ReadAs(n / d, n % d, -(n / e), n % e, w) && n >= e
    ensures var h := Size(w) / 2; d == h && h * h <= n < h * h + h
  {
    var e, h := Size(w) - d, Size(w) / 2;
    var q, r, p, t := n / d, n % d, n / e, n % e;
    DivEquation(n, d);
    DivEquation(n, e);
    DivNonnegative(n, d);
    PositiveQuotient(n, e);
    ReadNegative(q, p, w);
    ReadPositive(r, t, w);
    NoOtherQuotient(q, p, d, e, h);
  }

  lemma SmallDividend(n: nat, d: int, w: width)
    requires w < 4 && Size(w) / 2 <= d < Size(w) && n < Size(w) - d
    ensures var e := Size(w) - d; ReadAs(n / d, n % d, -(n / e), n % e, w)
  {
    DivModUnique(n, d, 0, n);
    DivModUnique(n, Size(w) - d, 0, n);
  }

  lemma NearSquare(n: nat, w: width)
    requires w < 4
    requires var h := Size(w) / 2; h * h <= n < h * h + h
    ensures var h := Size(w) / 2; ReadAs(n / h, n % h, -(n / h), n % h, w)
  {
    var h := Size(w) / 2;
    DivModUnique(n, h, h, n - h * h);
    ReadAsItself(n % h, w);
  }

  /** A divisor of the upper half, read as a negative number, and a dividend that is not negative. */
  lemma HighDivisor(n: nat, d: int, w: width)
    requires w < 4 && Size(w) / 2 <= d < Size(w)
    ensures var (e, h) := (Size(w) - d, Size(w) / 2);
            ReadAs(n / d, n % d, -(n / e), n % e, w) <==> n < e || (d == h && h * h <= n < h * h + h)
  {
    var e, h := Size(w) - d, Size(w) / 2;
    if n < e {
      SmallDividend(n, d, w);
    } else if d == h && h * h <= n < h * h + h {
      NearSquare(n, w);
    } else if ReadAs(n / d, n % d, -(n / e), n % e, w) {
      HighDivisorOnly(n, d, w);
    }
  }

  lemma ReadBelow(q: int, p: int)
    requires q >= 0 && p > 0 && SignedAt((-q) % 65536, 2) == p
    ensures p < 32768 && q >= 65536 - p
  {}

  lemma ReadOpposite(r: int, t: int)
    requires 0 <= r < 65536 && 0 <= t <= 32768 && SignedAt((-r) % 65536, 2) == -t
    ensures r == t
  {}

  lemma NegativeByHighOnly(m: nat, d: int)
    requires 32768 <= d < 65536
    requires var e := 65536 - d; ReadAs(-(m / d), -(m % d), m / e, -(m % e), 2)
    ensures m < 65536 - d
  {
    var e := 65536 - d;
    if m >= e {
      var q, r, p, t := m / d, m % d, m / e, m % e;
      DivEquation(m, d);
      DivEquation(m, e);
      DivNonnegative(m, d);
      PositiveQuotient(m, e);
      ReadBelow(q, p);
      ReadOpposite(r, t);
      NoOtherQuotient(q, p, d, e, 32768);
    }
  }

  /** At 16 bits, with a negative dividend -m. */
  lemma NegativeByHigh(m: nat, d: int)
    requires m > 0 && 32768 <= d < 65536
    ensures var e := 65536 - d;
            ReadAs(-(m / d), -(m % d), m / e, -(m % e), 2) <==> m < e
  {
    var e := 65536 - d;
    if m < e {
      DivModUnique(m, d, 0, m);
      DivModUnique(m, e, 0, m);
    } else if ReadAs(-(m / d), -(m % d), m / e, -(m % e), 2) {
      NegativeByHighOnly(m, d);
    }
  }

  // ---------- At 8 bits, AX read as a negative number -m ----------

  lemma CutNegative(q: int, p: int)
    requires q >= 0 && p >= 0 && SignedAt(q % 256, 1) == -p
    ensures (q + p) % 256 == 0 && p <= 128
  {}

  lemma NoRemainders(r: int, t: int, d: int, e: int)
    requires 0 <= r < d && 0 <= t < e && d + e <= 256 && SignedAt(r % 256, 1) == -t
    ensures r == 0 && t == 0
  {}

  lemma ByteByLowOnly(n: nat, m: nat, d: int)
    requires n + m == 65536 && m > 0 && 0 < d < 128 && ReadAs(n / d, n % d, -(m / d), -(m % d), 1)
    ensures 256 % d == 0 && m % d == 0 && m <= 128 * d
  {
    var q, r, p, t := n / d, n % d, m / d, m % d;
    DivEquation(n, d);
    DivEquation(m, d);
    DivNonnegative(n, d);
    DivNonnegative(m, d);
    CutNegative(q, p);
    NoRemainders(r, t, d, d);
    var k := (q + p) / 256;
    MulDistributes(q, p, d);
    assert 256 * (k * d) == 65536;
    DivModUnique(256, d, k, 0);
    MulMonotone(p, 128, d);
  }

  lemma ReadCut(k: int, p: int)
    requires 0 <= p <= 128
    ensures SignedAt((256 * k - p) % 256, 1) == -p
  {}

  lemma Cofactor(n: int, m: int, d: int, k: int, p: int)
    requires d > 0 && n + m == 65536 && k * d == 256 && p * d == m
    ensures n / d == 256 * k - p && n % d == 0
  {
    MulDistributes(256 * k, p, d);
    assert 256 * k * d == 256 * (k * d);
    DivModUnique(n, d, 256 * k - p, 0);
  }

  lemma ByteByLowHandled(n: nat, m: nat, d: int)
    requires n + m == 65536 && 0 < d < 128 && 256 % d == 0 && m % d == 0 && m <= 128 * d
    ensures ReadAs(n / d, n % d, -(m / d), -(m % d), 1)
  {
    DivEquation(256, d);
    DivEquation(m, d);
    DivNonnegative(m, d);
    DivBelow(m, d, 129);
    Cofactor(n, m, d, 256 / d, m / d);
    ReadCut(256 / d, m / d);
  }

  lemma ByteByLow(n: nat, m: nat, d: int)
    requires n + m == 65536 && 0 < m <= 32768 && 0 < d < 128
    ensures ReadAs(n / d, n % d, -(m / d), -(m % d), 1) <==> 256 % d == 0 && m % d == 0 && m <= 128 * d
  {
    if 256 % d == 0 && m % d == 0 && m <= 128 * d {
      ByteByLowHandled(n, m, d);
    } else if ReadAs(n / d, n % d, -(m / d), -(m % d), 1) {
      ByteByLowOnly(n, m, d);
    }
  }

  lemma CutPositive(q: int, p: int)
    requires q >= 0 && p >= 0 && SignedAt(q % 256, 1) == p
    ensures (q - p) % 256 == 0 && p < 128
  {}

  lemma ByteQuotients(q: nat, p: nat, d: int)
    requires 128 <= d < 256 && (q - p) % 256 == 0 && p < 128
    requires q * d + p * (256 - d) == 65536 && q * d < 65536
    ensures p == 256 - d
  {
    var k := (q - p) / 256;
    MulMonotone(128, d, q);
    assert q == p + 256 * k && -1 < k < 2;
    MulDistributes(p, 256 * k, d);
    assert p * (256 - d) == 256 * p - p * d;
  }

  lemma ByteByHighOnly(n: nat, m: nat, d: int)
    requires n + m == 65536 && 0 < m <= 32768 && 128 <= d < 256
    requires var e := 256 - d; ReadAs(n / d, n % d, m / e, -(m % e), 1)
    ensures var e := 256 - d; m == e * e && e < 128
  {
    var e := 256 - d;
    var q, r, p, t := n / d, n % d, m / e, m % e;
    DivEquation(n, d);
    DivEquation(m, e);
    DivNonnegative(n, d);
    DivNonnegative(m, e);
    CutPositive(q, p);
    NoRemainders(r, t, d, e);
    ByteQuotients(q, p, d);
  }

  lemma ByteByHigh(n: nat, m: nat, d: int)
    requires n + m == 65536 && 0 < m <= 32768 && 128 <= d < 256
    ensures var e := 256 - d; ReadAs(n / d, n % d, m / e, -(m % e), 1) <==> m == e * e && e < 128
  {
    var e := 256 - d;
    if m == e * e && e < 128 {
      DivModUnique(m, e, e, 0);
      MulDistributes(256, e, 256 - e);
      assert n == (256 + e) * d;
      DivModUnique(n, d, 256 + e, 0);
    } else if ReadAs(n / d, n % d, m / e, -(m % e), 1) {
      ByteByHighOnly(n, m, d);
    }
  }

  /** Stored results and the condition, as numbers. */
  predicate ReadsRight(v: word, d: word, w: width)
    requires w < 4 && v < Size(w) * Size(w) && 0 < d < Size(w)
  {
    var n, b := ReadingWide(v, w), SignedAt(d, w);
    ReadAs(Truncated(Signed(v), d), TruncatedRemainder(Signed(v), d), Truncated(n, b), TruncatedRemainder(n, b), w)
  }

  lemma ByteDivision(v: word, d: word)
    requires v < 65536 && 0 < d < 256
    ensures ReadsRight(v, d, 1) <==> SignsHandled(v, d, 1)
  {
    if v >= 32768 && d < 128 {
      ByteByLow(v, 65536 - v, d);
    } else if v >= 32768 {
      ByteByHigh(v, 65536 - v, d);
    } else if d < 128 {
      LowDivisor(v, d, 1);
    } else {
      HighDivisor(v, d, 1);
    }
  }

  lemma NegativeHalfByHigh(v: word, d: word, m: nat)
    requires 32768 <= d < 65536 && -Signed(v) == m && m > 0
    ensures ReadsRight(v, d, 2) <==> SignsHandled(v, d, 2)
  {
    NegativeByHigh(m, d);
  }

  lemma HalfByHigh(v: word, d: word)
    requires 32768 <= d < 65536
    ensures ReadsRight(v, d, 2) <==> SignsHandled(v, d, 2)
  {
    var n := Signed(v);
    if n >= 0 {
      HighDivisor(n, d, 2);
    } else {
      NegativeHalfByHigh(v, d, -n);
    }
  }

  lemma HalfDivision(v: word, d: word)
    requires 0 < d < 65536
    ensures ReadsRight(v, d, 2) <==> SignsHandled(v, d, 2)
  {
    if d < 32768 {
      LowDivisor(Signed(v), d, 2);
    } else {
      HalfByHigh(v, d);
    }
  }

  /** The results are the signed ones exactly for these dividends and divisors. */
  lemma NarrowSignedDivision(g: Registers, g': Registers, d: word, w: width)
    requires w < 4 && 0 < d < Size(w) && NarrowlyDivided(g, g', d, w)
    ensures SignedlyDivided(g, g', d, w) <==> SignsHandled(ReadWide(g, w), d, w)
  {
    CutQuotient(ReadWide(g, w), d, w);
    if w == 1 {
      ByteDivision(ReadWide(g, w), d);
    } else {
      HalfDivision(ReadWide(g, w), d);
    }
  }

  /** 1 divided by -1: the quotient comes out as 0 and not as -1. */
  lemma OneByMinusOne(g: Registers, g': Registers, w: width)
    requires w < 4 && ReadWide(g, w) == 1 && NarrowlyDivided(g, g', Size(w) - 1, w)
    ensures SignedAt(ReadReg(g', EAX, w), w) == 0 && !SignedlyDivided(g, g', Size(w) - 1, w)
  {
    DivModUnique(1, Size(w) - 1, 0, 1);
    NarrowSignedDivision(g, g', Size(w) - 1, w);
  }
}
