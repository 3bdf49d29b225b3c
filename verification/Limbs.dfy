/**
 Numbers of any length as 32-bit limbs, least significant first, and what chains of the emulator's arithmetic
 instructions compute on them: `add` then `adc` for sums, `sub` then `sbb` for differences, `mul`/`add`/`adc`
 for a product by a limb, and `div` from the most significant limb down for a quotient by a limb. The one-limb
 functions are what the instructions are proved to compute (Cpu.dfy).
 */
module Limbs {
  import opened Words
  import opened Arithmetic
  import opened Bits
  import opened Rtl

  // ---------- One limb ----------

  lemma ProductFits(a: word, b: word)
    ensures 0 <= a * b < MODULUS * MODULUS && 0 <= a * b / MODULUS < MODULUS
  {
    ProductBelow(a, b, MODULUS);
    DivNonnegative(a * b, MODULUS);
    DivBelow(a * b, MODULUS, MODULUS);
  }

  /** `mul`: EAX and EDX after the instruction. */
  function MulWide(a: word, b: word): (word, word) {
    ProductFits(a, b);
    (Wrap(a * b), a * b / MODULUS)
  }

  /** `div`: EAX and EDX after the instruction. The quotient is cut to 32 bits. */
  function DivWide(hi: word, lo: word, d: word): (word, word)
    requires d > 0
  {
    var n := hi * MODULUS + lo;
    assert n % d < d;
    (Wrap(n / d), n % d)
  }

  // ---------- Many limbs ----------

  function Value(a: seq<word>): nat {
    if a == [] then 0 else a[0] + MODULUS * Value(a[1..])
  }

  function Base(n: nat): (b: nat)
    ensures b >= 1
  {
    if n == 0 then 1 else MODULUS * Base(n - 1)
  }

  lemma {:induction false} ValueBound(a: seq<word>)
    ensures Value(a) < Base(|a|)
  {
    if a != [] {
      ValueBound(a[1..]);
    }
  }

  /** Limb sequences of one length that have the same value are equal. */
  lemma {:induction false} ValueInjective(a: seq<word>, b: seq<word>)
    requires |a| == |b| && Value(a) == Value(b)
    ensures a == b
  {
    if a != [] {
      DivModUnique(Value(a), MODULUS, Value(a[1..]), a[0]);
      DivModUnique(Value(b), MODULUS, Value(b[1..]), b[0]);
      ValueInjective(a[1..], b[1..]);
      assert a == [a[0]] + a[1..] && b == [b[0]] + b[1..];
    }
  }

  /** The chain of additions: limbs stored and final carry. */
  function AddChain(a: seq<word>, b: seq<word>, c: bit): (r: (seq<word>, bit))
    requires |a| == |b|
    ensures |r.0| == |a|
  {
    if a == [] then ([], c)
    else
      var (w, c1) := AddWithCarry(a[0], b[0], c);
      var (ws, cn) := AddChain(a[1..], b[1..], c1);
      ([w] + ws, cn)
  }

  function SubChain(a: seq<word>, b: seq<word>, c: bit): (r: (seq<word>, bit))
    requires |a| == |b|
    ensures |r.0| == |a|
  {
    if a == [] then ([], c)
    else
      var (w, c1) := SubWithBorrow(a[0], b[0], c);
      var (ws, cn) := SubChain(a[1..], b[1..], c1);
      ([w] + ws, cn)
  }

  lemma OneStep(w: int, c: int, rest: int, base: int)
    ensures w + MODULUS * rest + c * (MODULUS * base) == w + MODULUS * (rest + c * base)
  {}

  /** The chain of `add` and `adc` computes the sum; the final carry is what does not fit. */
  lemma {:induction false} AddChainIsSum(a: seq<word>, b: seq<word>, c: bit)
    requires |a| == |b|
    ensures var (r, cn) := AddChain(a, b, c);
            Value(r) + cn * Base(|a|) == Value(a) + Value(b) + c
  {
    if a != [] {
      var (w, c1) := AddWithCarry(a[0], b[0], c);
      assert w + c1 * MODULUS == a[0] + b[0] + c;
      var (ws, cn) := AddChain(a[1..], b[1..], c1);
      AddChainIsSum(a[1..], b[1..], c1);
      assert ([w] + ws)[1..] == ws;
      OneStep(w, cn, Value(ws), Base(|a| - 1));
    }
  }

  lemma BorrowOfLimb(d: word, s: word, c: bit)
    ensures var (w, c1) := SubWithBorrow(d, s, c); w - c1 * MODULUS == d - s - c
  {}

  lemma SubAlgebra(w: int, c1: int, low: int, vs: int, cn: int, base: int, high: int)
    requires w - c1 * MODULUS == low && vs - cn * base == high - c1
    ensures w + MODULUS * vs - cn * (MODULUS * base) == low + MODULUS * high
  {
    OneStep(w, -cn, vs, base);
  }

  /** The chain of `sub` and `sbb` computes the difference, borrowing what is missing. */
  lemma {:induction false} SubChainIsDifference(a: seq<word>, b: seq<word>, c: bit)
    requires |a| == |b|
    ensures var (r, cn) := SubChain(a, b, c);
            Value(r) - cn * Base(|a|) == Value(a) - Value(b) - c
  {
    if a != [] {
      var (w, c1) := SubWithBorrow(a[0], b[0], c);
      BorrowOfLimb(a[0], b[0], c);
      var (ws, cn) := SubChain(a[1..], b[1..], c1);
      SubChainIsDifference(a[1..], b[1..], c1);
      assert ([w] + ws)[1..] == ws;
      SubAlgebra(w, c1, a[0] - b[0] - c, Value(ws), cn, Base(|a| - 1), Value(a[1..]) - Value(b[1..]));
    }
  }

  lemma CarryOut(v: int, c: bit, total: int, base: int)
    requires v + c * base == total && 0 <= v < base
    ensures v == total % base && (c == 1 <==> total >= base)
  {
    DivModUnique(total, base, c, v);
  }

  lemma BorrowOut(v: int, c: bit, total: int, base: int)
    requires v - c * base == total && 0 <= v < base && total < base
    ensures v == total % base && (c == 1 <==> total < 0)
  {
    var owed: int := c;
    DivModUnique(total, base, -owed, v);
  }

  /** The carry of the whole chain says exactly that the sum does not fit; then 2^(32n) is missing from the result. */
  lemma AddChainIsArithmetic(a: seq<word>, b: seq<word>)
    requires |a| == |b|
    ensures AddChain(a, b, 0).1 == 1 <==> Value(a) + Value(b) >= Base(|a|)
    ensures Value(AddChain(a, b, 0).0) == Value(a) + Value(b) - AddChain(a, b, 0).1 * Base(|a|)
  {
    var (sum, carry) := AddChain(a, b, 0);
    AddChainIsSum(a, b, 0);
    ValueBound(sum);
    CarryOut(Value(sum), carry, Value(a) + Value(b), Base(|a|));
  }

  /** The difference modulo 2^(32n), and a borrow exactly when the first number is below the second. */
  lemma SubChainIsArithmetic(a: seq<word>, b: seq<word>)
    requires |a| == |b|
    ensures var (difference, borrow) := SubChain(a, b, 0);
            && Value(difference) == (Value(a) - Value(b)) % Base(|a|)
            && (borrow == 1 <==> Value(a) < Value(b))
  {
    var (difference, borrow) := SubChain(a, b, 0);
    SubChainIsDifference(a, b, 0);
    ValueBound(difference);
    ValueBound(a);
    BorrowOut(Value(difference), borrow, Value(a) - Value(b), Base(|a|));
  }

  /** Subtracting what was added gives the first number back, and borrows exactly if the sum carried. */
  lemma SubUndoesAdd(a: seq<word>, b: seq<word>)
    requires |a| == |b|
    ensures SubChain(AddChain(a, b, 0).0, b, 0) == (a, AddChain(a, b, 0).1)
  {
    var (sum, carry) := AddChain(a, b, 0);
    var (back, borrow) := SubChain(sum, b, 0);
    AddChainIsSum(a, b, 0);
    SubChainIsDifference(sum, b, 0);
    ValueBound(back);
    ValueBound(a);
    SameResidue(Value(back), borrow, Value(a), carry, Base(|a|));
    ValueInjective(back, a);
  }

  lemma SameResidue(x: int, p: int, y: int, q: int, base: int)
    requires 0 <= x < base && 0 <= y < base && x - p * base == y - q * base
    ensures x == y && p == q
  {
    DivModUnique(x - p * base, base, -p, x);
    DivModUnique(y - q * base, base, -q, y);
  }

  // ---------- By one limb ----------

  /** One round of the multiplication chain: `mul` by m, `add` the carry word to EAX, `adc` 0 to EDX. */
  function MulStep(limb: word, m: word, carry: word): (word, word) {
    var (lo, hi) := MulWide(limb, m);
    var (w, c) := AddWithCarry(lo, carry, 0);
    (w, AddWithCarry(hi, 0, c).0)
  }

  /** Least significant limb first: the limbs stored and the final carry word. */
  function MulChain(a: seq<word>, m: word, carry: word): (r: (seq<word>, word))
    ensures |r.0| == |a|
  {
    if a == [] then ([], carry)
    else
      var (w, c1) := MulStep(a[0], m, carry);
      var (ws, cn) := MulChain(a[1..], m, c1);
      ([w] + ws, cn)
  }

  /** The remainder is left in EDX for the next limb; most significant limb first. */
  function DivChain(a: seq<word>, d: word, rem: word): (r: (seq<word>, word))
    requires d > 0
    ensures |r.0| == |a|
  {
    if a == [] then ([], rem)
    else
      var (qs, r1) := DivChain(a[1..], d, rem);
      var (q, r0) := DivWide(r1, a[0], d);
      ([q] + qs, r0)
  }

  /** No carry is lost: the product of two words plus a word fits two words. */
  lemma MulStepIsExact(limb: word, m: word, carry: word)
    ensures var (w, c) := MulStep(limb, m, carry); w + MODULUS * c == limb * m + carry
  {
    var (lo, hi) := MulWide(limb, m);
    var (w, c) := AddWithCarry(lo, carry, 0);
    var p: int := limb * m;
    assert w + MODULUS * c == lo + carry && p == hi * MODULUS + lo;
    ProductRoom(limb, m);
    HighWordRoom(p, lo, hi, carry, w, c);
    HighWordSum(hi, c);
  }

  lemma HighWordSum(hi: word, c: bit)
    requires hi + c < MODULUS
    ensures AddWithCarry(hi, 0, c).0 == hi + c
  {}

  lemma HighWordRoom(p: int, lo: word, hi: word, carry: word, w: word, c: bit)
    requires p == hi * MODULUS + lo && p + carry < MODULUS * MODULUS && w + MODULUS * c == lo + carry
    ensures hi + c < MODULUS && w + MODULUS * (hi + c) == p + carry
  {}

  lemma ProductRoom(a: word, b: word)
    ensures a * b + (MODULUS - 1) < MODULUS * MODULUS
  {
    MulMonotone(a, MODULUS - 1, b);
    MulMonotone(b, MODULUS - 1, MODULUS - 1);
  }

  lemma MulAlgebra(w: int, c1: int, limb: int, m: int, carry: int, vs: int, cn: int, base: int, v: int)
    requires w + MODULUS * c1 == limb * m + carry && vs + cn * base == v * m + c1
    ensures w + MODULUS * vs + cn * (MODULUS * base) == (limb + MODULUS * v) * m + carry
  {
    OneStep(w, cn, vs, base);
    MulDistributes(limb, MODULUS * v, m);
    assert MODULUS * v * m == MODULUS * (v * m);
  }

  lemma ValueOfCons(w: word, ws: seq<word>)
    ensures Value([w] + ws) == w + MODULUS * Value(ws)
  {
    assert ([w] + ws)[1..] == ws;
  }

  /** One round in terms of the whole numbers: va is the number, vr the limbs stored, bn the base above them. */
  lemma MulRound(va: int, vr: int, bn: int, w: int, c1: int, limb: int, m: int, carry: int, vs: int, cn: int,
                 base: int, v: int)
    requires w + MODULUS * c1 == limb * m + carry && vs + cn * base == v * m + c1
    requires va == limb + MODULUS * v && vr == w + MODULUS * vs && bn == MODULUS * base
    ensures vr + cn * bn == va * m + carry
  {
    MulAlgebra(w, c1, limb, m, carry, vs, cn, base, v);
    assert va * m == (limb + MODULUS * v) * m && cn * bn == cn * (MODULUS * base);
  }

  /** The multiplication chain computes the product by a limb. */
  lemma {:induction false} MulChainIsProduct(a: seq<word>, m: word, carry: word)
    ensures var (r, cn) := MulChain(a, m, carry);
            Value(r) + cn * Base(|a|) == Value(a) * m + carry
  {
    if a != [] {
      var (w, c1) := MulStep(a[0], m, carry);
      var (ws, cn) := MulChain(a[1..], m, c1);
      MulStepIsExact(a[0], m, carry);
      MulChainIsProduct(a[1..], m, c1);
      var vs: int, v: int, base: int := Value(ws), Value(a[1..]), Base(|a| - 1);
      ValueOfCons(w, ws);
      MulRound(Value(a), Value([w] + ws), Base(|a|), w, c1, a[0], m, carry, vs, cn, base, v);
    }
  }

  /** A quotient digit is never cut when the upper word is below the divisor. */
  lemma DivStepIsExact(hi: word, lo: word, d: word)
    requires hi < d
    ensures var (q, r) := DivWide(hi, lo, d);
            q * d + r == hi * MODULUS + lo && r < d && q == (hi * MODULUS + lo) / d
  {
    var n := hi * MODULUS + lo;
    MulMonotone(hi, d - 1, MODULUS);
    DivBelow(n, d, MODULUS);
    DivNonnegative(n, d);
    assert n == n / d * d + n % d;
  }

  lemma DivAlgebra(q: int, r0: int, r1: int, limb: int, d: int, vq: int, v: int, rem: int, base: int)
    requires q * d + r0 == r1 * MODULUS + limb && vq * d + r1 == v + rem * base
    ensures (q + MODULUS * vq) * d + r0 == limb + MODULUS * v + rem * (MODULUS * base)
  {
    OneStep(limb, rem, v, base);
    MulDistributes(q, MODULUS * vq, d);
    assert MODULUS * vq * d == MODULUS * (vq * d);
  }

  /** The division chain computes quotient and remainder by a nonzero limb, with no quotient digit cut. */
  lemma {:induction false} DivChainIsQuotient(a: seq<word>, d: word, rem: word)
    requires rem < d
    ensures var (q, r) := DivChain(a, d, rem);
            Value(q) * d + r == Value(a) + rem * Base(|a|) && r < d
  {
    if a != [] {
      var (qs, r1) := DivChain(a[1..], d, rem);
      DivChainIsQuotient(a[1..], d, rem);
      var (q, r0) := DivWide(r1, a[0], d);
      DivStepIsExact(r1, a[0], d);
      assert ([q] + qs)[1..] == qs;
      DivAlgebra(q, r0, r1, a[0], d, Value(qs), Value(a[1..]), rem, Base(|a| - 1));
    }
  }

  /** Quotient and remainder of numbers of any length by a nonzero limb. */
  lemma DivChainIsDivMod(a: seq<word>, d: word)
    requires d > 0
    ensures var (q, r) := DivChain(a, d, 0);
            Value(q) == Value(a) / d && r == Value(a) % d
  {
    var (q, r) := DivChain(a, d, 0);
    DivChainIsQuotient(a, d, 0);
    DivModUnique(Value(a), d, Value(q), r);
  }

  lemma {:induction false} ValueOfAppend(a: seq<word>, top: word)
    ensures Value(a + [top]) == Value(a) + top * Base(|a|)
  {
    if a == [] {
      assert [] + [top] == [top] && [top][1..] == [];
    } else {
      assert (a + [top])[1..] == a[1..] + [top];
      ValueOfAppend(a[1..], top);
      OneStep(a[0], top, Value(a[1..]), Base(|a| - 1));
    }
  }

  /** Dividing a product by the limb it was multiplied with gives the number back without remainder. */
  lemma DivUndoesMul(a: seq<word>, m: word)
    requires m > 0
    ensures var (product, top) := MulChain(a, m, 0);
            DivChain(product + [top], m, 0) == (a + [0], 0)
  {
    var (product, top) := MulChain(a, m, 0);
    MulChainIsProduct(a, m, 0);
    ValueOfAppend(product, top);
    ValueOfAppend(a, 0);
    var (q, r) := DivChain(product + [top], m, 0);
    DivChainIsQuotient(product + [top], m, 0);
    DivModUnique(Value(a) * m, m, Value(a), 0);
    DivModUnique(Value(a) * m, m, Value(q), r);
    ValueInjective(q, a + [0]);
  }
}
