/** Bitwise operators on unsigned numbers, defined bit by bit, and what the sign bit of their results is. */
module Bits {
  import opened Words
  import opened Arithmetic

  type bit = b: int | 0 <= b <= 1 witness 0

  function Bit(x: nat, k: nat): bit
    decreases k
  {
    if k == 0 then x % 2 else Bit(x / 2, k - 1)
  }

  function Pow2(n: nat): (p: nat)
    ensures p >= 1
  {
    if n == 0 then 1 else 2 * Pow2(n - 1)
  }

  function And(a: nat, b: nat): (c: nat)
    ensures c <= a && c <= b
  {
    if a == 0 || b == 0 then 0 else (if a % 2 == 1 && b % 2 == 1 then 1 else 0) + 2 * And(a / 2, b / 2)
  }

  function Xor(a: nat, b: nat): nat {
    if a == 0 then b else if b == 0 then a else (if a % 2 == b % 2 then 0 else 1) + 2 * Xor(a / 2, b / 2)
  }

  function Or(a: nat, b: nat): nat {
    if a == 0 then b else if b == 0 then a else (if a % 2 == 1 || b % 2 == 1 then 1 else 0) + 2 * Or(a / 2, b / 2)
  }

  /** ~a on words. */
  function Not(a: word): word {
    0xFFFF_FFFF - a
  }

  lemma {:induction false} BitZero(k: nat)
    ensures Bit(0, k) == 0
  {
    if k > 0 {
      BitZero(k - 1);
    }
  }

  lemma {:induction false} BitAnd(a: nat, b: nat, k: nat)
    ensures Bit(And(a, b), k) == 1 <==> Bit(a, k) == 1 && Bit(b, k) == 1
    decreases k
  {
    if a == 0 || b == 0 {
      BitZero(k);
    } else if k > 0 {
      BitAnd(a / 2, b / 2, k - 1);
      assert And(a, b) / 2 == And(a / 2, b / 2);
    }
  }

  lemma {:induction false} BitXor(a: nat, b: nat, k: nat)
    ensures Bit(Xor(a, b), k) == 1 <==> Bit(a, k) != Bit(b, k)
    decreases k
  {
    if a == 0 || b == 0 {
      BitZero(k);
    } else if k > 0 {
      BitXor(a / 2, b / 2, k - 1);
      assert Xor(a, b) / 2 == Xor(a / 2, b / 2);
    }
  }

  lemma {:induction false} XorBound(a: nat, b: nat, n: nat)
    requires a < Pow2(n) && b < Pow2(n)
    ensures Xor(a, b) < Pow2(n)
    decreases n
  {
    if a != 0 && b != 0 {
      XorBound(a / 2, b / 2, n - 1);
    }
  }

  lemma {:induction false} OrBound(a: nat, b: nat, n: nat)
    requires a < Pow2(n) && b < Pow2(n)
    ensures Or(a, b) < Pow2(n)
    decreases n
  {
    if a != 0 && b != 0 {
      OrBound(a / 2, b / 2, n - 1);
    }
  }

  lemma Powers()
    ensures Pow2(3) == 8 && Pow2(7) == 0x80 && Pow2(8) == 0x100
    ensures Pow2(15) == 0x8000 && Pow2(16) == 0x1_0000
    ensures Pow2(31) == 0x8000_0000 && Pow2(32) == 0x1_0000_0000
  {
    assert Pow2(3) == 8;
    assert Pow2(7) == 16 * Pow2(3);
    assert Pow2(11) == 16 * Pow2(7);
    assert Pow2(15) == 16 * Pow2(11);
    assert Pow2(19) == 16 * Pow2(15);
    assert Pow2(23) == 16 * Pow2(19);
    assert Pow2(27) == 16 * Pow2(23);
    assert Pow2(31) == 16 * Pow2(27);
  }

  function WordXor(a: word, b: word): (c: word)
    ensures c == Xor(a, b)
  {
    Powers();
    XorBound(a, b, 32);
    Xor(a, b)
  }

  function WordOr(a: word, b: word): (c: word)
    ensures c == Or(a, b)
  {
    Powers();
    OrBound(a, b, 32);
    Or(a, b)
  }

  /** Bit k is the upper half of the numbers modulo 2^(k+1). */
  lemma {:induction false} BitIsUpperHalf(x: nat, k: nat)
    ensures Bit(x, k) == 1 <==> x % Pow2(k + 1) >= Pow2(k)
  {
    if k > 0 {
      BitIsUpperHalf(x / 2, k - 1);
      HalvedRemainder(x, Pow2(k));
    }
  }

  lemma {:induction false} OrOfDisjoint(hi: nat, lo: nat, n: nat)
    requires lo < Pow2(n)
    ensures Or(hi * Pow2(n), lo) == hi * Pow2(n) + lo
    decreases n
  {
    var a := hi * Pow2(n);
    if n > 0 && hi != 0 && lo != 0 {
      assert a == 2 * (hi * Pow2(n - 1));
      assert a / 2 == hi * Pow2(n - 1) && a % 2 == 0;
      OrOfDisjoint(hi, lo / 2, n - 1);
      assert a > 0;
    }
  }

  lemma {:induction false} OrCommutes(a: nat, b: nat)
    ensures Or(a, b) == Or(b, a)
    decreases a
  {
    if a != 0 && b != 0 {
      OrCommutes(a / 2, b / 2);
    }
  }

  lemma {:induction false} OrOnes(x: nat, n: nat)
    requires x < Pow2(n)
    ensures Or(Pow2(n) - 1, x) == Pow2(n) - 1
    decreases n
  {
    if n > 0 && x != 0 {
      var ones := Pow2(n) - 1;
      assert ones / 2 == Pow2(n - 1) - 1 && ones % 2 == 1;
      OrOnes(x / 2, n - 1);
    }
  }

  /** m one bits above n zero bits. */
  function Ones(m: nat, n: nat): nat
    decreases n
  {
    if n == 0 then Pow2(m) - 1 else 2 * Ones(m, n - 1)
  }

  lemma {:induction false} OnesValue(m: nat, n: nat)
    ensures Ones(m, n) == Pow2(m + n) - Pow2(n)
    decreases n
  {
    if n > 0 {
      OnesValue(m, n - 1);
    }
  }

  /** Setting all bits above the low n keeps the low n. */
  lemma {:induction false} OrHighOnes(x: nat, m: nat, n: nat)
    requires x < Pow2(m + n)
    ensures Or(Ones(m, n), x) == Ones(m, n) + x % Pow2(n)
    decreases n
  {
    if n == 0 {
      OrOnes(x, m);
      DivModUnique(x, 1, x, 0);
    } else if x == 0 {
      DivModUnique(0, Pow2(n), 0, 0);
    } else {
      OrHighOnes(x / 2, m, n - 1);
      HalvedRemainder(x, Pow2(n - 1));
    }
  }
}
