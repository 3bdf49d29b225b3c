/**
 Programs for the emulated processor: numbers of n limbs in memory are added to, subtracted from, multiplied and
 divided in place, one limb per round, by the instructions of Cpu.dfy. What they leave in memory and in the carry
 flag is what the chains of Limbs.dfy compute.
 */
module LimbPrograms {
  import opened Words
  import opened Arithmetic
  import opened Sequences
  import opened X86State
  import opened Rtl
  import opened Limbs
  import opened Stack
  import P = Processor

  const EBX: regindex := 3
  const ECX: regindex := 1

  // ---------- Numbers in memory ----------

  /** The n limbs at an address, least significant first. */
  function LimbsAt(m: seq<byte>, at: nat, n: nat): (a: seq<word>)
    requires at + 4 * n <= |m|
    ensures |a| == n
    decreases n
  {
    if n == 0 then [] else [ReadWord(m, at)] + LimbsAt(m, at + 4, n - 1)
  }

  /** The memories agree outside the addresses from lo up to hi. */
  ghost predicate SameOutside(m: seq<byte>, m': seq<byte>, lo: nat, hi: nat) {
    Agree(m, m', 0, lo) && Agree(m, m', hi, |m|)
  }

  lemma WordUntouched(m: seq<byte>, addr: nat, v: word, other: nat)
    requires addr + 4 <= |m| && other + 4 <= |m| && (addr + 4 <= other || other + 4 <= addr)
    ensures ReadWord(WriteMemory(m, addr, v, 4), other) == ReadWord(m, other)
  {
    assert WriteMemory(m, addr, v, 4)[other..other + 4] == m[other..other + 4];
  }

  lemma {:induction false} LimbsUntouched(m: seq<byte>, addr: nat, v: word, at: nat, n: nat)
    requires addr + 4 <= |m| && at + 4 * n <= |m| && (addr + 4 <= at || at + 4 * n <= addr)
    ensures LimbsAt(WriteMemory(m, addr, v, 4), at, n) == LimbsAt(m, at, n)
    decreases n
  {
    if n > 0 {
      WordUntouched(m, addr, v, at);
      LimbsUntouched(m, addr, v, at + 4, n - 1);
    }
  }

  lemma {:induction false} LimbsOutside(m: seq<byte>, m': seq<byte>, lo: nat, hi: nat, at: nat, n: nat)
    requires lo <= hi <= |m| == |m'| && at + 4 * n <= |m| && SameOutside(m, m', lo, hi)
    requires at + 4 * n <= lo || hi <= at
    ensures LimbsAt(m', at, n) == LimbsAt(m, at, n)
    decreases n
  {
    if n > 0 {
      assert m[at..at + 4] == m'[at..at + 4];
      LimbsOutside(m, m', lo, hi, at + 4, n - 1);
    }
  }

  lemma WriteStaysInside(m: seq<byte>, addr: nat, v: word, lo: nat, hi: nat)
    requires lo <= addr && addr + 4 <= hi <= |m|
    ensures SameOutside(m, WriteMemory(m, addr, v, 4), lo, hi)
  {
    WriteAgrees(m, addr, v, 4, 0, lo);
    WriteAgrees(m, addr, v, 4, hi, |m|);
  }

  lemma OutsideTransitive(m1: seq<byte>, m2: seq<byte>, m3: seq<byte>, lo: nat, hi: nat)
    requires SameOutside(m1, m2, lo, hi) && SameOutside(m2, m3, lo, hi)
    ensures SameOutside(m1, m3, lo, hi)
  {}

  lemma OutsideWidens(m: seq<byte>, m': seq<byte>, lo: nat, hi: nat, lo': nat, hi': nat)
    requires SameOutside(m, m', lo, hi) && lo' <= lo && hi <= hi'
    ensures SameOutside(m, m', lo', hi')
  {}

  // ---------- From the least significant limb up ----------

  datatype Operation = Sum | Difference | Product(factor: word)

  /** Sums and differences carry a bit, products a word. */
  predicate CarryFits(op: Operation, c: word) {
    op.Product? || c < 2
  }

  /** One limb: `add` or `sub` with c = 0, `adc` or `sbb`, or the multiplication round. */
  function OneLimb(op: Operation, d: word, s: word, c: word): (r: (word, word))
    requires CarryFits(op, c)
    ensures CarryFits(op, r.1)
  {
    match op
    case Sum => AddWithCarry(d, s, c)
    case Difference => SubWithBorrow(d, s, c)
    case Product(factor) => MulStep(d, factor, c)
  }

  function Chain(op: Operation, a: seq<word>, b: seq<word>, c: word): (seq<word>, word)
    requires |a| == |b| && CarryFits(op, c)
  {
    match op
    case Sum => AddChain(a, b, c)
    case Difference => SubChain(a, b, c)
    case Product(factor) => MulChain(a, factor, c)
  }

  lemma ChainUnfold(op: Operation, a: seq<word>, b: seq<word>, c: word)
    requires |a| == |b| > 0 && CarryFits(op, c)
    ensures var (w, c1) := OneLimb(op, a[0], b[0], c);
            var (ws, cn) := Chain(op, a[1..], b[1..], c1);
            Chain(op, a, b, c) == ([w] + ws, cn)
  {}

  lemma ChainNext(op: Operation, a: seq<word>, b: seq<word>, c: word, x: word, y: word, ws: seq<word>, cn: word)
    requires |a| == |b| > 0 && CarryFits(op, c) && x == a[0] && y == b[0]
    requires var c1 := OneLimb(op, x, y, c).1; (ws, cn) == Chain(op, a[1..], b[1..], c1)
    ensures Chain(op, a, b, c) == ([OneLimb(op, x, y, c).0] + ws, cn)
  {
    ChainUnfold(op, a, b, c);
  }

  /** The operands do not overlap, or the source is the destination. */
  predicate Separate(at: nat, bt: nat, n: nat) {
    at == bt || at + 4 * n <= bt || bt + 4 * n <= at
  }

  /** The rounds on memory: the n limbs at `at` are changed by those at `bt`. */
  function ChainInMemory(op: Operation, m: seq<byte>, at: nat, bt: nat, n: nat, c: word): (r: (seq<byte>, word))
    requires at + 4 * n <= |m| && bt + 4 * n <= |m| && CarryFits(op, c)
    ensures |r.0| == |m|
    decreases n
  {
    if n == 0 then (m, c)
    else
      var (w, c1) := OneLimb(op, ReadWord(m, at), ReadWord(m, bt), c);
      ChainInMemory(op, WriteMemory(m, at, w, 4), at + 4, bt + 4, n - 1, c1)
  }

  lemma RoundUnfold(op: Operation, m: seq<byte>, at: nat, bt: nat, n: nat, c: word)
    requires n > 0 && at + 4 * n <= |m| && bt + 4 * n <= |m| && CarryFits(op, c)
    ensures var (w, c1) := OneLimb(op, ReadWord(m, at), ReadWord(m, bt), c);
            ChainInMemory(op, m, at, bt, n, c) ==
            ChainInMemory(op, WriteMemory(m, at, w, 4), at + 4, bt + 4, n - 1, c1)
  {}

  lemma LaterSourceUntouched(m: seq<byte>, at: nat, bt: nat, n: nat, v: word)
    requires n > 0 && at + 4 * n <= |m| && bt + 4 * n <= |m| && Separate(at, bt, n)
    ensures LimbsAt(WriteMemory(m, at, v, 4), bt + 4, n - 1) == LimbsAt(m, bt + 4, n - 1)
    ensures Separate(at + 4, bt + 4, n - 1)
  {
    LimbsUntouched(m, at, v, bt + 4, n - 1);
  }

  lemma {:induction false} ChainStaysInside(op: Operation, m: seq<byte>, at: nat, bt: nat, n: nat, c: word)
    requires at + 4 * n <= |m| && bt + 4 * n <= |m| && CarryFits(op, c)
    ensures SameOutside(m, ChainInMemory(op, m, at, bt, n, c).0, at, at + 4 * n)
    decreases n
  {
    if n > 0 {
      var (w, c1) := OneLimb(op, ReadWord(m, at), ReadWord(m, bt), c);
      var m1 := WriteMemory(m, at, w, 4);
      var m' := ChainInMemory(op, m1, at + 4, bt + 4, n - 1, c1).0;
      ChainStaysInside(op, m1, at + 4, bt + 4, n - 1, c1);
      WriteStaysInside(m, at, w, at, at + 4 * n);
      OutsideWidens(m1, m', at + 4, at + 4 * n, at, at + 4 * n);
      OutsideTransitive(m, m1, m', at, at + 4 * n);
    }
  }

  /** The limb below the part that later rounds change. */
  lemma LimbsJoined(m1: seq<byte>, m': seq<byte>, at: nat, n: nat, w: word)
    requires n > 0 && at + 4 * n <= |m1| && SameOutside(m1, m', at + 4, at + 4 * n) && ReadWord(m1, at) == w
    ensures LimbsAt(m', at, n) == [w] + LimbsAt(m', at + 4, n - 1)
  {
    assert m1[at..at + 4] == m'[at..at + 4];
  }

  lemma LimbsUnfold(m: seq<byte>, at: nat, n: nat)
    requires n > 0 && at + 4 * n <= |m|
    ensures LimbsAt(m, at, n)[0] == ReadWord(m, at) && LimbsAt(m, at, n)[1..] == LimbsAt(m, at + 4, n - 1)
  {}

  lemma LaterLimbs(m: seq<byte>, at: nat, bt: nat, n: nat, w: word, a: seq<word>, b: seq<word>)
    requires n > 0 && at + 4 * n <= |m| && bt + 4 * n <= |m| && Separate(at, bt, n)
    requires a == LimbsAt(m, at, n) && b == LimbsAt(m, bt, n)
    ensures var m1 := WriteMemory(m, at, w, 4);
            LimbsAt(m1, at + 4, n - 1) == a[1..] && LimbsAt(m1, bt + 4, n - 1) == b[1..]
    ensures Separate(at + 4, bt + 4, n - 1)
  {
    LimbsUnfold(m, at, n);
    LimbsUnfold(m, bt, n);
    LimbsUntouched(m, at, w, at + 4, n - 1);
    LaterSourceUntouched(m, at, bt, n, w);
  }

  lemma FirstOfChain(op: Operation, m: seq<byte>, m1: seq<byte>, at: nat, bt: nat, n: nat, w: word, c1: word)
    requires n > 0 && at + 4 * n <= |m| && bt + 4 * n <= |m|
    requires m1 == WriteMemory(m, at, w, 4) && CarryFits(op, c1)
    ensures var m' := ChainInMemory(op, m1, at + 4, bt + 4, n - 1, c1).0;
            LimbsAt(m', at, n) == [w] + LimbsAt(m', at + 4, n - 1)
  {
    WordReadsBack(m, at, w);
    ChainStaysInside(op, m1, at + 4, bt + 4, n - 1, c1);
    LimbsJoined(m1, ChainInMemory(op, m1, at + 4, bt + 4, n - 1, c1).0, at, n, w);
  }

  /** The rounds leave the limbs and the carry of the chain. */
  lemma {:induction false} ChainInMemoryIs(
      op: Operation, m: seq<byte>, at: nat, bt: nat, n: nat, c: word, a: seq<word>, b: seq<word>)
    requires at + 4 * n <= |m| && bt + 4 * n <= |m| && Separate(at, bt, n) && CarryFits(op, c)
    requires a == LimbsAt(m, at, n) && b == LimbsAt(m, bt, n)
    ensures var (m', cn) := ChainInMemory(op, m, at, bt, n, c);
            (LimbsAt(m', at, n), cn) == Chain(op, a, b, c)
    decreases n
  {
    if n > 0 {
      var (w, c1) := OneLimb(op, ReadWord(m, at), ReadWord(m, bt), c);
      var m1 := WriteMemory(m, at, w, 4);
      RoundUnfold(op, m, at, bt, n, c);
      LaterLimbs(m, at, bt, n, w, a, b);
      var (m', cn) := ChainInMemory(op, m1, at + 4, bt + 4, n - 1, c1);
      ChainInMemoryIs(op, m1, at + 4, bt + 4, n - 1, c1, a[1..], b[1..]);
      FirstOfChain(op, m, m1, at, bt, n, w, c1);
      LimbsUnfold(m, at, n);
      LimbsUnfold(m, bt, n);
      ChainNext(op, a, b, c, ReadWord(m, at), ReadWord(m, bt), LimbsAt(m', at + 4, n - 1), cn);
    }
  }

  /** One round: the limb at x is changed by the limb at y; n rounds are left. */
  method ChainRound(cpu: P.Cpu, op: Operation, x: word, y: word, first: bool, ghost n: nat)
    requires n > 0 && x + 4 * n <= cpu.pmem.Length && y + 4 * n <= cpu.pmem.Length && !op.Product?
    modifies cpu, cpu.pmem
    ensures ChainInMemory(op, old(cpu.pmem[..]), x, y, n, if first then 0 else old(cpu.flags.cf)) ==
            ChainInMemory(op, cpu.pmem[..], x + 4, y + 4, n - 1, cpu.flags.cf)
    ensures cpu.gpr == old(cpu.gpr)
  {
    RoundUnfold(op, cpu.pmem[..], x, y, n, if first then 0 else cpu.flags.cf);
    var ok;
    ok, cpu.dest := cpu.Load(MemOperand(x, 4, 0));
    ok, cpu.src := cpu.Load(MemOperand(y, 4, 0));
    if op.Sum? {
      if first {
        cpu.Add();
      } else {
        cpu.Adc();
      }
    } else {
      if first {
        cpu.Sub();
      } else {
        cpu.Sbb();
      }
    }
  }

  method RunRounds(cpu: P.Cpu, op: Operation, x: nat, y: nat, first: bool, n: nat)
    requires x + 4 * n <= cpu.pmem.Length <= MODULUS && y + 4 * n <= cpu.pmem.Length
    requires !op.Product? && (first ==> n > 0)
    modifies cpu, cpu.pmem
    ensures (cpu.pmem[..], cpu.flags.cf) ==
            ChainInMemory(op, old(cpu.pmem[..]), x, y, n, if first then 0 else old(cpu.flags.cf))
    ensures cpu.gpr == old(cpu.gpr)
    decreases n
  {
    if n > 0 {
      ChainRound(cpu, op, x, y, first, n);
      RunRounds(cpu, op, x + 4, y + 4, false, n - 1);
    }
  }

  /**
   The number at `bt` is added to or subtracted from the number at `at`, by add and adc or by sub and sbb: the
   limbs are those of the chain, and the carry flag is its last carry.
   */
  method RunChain(cpu: P.Cpu, op: Operation, at: word, bt: word, n: nat)
    requires n > 0 && at + 4 * n <= cpu.pmem.Length <= MODULUS && bt + 4 * n <= cpu.pmem.Length
    requires Separate(at, bt, n) && !op.Product?
    modifies cpu, cpu.pmem
    ensures (LimbsAt(cpu.pmem[..], at, n), cpu.flags.cf) ==
            Chain(op, LimbsAt(old(cpu.pmem[..]), at, n), LimbsAt(old(cpu.pmem[..]), bt, n), 0)
    ensures SameOutside(old(cpu.pmem[..]), cpu.pmem[..], at, at + 4 * n) && cpu.gpr == old(cpu.gpr)
  {
    ghost var m := cpu.pmem[..];
    ChainInMemoryIs(op, m, at, bt, n, 0, LimbsAt(m, at, n), LimbsAt(m, bt, n));
    ChainStaysInside(op, m, at, bt, n, 0);
    RunRounds(cpu, op, at, bt, true, n);
  }

  /** The sum of two numbers in memory, modulo 2^(32n), with the carry flag telling whether it did not fit. */
  method AddNumbers(cpu: P.Cpu, at: word, bt: word, n: nat)
    requires n > 0 && at + 4 * n <= cpu.pmem.Length <= MODULUS && bt + 4 * n <= cpu.pmem.Length
    requires Separate(at, bt, n)
    modifies cpu, cpu.pmem
    ensures var (a, b) := (Value(LimbsAt(old(cpu.pmem[..]), at, n)), Value(LimbsAt(old(cpu.pmem[..]), bt, n)));
            && Value(LimbsAt(cpu.pmem[..], at, n)) == a + b - cpu.flags.cf * Base(n)
            && (cpu.flags.cf == 1 <==> a + b >= Base(n))
  {
    AddChainIsArithmetic(LimbsAt(cpu.pmem[..], at, n), LimbsAt(cpu.pmem[..], bt, n));
    RunChain(cpu, Sum, at, bt, n);
  }

  /** The difference, with the carry flag telling whether the first number was smaller. */
  method SubtractNumbers(cpu: P.Cpu, at: word, bt: word, n: nat)
    requires n > 0 && at + 4 * n <= cpu.pmem.Length <= MODULUS && bt + 4 * n <= cpu.pmem.Length
    requires Separate(at, bt, n)
    modifies cpu, cpu.pmem
    ensures var (a, b) := (Value(LimbsAt(old(cpu.pmem[..]), at, n)), Value(LimbsAt(old(cpu.pmem[..]), bt, n)));
            && Value(LimbsAt(cpu.pmem[..], at, n)) == (a - b) % Base(n)
            && (cpu.flags.cf == 1 <==> a < b)
  {
    SubChainIsArithmetic(LimbsAt(cpu.pmem[..], at, n), LimbsAt(cpu.pmem[..], bt, n));
    RunChain(cpu, Difference, at, bt, n);
  }

  lemma SumUndone(m: seq<byte>, m1: seq<byte>, m2: seq<byte>, at: nat, bt: nat, n: nat, carry: word, borrow: word)
    requires at + 4 * n <= |m| == |m1| == |m2| && bt + 4 * n <= |m| && (at + 4 * n <= bt || bt + 4 * n <= at)
    requires SameOutside(m, m1, at, at + 4 * n) && SameOutside(m1, m2, at, at + 4 * n)
    requires (LimbsAt(m1, at, n), carry) == Chain(Sum, LimbsAt(m, at, n), LimbsAt(m, bt, n), 0)
    requires (LimbsAt(m2, at, n), borrow) == Chain(Difference, LimbsAt(m1, at, n), LimbsAt(m1, bt, n), 0)
    ensures LimbsAt(m2, at, n) == LimbsAt(m, at, n) && borrow == carry && SameOutside(m, m2, at, at + 4 * n)
    ensures carry == 1 <==> Value(LimbsAt(m, at, n)) + Value(LimbsAt(m, bt, n)) >= Base(n)
  {
    LimbsOutside(m, m1, at, at + 4 * n, bt, n);
    AddChainIsArithmetic(LimbsAt(m, at, n), LimbsAt(m, bt, n));
    SubUndoesAdd(LimbsAt(m, at, n), LimbsAt(m, bt, n));
    OutsideTransitive(m, m1, m2, at, at + 4 * n);
  }

  /** Subtracting what was added gives the memory back, and the borrow is the carry of the sum. */
  method AddThenSubtract(cpu: P.Cpu, at: word, bt: word, n: nat) returns (carry: word)
    requires n > 0 && at + 4 * n <= cpu.pmem.Length <= MODULUS && bt + 4 * n <= cpu.pmem.Length
    requires at + 4 * n <= bt || bt + 4 * n <= at
    modifies cpu, cpu.pmem
    ensures LimbsAt(cpu.pmem[..], at, n) == LimbsAt(old(cpu.pmem[..]), at, n)
    ensures SameOutside(old(cpu.pmem[..]), cpu.pmem[..], at, at + 4 * n) && cpu.flags.cf == carry
    ensures var (a, b) := (Value(LimbsAt(old(cpu.pmem[..]), at, n)), Value(LimbsAt(old(cpu.pmem[..]), bt, n)));
            carry == 1 <==> a + b >= Base(n)
  {
    ghost var m := cpu.pmem[..];
    RunChain(cpu, Sum, at, bt, n);
    carry := cpu.flags.cf;
    ghost var m1 := cpu.pmem[..];
    RunChain(cpu, Difference, at, bt, n);
    SumUndone(m, m1, cpu.pmem[..], at, bt, n, carry, cpu.flags.cf);
  }

  // ---------- Products ----------

  /** EAX takes a word, or a word is stored. */
  method Move(cpu: P.Cpu, to: Operand, v: word)
    requires Storable(to, cpu.pmem.Length)
    modifies cpu, cpu.pmem
    ensures cpu.gpr == StoreRegs(to, old(cpu.gpr), v) && cpu.pmem[..] == StoreMemory(to, old(cpu.pmem[..]), v)
  {
    cpu.dest, cpu.src := to, ImmOperand(to.width, v);
    var ok := cpu.Mov();
  }

  function Register(r: regindex, g: Registers): Operand {
    RegOperand(r, 4, g[r])
  }

  /** mul by EBX, add ECX to EAX, adc 0 to EDX. */
  method Multiply(cpu: P.Cpu, limb: Operand)
    requires limb.width == 4
    modifies cpu, cpu.pmem
    ensures var (w, c) := MulStep(limb.val, old(cpu.gpr)[EBX], old(cpu.gpr)[ECX]);
            cpu.gpr == old(cpu.gpr)[EAX := w][EDX := c]
    ensures cpu.pmem[..] == old(cpu.pmem[..])
  {
    Move(cpu, RegOperand(EAX, 4, 0), cpu.gpr[EBX]);
    cpu.dest := limb;
    cpu.Mul();
    cpu.dest, cpu.src := Register(EAX, cpu.gpr), Register(ECX, cpu.gpr);
    cpu.Add();
    cpu.dest, cpu.src := Register(EDX, cpu.gpr), ImmOperand(4, 0);
    cpu.Adc();
  }

  /** One round: the limb at x is multiplied by EBX and ECX is added; the upper word goes to ECX. */
  method MultiplyRound(cpu: P.Cpu, x: word)
    requires x + 4 <= cpu.pmem.Length
    modifies cpu, cpu.pmem
    ensures var (w, c) := MulStep(ReadWord(old(cpu.pmem[..]), x), old(cpu.gpr)[EBX], old(cpu.gpr)[ECX]);
            && cpu.pmem[..] == WriteMemory(old(cpu.pmem[..]), x, w, 4)
            && cpu.gpr[EBX] == old(cpu.gpr)[EBX] && cpu.gpr[ECX] == c
  {
    var ok, limb := cpu.Load(MemOperand(x, 4, 0));
    Multiply(cpu, limb);
    Move(cpu, MemOperand(x, 4, 0), cpu.gpr[EAX]);
    Move(cpu, RegOperand(ECX, 4, 0), cpu.gpr[EDX]);
  }

  method MultiplyRounds(cpu: P.Cpu, x: nat, n: nat)
    requires x + 4 * n <= cpu.pmem.Length <= MODULUS
    modifies cpu, cpu.pmem
    ensures (cpu.pmem[..], cpu.gpr[ECX]) ==
            ChainInMemory(Product(old(cpu.gpr)[EBX]), old(cpu.pmem[..]), x, x, n, old(cpu.gpr)[ECX])
    ensures cpu.gpr[EBX] == old(cpu.gpr)[EBX]
    decreases n
  {
    if n > 0 {
      RoundUnfold(Product(cpu.gpr[EBX]), cpu.pmem[..], x, x, n, cpu.gpr[ECX]);
      MultiplyRound(cpu, x);
      MultiplyRounds(cpu, x + 4, n - 1);
    }
  }

  /** A number in memory times EBX plus ECX: the limbs stay in memory, the word above them is left in ECX. */
  method MultiplyNumber(cpu: P.Cpu, at: word, n: nat)
    requires at + 4 * n <= cpu.pmem.Length <= MODULUS
    modifies cpu, cpu.pmem
    ensures Value(LimbsAt(cpu.pmem[..], at, n)) + cpu.gpr[ECX] * Base(n) ==
            Value(LimbsAt(old(cpu.pmem[..]), at, n)) * old(cpu.gpr)[EBX] + old(cpu.gpr)[ECX]
    ensures SameOutside(old(cpu.pmem[..]), cpu.pmem[..], at, at + 4 * n) && cpu.gpr[EBX] == old(cpu.gpr)[EBX]
  {
    ghost var (op, m, c) := (Product(cpu.gpr[EBX]), cpu.pmem[..], cpu.gpr[ECX]);
    ChainInMemoryIs(op, m, at, at, n, c, LimbsAt(m, at, n), LimbsAt(m, at, n));
    ChainStaysInside(op, m, at, at, n, c);
    MulChainIsProduct(LimbsAt(m, at, n), op.factor, c);
    MultiplyRounds(cpu, at, n);
  }

  // ---------- From the most significant limb down: quotients ----------

  /** The rounds on memory: each limb is replaced by a quotient, the remainder goes to the next lower one. */
  function DivideInMemory(m: seq<byte>, at: nat, n: nat, d: word, rem: word): (r: (seq<byte>, word))
    requires at + 4 * n <= |m| && d > 0
    ensures |r.0| == |m|
    decreases n
  {
    if n == 0 then (m, rem)
    else
      var x := at + 4 * (n - 1);
      var (q, r) := DivWide(rem, ReadWord(m, x), d);
      DivideInMemory(WriteMemory(m, x, q, 4), at, n - 1, d, r)
  }

  lemma {:induction false} DivideStaysInside(m: seq<byte>, at: nat, n: nat, d: word, rem: word)
    requires at + 4 * n <= |m| && d > 0
    ensures SameOutside(m, DivideInMemory(m, at, n, d, rem).0, at, at + 4 * n)
    decreases n
  {
    if n > 0 {
      var x := at + 4 * (n - 1);
      var (q, r) := DivWide(rem, ReadWord(m, x), d);
      var m1 := WriteMemory(m, x, q, 4);
      var m' := DivideInMemory(m1, at, n - 1, d, r).0;
      DivideStaysInside(m1, at, n - 1, d, r);
      WriteStaysInside(m, x, q, at, at + 4 * n);
      OutsideWidens(m1, m', at, x, at, at + 4 * n);
      OutsideTransitive(m, m1, m', at, at + 4 * n);
    }
  }

  /** The last limb. */
  lemma {:induction false} LimbsSplit(m: seq<byte>, at: nat, n: nat)
    requires n > 0 && at + 4 * n <= |m|
    ensures LimbsAt(m, at, n) == LimbsAt(m, at, n - 1) + [ReadWord(m, at + 4 * (n - 1))]
    decreases n
  {
    if n > 1 {
      LimbsSplit(m, at + 4, n - 1);
    }
  }

  lemma DivChainUnfold(x: word, a: seq<word>, d: word, rem: word)
    requires d > 0
    ensures var (qs, r1) := DivChain(a, d, rem);
            var (q, r0) := DivWide(r1, x, d);
            DivChain([x] + a, d, rem) == ([q] + qs, r0)
  {
    assert ([x] + a)[1..] == a;
  }

  /** The most significant limb is divided first. */
  lemma {:induction false} DivChainSplit(a: seq<word>, top: word, d: word, rem: word)
    requires d > 0
    ensures var (q, r) := DivWide(rem, top, d);
            var (qs, r0) := DivChain(a, d, r);
            DivChain(a + [top], d, rem) == (qs + [q], r0)
  {
    var (q, r) := DivWide(rem, top, d);
    if a == [] {
      DivChainUnfold(top, [], d, rem);
      assert [top] + [] == a + [top] && [q] + [] == [] + [q];
    } else {
      var x, b := a[0], a[1..];
      assert a == [x] + b;
      DivChainUnfold(x, b, d, r);
      DivChainSplit(b, top, d, rem);
      DivChainUnfold(x, b + [top], d, rem);
      Associative([x], b, [top]);
      var (qs, r1) := DivChain(b, d, r);
      Associative([DivWide(r1, x, d).0], qs, [q]);
    }
  }

  lemma {:induction false} DivideInMemoryIs(m: seq<byte>, at: nat, n: nat, d: word, rem: word)
    requires at + 4 * n <= |m| && d > 0
    ensures var (m', r') := DivideInMemory(m, at, n, d, rem);
            (LimbsAt(m', at, n), r') == DivChain(LimbsAt(m, at, n), d, rem)
    decreases n, 1
  {
    if n > 0 {
      var x := at + 4 * (n - 1);
      var (q, r) := DivWide(rem, ReadWord(m, x), d);
      var m1 := WriteMemory(m, x, q, 4);
      LowerQuotients(m, m1, at, n, d, q, r);
      TopQuotient(m, m1, at, n, d, q, r);
      LimbsSplit(m, at, n);
      DivChainSplit(LimbsAt(m, at, n - 1), ReadWord(m, x), d, rem);
    }
  }

  lemma {:induction false} LowerQuotients(m: seq<byte>, m1: seq<byte>, at: nat, n: nat, d: word, q: word, r: word)
    requires n > 0 && at + 4 * n <= |m| && d > 0 && m1 == WriteMemory(m, at + 4 * (n - 1), q, 4)
    ensures var (m', r') := DivideInMemory(m1, at, n - 1, d, r);
            (LimbsAt(m', at, n - 1), r') == DivChain(LimbsAt(m, at, n - 1), d, r)
    decreases n, 0
  {
    LimbsUntouched(m, at + 4 * (n - 1), q, at, n - 1);
    DivideInMemoryIs(m1, at, n - 1, d, r);
  }

  lemma TopQuotient(m: seq<byte>, m1: seq<byte>, at: nat, n: nat, d: word, q: word, r: word)
    requires n > 0 && at + 4 * n <= |m| && d > 0 && m1 == WriteMemory(m, at + 4 * (n - 1), q, 4)
    ensures var m' := DivideInMemory(m1, at, n - 1, d, r).0;
            LimbsAt(m', at, n) == LimbsAt(m', at, n - 1) + [q]
  {
    var x, m' := at + 4 * (n - 1), DivideInMemory(m1, at, n - 1, d, r).0;
    WordReadsBack(m, x, q);
    DivideStaysInside(m1, at, n - 1, d, r);
    assert m1[x..x + 4] == m'[x..x + 4];
    LimbsSplit(m', at, n);
  }

  /** One round: EDX and the limb at x are divided by EBX; the remainder is left in EDX. */
  method DivideRound(cpu: P.Cpu, x: word)
    requires x + 4 <= cpu.pmem.Length && cpu.gpr[EBX] != 0
    modifies cpu, cpu.pmem
    ensures var (q, r) := DivWide(old(cpu.gpr)[EDX], ReadWord(old(cpu.pmem[..]), x), old(cpu.gpr)[EBX]);
            && cpu.pmem[..] == WriteMemory(old(cpu.pmem[..]), x, q, 4)
            && cpu.gpr[EBX] == old(cpu.gpr)[EBX] && cpu.gpr[EDX] == r
  {
    var ok, limb := cpu.Load(MemOperand(x, 4, 0));
    Move(cpu, RegOperand(EAX, 4, 0), limb.val);
    cpu.dest := Register(EBX, cpu.gpr);
    ok := cpu.Div();
    Move(cpu, MemOperand(x, 4, 0), cpu.gpr[EAX]);
  }

  method DivideRounds(cpu: P.Cpu, at: nat, n: nat)
    requires at + 4 * n <= cpu.pmem.Length <= MODULUS && cpu.gpr[EBX] != 0
    modifies cpu, cpu.pmem
    ensures (cpu.pmem[..], cpu.gpr[EDX]) ==
            DivideInMemory(old(cpu.pmem[..]), at, n, old(cpu.gpr)[EBX], old(cpu.gpr)[EDX])
    decreases n
  {
    if n > 0 {
      DivideRound(cpu, at + 4 * (n - 1));
      DivideRounds(cpu, at, n - 1);
    }
  }

  /** A number in memory divided by EBX: the quotient stays in memory, the remainder is left in EDX. */
  method DivideNumber(cpu: P.Cpu, at: word, n: nat)
    requires at + 4 * n <= cpu.pmem.Length <= MODULUS && cpu.gpr[EBX] != 0 && cpu.gpr[EDX] == 0
    modifies cpu, cpu.pmem
    ensures var (a, d) := (Value(LimbsAt(old(cpu.pmem[..]), at, n)), old(cpu.gpr)[EBX]);
            Value(LimbsAt(cpu.pmem[..], at, n)) == a / d && cpu.gpr[EDX] == a % d
    ensures SameOutside(old(cpu.pmem[..]), cpu.pmem[..], at, at + 4 * n)
  {
    ghost var (m, d) := (cpu.pmem[..], cpu.gpr[EBX]);
    DivideInMemoryIs(m, at, n, d, 0);
    DivideStaysInside(m, at, n, d, 0);
    DivChainIsDivMod(LimbsAt(m, at, n), d);
    DivideRounds(cpu, at, n);
  }

  /** A product and the limb written above it are read as one number. */
  lemma ProductAbove(m: seq<byte>, at: nat, n: nat, top: word)
    requires at + 4 * n + 4 <= |m|
    ensures Value(LimbsAt(WriteMemory(m, at + 4 * n, top, 4), at, n + 1)) == Value(LimbsAt(m, at, n)) + top * Base(n)
  {
    var m' := WriteMemory(m, at + 4 * n, top, 4);
    LimbsUntouched(m, at + 4 * n, top, at, n);
    WordReadsBack(m, at + 4 * n, top);
    LimbsSplit(m', at, n + 1);
    ValueOfAppend(LimbsAt(m, at, n), top);
  }

  lemma QuotientLimbs(m: seq<byte>, at: nat, n: nat, a: seq<word>)
    requires at + 4 * n + 4 <= |m| && |a| == n && Value(LimbsAt(m, at, n + 1)) == Value(a)
    ensures LimbsAt(m, at, n) == a && ReadWord(m, at + 4 * n) == 0
  {
    ValueOfAppend(a, 0);
    ValueInjective(LimbsAt(m, at, n + 1), a + [0]);
    LimbsSplit(m, at, n + 1);
    var b := LimbsAt(m, at, n);
    assert (b + [ReadWord(m, at + 4 * n)])[..n] == b && (a + [0])[..n] == a;
  }

  /** The whole product: the word left in ECX is stored above the limbs. */
  method MultiplyWide(cpu: P.Cpu, at: word, n: nat)
    requires at + 4 * n + 4 <= cpu.pmem.Length <= MODULUS && cpu.gpr[ECX] == 0
    modifies cpu, cpu.pmem
    ensures Value(LimbsAt(cpu.pmem[..], at, n + 1)) == Value(LimbsAt(old(cpu.pmem[..]), at, n)) * old(cpu.gpr)[EBX]
    ensures cpu.gpr[EBX] == old(cpu.gpr)[EBX]
  {
    MultiplyNumber(cpu, at, n);
    ProductAbove(cpu.pmem[..], at, n, cpu.gpr[ECX]);
    Move(cpu, MemOperand(at + 4 * n, 4, 0), cpu.gpr[ECX]);
  }

  /** Multiplied by EBX and divided by it again, a number is what it was, with remainder 0. */
  method MultiplyThenDivide(cpu: P.Cpu, at: word, n: nat)
    requires at + 4 * n + 4 <= cpu.pmem.Length <= MODULUS && cpu.gpr[EBX] != 0 && cpu.gpr[ECX] == 0
    modifies cpu, cpu.pmem
    ensures LimbsAt(cpu.pmem[..], at, n) == LimbsAt(old(cpu.pmem[..]), at, n)
    ensures ReadWord(cpu.pmem[..], at + 4 * n) == 0 && cpu.gpr[EDX] == 0
  {
    ghost var (a, d) := (LimbsAt(cpu.pmem[..], at, n), cpu.gpr[EBX]);
    MultiplyWide(cpu, at, n);
    Move(cpu, RegOperand(EDX, 4, 0), 0);
    DivModUnique(Value(a) * d, d, Value(a), 0);
    DivideNumber(cpu, at, n + 1);
    QuotientLimbs(cpu.pmem[..], at, n, a);
  }
}
