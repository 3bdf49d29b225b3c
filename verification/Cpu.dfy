/**
 The emulated processor: the helpers and instructions of the source, step by step over the shared registers s0, s1,
 t0, t1 and ir. Contracts say what an instruction leaves in registers, memory and flags; the scratch registers
 are free afterwards. Where the source would fail an assertion or read outside its memory array, a method
 returns ok == false and promises nothing about the state of the ended emulator.
 */
module Processor {
  import opened Words
  import opened Arithmetic
  import opened Bits
  import opened X86State
  import opened Rtl
  import opened Limbs
  import opened Conditions
  import opened Addressing
  import opened SignedDivision
  import opened NarrowDivision
  import St = Stack

  /** Quotient and remainder of AX or DX:AX by d are in AL and AH, or AX and DX. */
  ghost predicate Divided(g: Registers, g': Registers, d: word, w: width)
    requires w < 4 && 0 < d < Size(w)
  {
    && ReadReg(g', EAX, w) == CDivQ(ReadWide(g, w), d) % Size(w)
    && ReadReg(g', Remainder(w), w) == CDivR(ReadWide(g, w), d)
    && SameBut(g, g', w)
  }

  lemma DividedBytes(g: Registers, g': Registers, d: word)
    requires 0 < d < 256
    requires var n := ReadReg(g, EAX, 2); g' == WriteReg(WriteReg(g, EAX, CDivQ(n, d), 1), AH, CDivR(n, d), 1)
    ensures Divided(g, g', d, 1)
  {
    StoredBytes(g, g', CDivQ(ReadReg(g, EAX, 2), d), CDivR(ReadReg(g, EAX, 2), d));
  }

  lemma DividedWords(g: Registers, g': Registers, n: word, d: word)
    requires 0 < d < 65536 && n == ReadWide(g, 2)
    requires g' == WriteReg(WriteReg(g, EAX, CDivQ(n, d), 2), EDX, CDivR(n, d), 2)
    ensures Divided(g, g', d, 2)
  {
    StoredHalves(g, g', CDivQ(n, d), CDivR(n, d));
  }

  /** The operand is the register or memory address that was decoded. */
  predicate Names(op: Operand, rm: RM, w: width) {
    op.width == w &&
    match rm
    case Direct(r) => op.RegOperand? && op.reg == r
    case Indirect(addr) => op.MemOperand? && op.addr == addr
  }

  type ThreeBytes = bs: seq<byte> | |bs| == 3 witness [0, 0, 0]

  class Cpu {
    var gpr: Registers
    var pc: word
    var flags: Flags
    const pmem: array<byte>
    /** Whatever lies behind the memory array. */
    const beyond: ThreeBytes

    var s0: word
    var s1: word
    var t0: word
    var t1: word
    var ir: word

    // The decoded instruction.
    var dest: Operand
    var src: Operand
    var seqPc: word
    var isJmp: bool
    var jmpPc: word

    constructor (size: nat, entry: word, beyond: ThreeBytes)
      ensures pmem.Length == size && fresh(pmem) && pc == entry
    {
      pmem := new byte[size];
      this.beyond := beyond;
      gpr, pc, flags := [0, 0, 0, 0, 0, 0, 0, 0], entry, Flags(0, 0, 0, 0);
      s0, s1, t0, t1, ir := 0, 0, 0, 0, 0;
      dest, src := ImmOperand(4, 0), ImmOperand(4, 0);
      seqPc, isJmp, jmpPc := entry, false, 0;
    }

    ghost function State(): St.State
      reads this, pmem
    {
      St.State(gpr, pmem[..], pc)
    }

    // ---------- Memory ----------

    /** Four bytes are loaded, at the end of the memory array also from behind it, and the unwanted ones masked. */
    method PaddrRead(addr: word, len: width) returns (ok: bool, v: word)
      ensures ok <==> addr + len <= pmem.Length
      ensures ok ==> v == ReadMemory(pmem[..], addr, len)
    {
      ok := addr + len <= pmem.Length;
      v := 0;
      if ok {
        var loaded := (pmem[..] + beyond)[addr..addr + 4];
        St.NumberOfFour(loaded);
        var data: word := Number256(loaded);
        AndMask(data, len);
        FetchFits(pmem[..] + beyond, addr, len);
        assert (pmem[..] + beyond)[addr..addr + len] == pmem[..][addr..addr + len];
        v := And(Mask(len), data);
      }
    }

    method PaddrWrite(addr: word, data: word, len: width) returns (ok: bool)
      modifies pmem
      ensures ok <==> addr + len <= pmem.Length
      ensures ok ==> pmem[..] == WriteMemory(old(pmem[..]), addr, data, len)
    {
      ok := addr + len <= pmem.Length;
      if ok {
        var bytes := LowBytes(data, len);
        forall i | 0 <= i < len {
          pmem[addr + i] := bytes[i];
        }
        assert pmem[..addr] == old(pmem[..addr]) && pmem[addr + len..] == old(pmem[addr + len..]);
        assert pmem[addr..addr + len] == bytes;
        assert pmem[..] == pmem[..addr] + pmem[addr..addr + len] + pmem[addr + len..];
      }
    }

    /** An immediate operand cannot be written. */
    method OperandWrite(op: Operand, v: word) returns (ok: bool)
      modifies this`gpr, pmem
      ensures ok <==> Storable(op, pmem.Length)
      ensures ok ==> gpr == StoreRegs(op, old(gpr), v) && pmem[..] == StoreMemory(op, old(pmem[..]), v)
    {
      match op {
        case RegOperand(r, w, _) =>
          gpr := WriteReg(gpr, r, v, w);
          ok := true;
        case MemOperand(addr, w, _) =>
          ok := PaddrWrite(addr, v, w);
        case ImmOperand(_, _) =>
          ok := false;
      }
    }

    method Mov() returns (ok: bool)
      modifies this`gpr, pmem
      ensures ok <==> Storable(dest, pmem.Length)
      ensures ok ==> gpr == StoreRegs(dest, old(gpr), src.val) && pmem[..] == StoreMemory(dest, old(pmem[..]), src.val)
    {
      ok := OperandWrite(dest, src.val);
    }

    // ---------- Flag helpers ----------

    method IsSubOverflow(res: word, a: word, b: word, w: width) returns (d: bit)
      modifies this`t0, this`t1
      ensures d == 1 <==> SubOverflowSigns(res, a, b, w)
    {
      t0 := WordXor(a, b);
      t1 := WordXor(res, a);
      SubOverflowBits(res, a, b, w * 8 - 1);
      t0 := And(t0, t1);
      d := Bit(t0, w * 8 - 1);
    }

    method IsAddOverflow(res: word, a: word, b: word, w: width) returns (d: bit)
      modifies this`t0, this`t1
      ensures d == 1 <==> AddOverflowSigns(res, a, b, w)
    {
      t0 := Not(a);
      t1 := WordXor(t0, b);
      t0 := WordXor(res, a);
      AddOverflowBits(res, a, b, w * 8 - 1);
      t0 := And(t0, t1);
      d := Bit(t0, w * 8 - 1);
    }

    /** rtl_set_CF and rtl_set_OF: any value but zero sets the flag. */
    method SetCF(v: word)
      modifies this`flags
      ensures flags == old(flags).(cf := if v == 0 then 0 else 1)
    {
      flags := flags.(cf := if v == 0 then 0 else 1);
    }

    method SetOF(v: word)
      modifies this`flags
      ensures flags == old(flags).(of_ := if v == 0 then 0 else 1)
    {
      flags := flags.(of_ := if v == 0 then 0 else 1);
    }

    method UpdateZFSF(result: word, w: width)
      modifies this`t0, this`ir, this`flags
      ensures ResultFlags(flags, result, w) && flags.cf == old(flags.cf) && flags.of_ == old(flags.of_)
    {
      ir := 32 - w * 8;
      t0 := CShl(result, ir);
      ShiftedOutIsZero(result, w);
      flags := flags.(zf := if t0 == 0 then 1 else 0);
      SignBitIsUpperHalf(result, w);
      flags := flags.(sf := Bit(result, w * 8 - 1));
    }

    // ---------- Arithmetic ----------

    /** The operands are values of the width of the destination, and this was loaded from where it will be written. */
    ghost predicate Ready()
      reads this
    {
      Storable(dest, pmem.Length) && dest.val < Size(dest.width) && src.val < Size(dest.width)
    }

    /** The carry flag is the carry out of 32 bits at every width. */
    method Add()
      requires Ready()
      modifies this`s0, this`s1, this`t0, this`t1, this`ir, this`flags, this`gpr, pmem
      ensures gpr == StoreRegs(dest, old(gpr), AddWithCarry(dest.val, src.val, 0).0)
      ensures pmem[..] == StoreMemory(dest, old(pmem[..]), AddWithCarry(dest.val, src.val, 0).0)
      ensures SumFlags(flags, dest.val, src.val, dest.width) && flags.cf == AddWithCarry(dest.val, src.val, 0).1
    {
      s0 := CAdd(dest.val, src.val);
      s1 := SetRelop(LTU, s0, dest.val);
      var ok := OperandWrite(dest, s0);
      AddSetFlags();
    }

    /** The flags of add, from the sum in s0 and its carry in s1. */
    method AddSetFlags()
      requires dest.val < Size(dest.width) && src.val < Size(dest.width)
      requires s0 == CAdd(dest.val, src.val) && s1 == SetRelop(LTU, s0, dest.val)
      modifies this`s1, this`t0, this`t1, this`ir, this`flags
      ensures SumFlags(flags, dest.val, src.val, dest.width)
      ensures (s0, flags.cf) == AddWithCarry(dest.val, src.val, 0)
    {
      UpdateZFSF(s0, dest.width);
      SetCF(s1);
      s1 := IsAddOverflow(s0, dest.val, src.val, dest.width);
      SetOF(s1);
      AddFlagsMean(flags, dest.val, src.val, dest.width);
    }

    method Sub()
      requires Ready()
      modifies this`s0, this`s1, this`t0, this`t1, this`ir, this`flags, this`gpr, pmem
      ensures gpr == StoreRegs(dest, old(gpr), SubWithBorrow(dest.val, src.val, 0).0)
      ensures pmem[..] == StoreMemory(dest, old(pmem[..]), SubWithBorrow(dest.val, src.val, 0).0)
      ensures ComparisonFlags(flags, dest.val, src.val, dest.width)
      ensures flags.cf == SubWithBorrow(dest.val, src.val, 0).1
    {
      s0 := CSub(dest.val, src.val);
      s1 := SetRelop(LTU, dest.val, s0);
      var ok := OperandWrite(dest, s0);
      SubSetFlags();
    }

    /** The flags of sub, from the difference in s0 and its borrow in s1. */
    method SubSetFlags()
      requires dest.val < Size(dest.width) && src.val < Size(dest.width)
      requires s0 == CSub(dest.val, src.val) && s1 == SetRelop(LTU, dest.val, s0)
      modifies this`s1, this`t0, this`t1, this`ir, this`flags
      ensures ComparisonFlags(flags, dest.val, src.val, dest.width)
      ensures (s0, flags.cf) == SubWithBorrow(dest.val, src.val, 0)
    {
      UpdateZFSF(s0, dest.width);
      SetCF(s1);
      s1 := IsSubOverflow(s0, dest.val, src.val, dest.width);
      SetOF(s1);
      SubFlagsMean(flags, dest.val, src.val, dest.width);
    }

    method Cmp()
      requires dest.val < Size(dest.width) && src.val < Size(dest.width)
      modifies this`s0, this`s1, this`t0, this`t1, this`ir, this`flags
      ensures ComparisonFlags(flags, dest.val, src.val, dest.width)
    {
      s0 := CSub(dest.val, src.val);
      UpdateZFSF(s0, dest.width);
      s1 := SetRelop(LTU, dest.val, s0);
      SetCF(s1);
      s1 := IsSubOverflow(s0, dest.val, src.val, dest.width);
      SetOF(s1);
      SubFlagsMean(flags, dest.val, src.val, dest.width);
    }

    method Adc()
      requires Ready()
      modifies this`s0, this`s1, this`t0, this`t1, this`ir, this`flags, this`gpr, pmem
      ensures gpr == StoreRegs(dest, old(gpr), AddWithCarry(dest.val, src.val, old(flags.cf)).0)
      ensures pmem[..] == StoreMemory(dest, old(pmem[..]), AddWithCarry(dest.val, src.val, old(flags.cf)).0)
      ensures AdcFlags(flags, dest.val, src.val, old(flags.cf), dest.width)
      ensures dest.width == 4 ==> flags.cf == AddWithCarry(dest.val, src.val, old(flags.cf)).1
    {
      ghost var c := flags.cf;
      s0 := CAdd(dest.val, src.val);
      s1 := flags.cf;
      s1 := CAdd(s0, s1);
      LimbWord(dest.val, src.val, c);
      var ok := OperandWrite(dest, s1);
      AdcSetFlags(c);
    }

    /** The flags of adc, from the two sums in s0 and s1; c is the carry flag that was added. */
    method AdcSetFlags(ghost c: bit)
      requires dest.val < Size(dest.width) && src.val < Size(dest.width)
      requires s0 == CAdd(dest.val, src.val) && s1 == CAdd(s0, c)
      modifies this`s0, this`s1, this`t0, this`t1, this`ir, this`flags
      ensures AdcFlags(flags, dest.val, src.val, c, dest.width)
      ensures dest.width == 4 ==> flags.cf == AddWithCarry(dest.val, src.val, c).1
    {
      Narrow(dest.width);
      UpdateZFSF(s1, dest.width);
      s1 := SetRelop(LTU, s1, s0);
      s0 := SetRelop(LTU, s0, dest.val);
      OrOfBits(s0, s1);
      s0 := WordOr(s0, s1);
      SetCF(s0);
      s0 := IsAddOverflow(s1, dest.val, src.val, dest.width);
      SetOF(s0);
      AdcFlagsMean(flags, dest.val, src.val, c, dest.width);
      if dest.width == 4 {
        AdcIsLimb(flags, dest.val, src.val, c);
      }
    }

    method Sbb()
      requires Ready()
      modifies this`s0, this`s1, this`t0, this`t1, this`ir, this`flags, this`gpr, pmem
      ensures gpr == StoreRegs(dest, old(gpr), SubWithBorrow(dest.val, src.val, old(flags.cf)).0)
      ensures pmem[..] == StoreMemory(dest, old(pmem[..]), SubWithBorrow(dest.val, src.val, old(flags.cf)).0)
      ensures SbbFlags(flags, dest.val, src.val, old(flags.cf), dest.width)
      ensures flags.cf == SubWithBorrow(dest.val, src.val, old(flags.cf)).1
    {
      ghost var c := flags.cf;
      s0 := CSub(dest.val, src.val);
      s1 := flags.cf;
      s1 := CSub(s0, s1);
      LimbWord(dest.val, src.val, c);
      var ok := OperandWrite(dest, s1);
      SbbSetFlags(c);
    }

    /** The flags of sbb, from the two differences in s0 and s1; c is the carry flag that was subtracted. */
    method SbbSetFlags(ghost c: bit)
      requires dest.val < Size(dest.width) && src.val < Size(dest.width)
      requires s0 == CSub(dest.val, src.val) && s1 == CSub(s0, c)
      modifies this`s0, this`s1, this`t0, this`t1, this`ir, this`flags
      ensures SbbFlags(flags, dest.val, src.val, c, dest.width)
      ensures flags.cf == SubWithBorrow(dest.val, src.val, c).1
    {
      Narrow(dest.width);
      UpdateZFSF(s1, dest.width);
      s1 := SetRelop(LTU, s0, s1);
      s0 := SetRelop(LTU, dest.val, s0);
      OrOfBits(s0, s1);
      s0 := WordOr(s0, s1);
      SetCF(s0);
      s0 := IsSubOverflow(s1, dest.val, src.val, dest.width);
      SetOF(s0);
      SbbFlagsMean(flags, dest.val, src.val, c, dest.width);
    }

    /** The masking of s1 that adc and sbb do when the destination is narrow. */
    method Narrow(w: width)
      modifies this`s1, this`ir
      ensures s1 == old(s1) % Size(w)
    {
      if w != 4 {
        ir := Mask(w);
        AndMask(s1, w);
        s1 := And(ir, s1);
      }
    }

    /** The unsigned product of the accumulator and the operand, exact at every width. */
    method Mul()
      requires dest.val < Size(dest.width)
      modifies this`s0, this`s1, this`ir, this`gpr
      ensures dest.width < 4 ==>
        && ReadWide(gpr, dest.width) == dest.val * ReadReg(old(gpr), EAX, dest.width)
        && SameBut(old(gpr), gpr, dest.width)
      ensures dest.width == 4 ==>
        var (lo, hi) := MulWide(dest.val, old(gpr)[EAX]); gpr == old(gpr)[EAX := lo][EDX := hi]
    {
      s0 := ReadReg(gpr, EAX, dest.width);
      ProductBelow(dest.val, s0, Size(dest.width));
      s1 := CMulLo(dest.val, s0);
      if dest.width < 4 {
        WrapSmall(dest.val * s0);
        StoreNarrowProduct(dest.width);
      } else {
        s0 := CMulHi(dest.val, s0);
        StoreProduct();
      }
    }

    /** The 8- and 16-bit branches of mul: AX or DX:AX takes s1. */
    method StoreNarrowProduct(w: width)
      requires w < 4 && s1 < Size(w) * Size(w)
      modifies this`s1, this`ir, this`gpr
      ensures ReadWide(gpr, w) == old(s1) && SameBut(old(gpr), gpr, w)
    {
      ghost var g, v := gpr, s1;
      if w == 1 {
        gpr := WriteReg(gpr, EAX, s1, 2);
      } else {
        gpr := WriteReg(gpr, EAX, s1, 2);
        ShiftRight16(s1);
        ir := 16;
        s1 := CShr(s1, ir);
        gpr := WriteReg(gpr, EDX, s1, 2);
      }
      StoredWide(g, gpr, v, w);
    }

    /** The 32-bit branch of mul and imul1. */
    method StoreProduct()
      modifies this`gpr
      ensures gpr == old(gpr)[EAX := s1][EDX := s0]
    {
      gpr := WriteReg(gpr, EDX, s0, 4);
      gpr := WriteReg(gpr, EAX, s1, 4);
      assert gpr == old(gpr)[EAX := s1][EDX := s0];
    }

    /**
     The one-operand signed product. At full width EDX:EAX is the exact 64-bit value; at the narrow widths the
     operands are taken as unsigned, which is right exactly when their signs do not matter.
     */
    method Imul1()
      requires dest.val < Size(dest.width)
      modifies this`s0, this`s1, this`ir, this`gpr
      ensures dest.width == 4 ==>
        && gpr == old(gpr)[EAX := gpr[EAX]][EDX := gpr[EDX]]
        && Signed(gpr[EDX]) * MODULUS + gpr[EAX] == Signed(dest.val) * Signed(old(gpr)[EAX])
      ensures dest.width < 4 ==>
        var (w, a) := (dest.width, ReadReg(old(gpr), EAX, dest.width));
        && ReadWide(gpr, w) == dest.val * a && SameBut(old(gpr), gpr, w)
        && (ReadingWide(ReadWide(gpr, w), w) == SignedAt(dest.val, w) * SignedAt(a, w) <==>
            SignsIrrelevant(dest.val, a, w))
    {
      s0 := ReadReg(gpr, EAX, dest.width);
      s1 := CImulLo(dest.val, s0);
      if dest.width < 4 {
        NarrowImul(dest.val, s0, dest.width);
        NarrowSignedProduct(dest.val, s0, dest.width);
        StoreNarrowProduct(dest.width);
      } else {
        SignedProductParts(dest.val, s0);
        s0 := CImulHi(dest.val, s0);
        StoreProduct();
      }
    }

    /** Unsigned division; a zero divisor is the host's division fault. A quotient too large for the width is cut. */
    method Div() returns (ok: bool)
      requires dest.val < Size(dest.width)
      modifies this`s0, this`s1, this`ir, this`gpr
      ensures ok <==> dest.val != 0
      ensures ok && dest.width == 4 ==>
        var (q, r) := DivWide(old(gpr)[EDX], old(gpr)[EAX], dest.val); gpr == old(gpr)[EAX := q][EDX := r]
      ensures ok && dest.width < 4 ==> Divided(old(gpr), gpr, dest.val, dest.width)
    {
      ok := dest.val != 0;
      if ok {
        if dest.width == 4 {
          s0 := ReadReg(gpr, EAX, 4);
          s1 := ReadReg(gpr, EDX, 4);
          gpr := gpr[EAX := DivWide(s1, s0, dest.val).0];
          gpr := gpr[EDX := DivWide(s1, s0, dest.val).1];
        } else if dest.width == 2 {
          DivWords();
        } else {
          DivBytes();
        }
      }
    }

    method DivBytes()
      requires 0 < dest.val < 256
      modifies this`s0, this`s1, this`gpr
      ensures Divided(old(gpr), gpr, dest.val, 1)
    {
      ghost var g := gpr;
      s0 := ReadReg(gpr, EAX, 2);
      s1 := CDivQ(s0, dest.val);
      gpr := WriteReg(gpr, EAX, s1, 1);
      s1 := CDivR(s0, dest.val);
      gpr := WriteReg(gpr, AH, s1, 1);
      DividedBytes(g, gpr, dest.val);
    }

    method DivWords()
      requires 0 < dest.val < 65536
      modifies this`s0, this`s1, this`ir, this`gpr
      ensures Divided(old(gpr), gpr, dest.val, 2)
    {
      ghost var g := gpr;
      s0 := ReadReg(gpr, EAX, 2);
      s1 := ReadReg(gpr, EDX, 2);
      JoinHalves(s1, s0);
      ir := 16;
      s1 := CShl(s1, ir);
      s0 := WordOr(s0, s1);
      s1 := CDivQ(s0, dest.val);
      gpr := WriteReg(gpr, EAX, s1, 2);
      s1 := CDivR(s0, dest.val);
      gpr := WriteReg(gpr, EDX, s1, 2);
      DividedWords(g, gpr, s0, dest.val);
    }

    // ---------- Signed division ----------

    /** rtl_sext: the sign extension of the low bytes, whatever the other bytes are. */
    method Sext(x: word, w: width) returns (d: word)
      modifies this`t0
      ensures d == Extended(x % Size(w), w, true)
    {
      t0 := Bit(x, w * 8 - 1);
      Extending(x, w);
      OrHighBytes(x, w);
      AndMask(x, w);
      d := if t0 != 0 then WordOr(MODULUS - Size(w), x) else And(Mask(w), x);
    }

    method Cltd(operandSize16: bool)
      modifies this`s0, this`t0, this`gpr
      ensures !operandSize16 ==> gpr == old(gpr)[EDX := SignWord(old(gpr)[EAX])]
      ensures operandSize16 ==>
        && gpr[EAX] == old(gpr)[EAX] && SameBut(old(gpr), gpr, 2)
        && Signed(ReadWide(gpr, 2)) == SignedAt(ReadReg(old(gpr), EAX, 2), 2)
    {
      if operandSize16 {
        ghost var g := gpr;
        s0 := Sext(gpr[EAX], 2);
        ShiftRight16(s0);
        gpr := WriteReg(gpr, EDX, CShr(s0, 16), 2);
        ExtendedHalf(g, gpr, s0);
      } else {
        SignBitIsUpperHalf(gpr[EAX], 4);
        s0 := Bit(gpr[EAX], 31);
        gpr := gpr[EDX := if s0 != 0 then 0xFFFFFFFF else 0];
      }
    }

    method IdivBytes()
      requires 0 < dest.val < 256
      modifies this`s0, this`s1, this`gpr
      ensures NarrowlyDivided(old(gpr), gpr, dest.val, 1)
    {
      ghost var g := gpr;
      s0 := ReadReg(gpr, EAX, 2);
      s1 := CIdivQ(s0, dest.val);
      gpr := WriteReg(gpr, EAX, s1, 1);
      s1 := CIdivR(s0, dest.val);
      gpr := WriteReg(gpr, AH, s1, 1);
      NarrowlyDividedBytes(g, gpr, s0, dest.val);
    }

    method IdivWords()
      requires 0 < dest.val < 65536
      modifies this`s0, this`s1, this`ir, this`gpr
      ensures NarrowlyDivided(old(gpr), gpr, dest.val, 2)
    {
      ghost var g := gpr;
      s0 := ReadReg(gpr, EAX, 2);
      s1 := ReadReg(gpr, EDX, 2);
      JoinHalves(s1, s0);
      ir := 16;
      s1 := CShl(s1, ir);
      s0 := WordOr(s0, s1);
      s1 := CIdivQ(s0, dest.val);
      gpr := WriteReg(gpr, EAX, s1, 2);
      s1 := CIdivR(s0, dest.val);
      gpr := WriteReg(gpr, EDX, s1, 2);
      NarrowlyDividedWords(g, gpr, s0, dest.val);
    }

    method IdivNarrow()
      requires dest.width < 4 && 0 < dest.val < Size(dest.width)
      modifies this`s0, this`s1, this`ir, this`gpr
      ensures NarrowlyDivided(old(gpr), gpr, dest.val, dest.width)
      ensures SignedlyDivided(old(gpr), gpr, dest.val, dest.width) <==>
              SignsHandled(ReadWide(old(gpr), dest.width), dest.val, dest.width)
    {
      ghost var g := gpr;
      if dest.width == 2 {
        IdivWords();
      } else {
        IdivBytes();
      }
      NarrowSignedDivision(g, gpr, dest.val, dest.width);
    }

    /** Signed division; ok is false when the host's division faults. */
    method Idiv() returns (ok: bool)
      requires dest.val < Size(dest.width)
      modifies this`s0, this`s1, this`ir, this`gpr
      ensures dest.width == 4 ==> (ok <==> !Faults(old(gpr)[EDX], old(gpr)[EAX], dest.val))
      ensures dest.width == 4 && ok ==>
        var (q, r) := IdivWide(old(gpr)[EDX], old(gpr)[EAX], dest.val); gpr == old(gpr)[EAX := q][EDX := r]
      ensures dest.width < 4 ==> (ok <==> dest.val != 0)
      ensures dest.width < 4 && ok ==>
        && NarrowlyDivided(old(gpr), gpr, dest.val, dest.width)
        && (SignedlyDivided(old(gpr), gpr, dest.val, dest.width) <==>
            SignsHandled(ReadWide(old(gpr), dest.width), dest.val, dest.width))
    {
      if dest.width == 4 {
        s0 := ReadReg(gpr, EAX, 4);
        s1 := ReadReg(gpr, EDX, 4);
        var dividend, divisor := SignedWide(s1, s0), Signed(dest.val);
        ok := !(divisor == 0 || (dividend == -0x8000_0000_0000_0000 && divisor == -1));
        if ok {
          gpr := gpr[EAX := Wrap(Truncated(dividend, divisor))];
          gpr := gpr[EDX := Wrap(TruncatedRemainder(dividend, divisor))];
        }
      } else {
        ok := dest.val != 0;
        if ok {
          IdivNarrow();
        }
      }
    }

    /** cltd and idiv in a row: EAX divided by the operand as C divides signed integers. */
    method CltdIdiv(divisor: Operand) returns (ok: bool)
      requires divisor.width == 4
      modifies this`dest, this`s0, this`s1, this`t0, this`ir, this`gpr
      ensures ok <==> divisor.val != 0
      ensures ok ==>
        && Signed(gpr[EDX]) == TruncatedRemainder(Signed(old(gpr)[EAX]), Signed(divisor.val))
        && (Signed(gpr[EAX]) == Truncated(Signed(old(gpr)[EAX]), Signed(divisor.val)) <==>
            !(old(gpr)[EAX] == 0x8000_0000 && divisor.val == MODULUS - 1))
    {
      Cltd(false);
      dest := divisor;
      if dest.val != 0 {
        ExtendedDivision(gpr[EAX], dest.val);
      }
      ok := Idiv();
    }

    // ---------- Condition codes ----------

    /** rtl_setcc; the parity codes panic. */
    method RtlSetcc(cc: code) returns (ok: bool, d: word)
      modifies this`t0, this`t1, this`ir
      ensures ok <==> Supported(cc)
      ensures ok ==> d == if Satisfied(flags, cc) then 1 else 0
    {
      var invert := cc % 2 == 1;
      ok, d := true, 0;
      match cc - cc % 2 {
        case 0 => d := flags.of_;
        case 2 => d := flags.cf;
        case 4 => d := flags.zf;
        case 6 =>
          t0, t1 := flags.cf, flags.zf;
          OrOfBits(t0, t1);
          d := WordOr(t0, t1);
        case 8 => d := flags.sf;
        case 12 =>
          t0, t1 := flags.sf, flags.of_;
          XorOfBits(t0, t1);
          d := WordXor(t0, t1);
        case 14 =>
          t0, t1 := flags.sf, flags.of_;
          XorOfBits(t0, t1);
          t0 := WordXor(t0, t1);
          t1 := flags.zf;
          OrOfBits(t0, t1);
          d := WordOr(t0, t1);
        case _ => ok := false;
      }
      if ok && invert {
        ir := 1;
        XorOfBits(d, ir);
        d := WordXor(d, ir);
      }
    }

    method Setcc(cc: code) returns (ok: bool)
      modifies this`s0, this`t0, this`t1, this`ir, this`gpr, pmem
      ensures ok <==> Supported(cc) && Storable(dest, pmem.Length)
      ensures ok ==> var v := if Satisfied(flags, cc) then 1 else 0;
                     gpr == StoreRegs(dest, old(gpr), v) && pmem[..] == StoreMemory(dest, old(pmem[..]), v)
    {
      ok, s0 := RtlSetcc(cc);
      if ok {
        ok := OperandWrite(dest, s0);
      }
    }

    // ---------- Control flow ----------

    /** rtl_j and rtl_jr. */
    method Jump(target: word)
      modifies this`pc, this`isJmp
      ensures pc == target && isJmp
    {
      pc := target;
      isJmp := true;
    }

    method Jcc(cc: code) returns (ok: bool)
      modifies this`s0, this`s1, this`t0, this`t1, this`ir, this`pc, this`isJmp
      ensures ok <==> Supported(cc)
      ensures ok ==> isJmp == Satisfied(flags, cc) && pc == if Satisfied(flags, cc) then jmpPc else old(pc)
    {
      ok, s0 := RtlSetcc(cc);
      if ok {
        s1 := 0;
        var taken := InterpretRelop(NE, s0, s1);
        if taken {
          pc := jmpPc;
        }
        isJmp := taken;
      }
    }

    /** Unless the instruction jumped, the next one follows. */
    method UpdatePc()
      modifies this`pc, this`isJmp
      ensures !isJmp && pc == if old(isJmp) then old(pc) else seqPc
    {
      if isJmp {
        isJmp := false;
      } else {
        pc := seqPc;
      }
    }

    /** cmp and jcc in a row: a comparing branch is taken exactly when the simple comparison of the operands holds. */
    method CmpJcc(cc: code, next: word, target: word)
      requires dest.val < Size(dest.width) && src.val < Size(dest.width) && Compares(cc)
      modifies this
      ensures var (w, signed) := (old(dest.width), IsSigned(cc));
              var (d, s) := (Extended(old(dest.val), w, signed), Extended(old(src.val), w, signed));
              pc == if InterpretRelop(RelopOf(cc), d, s) then target else next
      ensures gpr == old(gpr)
    {
      Cmp();
      ComparisonDecides(flags, dest.val, src.val, dest.width, cc);
      seqPc, jmpPc := next, target;
      var ok := Jcc(cc);
      UpdatePc();
    }

    // ---------- Stack ----------

    method RtlPush(v: word) returns (ok: bool)
      modifies this`gpr, pmem
      ensures ok <==> St.Push(old(State()), v).Some?
      ensures ok ==> State() == St.Push(old(State()), v).value
    {
      gpr := gpr[ESP := CSub(gpr[ESP], 4)];
      ok := PaddrWrite(gpr[ESP], v, 4);
    }

    /** The popped word goes to a scratch register or to a register other than esp. */
    method RtlPop() returns (ok: bool, v: word)
      modifies this`gpr
      ensures ok <==> St.Pop(old(State())).Some?
      ensures ok ==> St.Pop(old(State())).value == (v, State())
    {
      ok, v := PaddrRead(gpr[ESP], 4);
      if ok {
        gpr := gpr[ESP := CAdd(gpr[ESP], 4)];
      }
    }

    method Push() returns (ok: bool)
      modifies this`gpr, pmem
      ensures ok <==> St.Push(old(State()), dest.val).Some?
      ensures ok ==> State() == St.Push(old(State()), dest.val).value
    {
      ok := RtlPush(dest.val);
    }

    method Pop() returns (ok: bool)
      modifies this`s0, this`gpr, pmem
      ensures ok <==> St.Pop(old(State())).Some? && Storable(dest, pmem.Length)
      ensures ok ==> var (v, t) := St.Pop(old(State())).value;
                     State() == t.(g := StoreRegs(dest, t.g, v), m := StoreMemory(dest, t.m, v))
    {
      ok, s0 := RtlPop();
      if ok {
        ok := OperandWrite(dest, s0);
      }
    }

    method Call() returns (ok: bool)
      modifies this`gpr, this`pc, this`isJmp, pmem
      ensures ok <==> St.Call(old(State()), seqPc, jmpPc).Some?
      ensures ok ==> State() == St.Call(old(State()), seqPc, jmpPc).value && isJmp
    {
      ok := RtlPush(seqPc);
      Jump(jmpPc);
    }

    method CallRm() returns (ok: bool)
      modifies this`gpr, this`pc, this`isJmp, this`jmpPc, pmem
      ensures ok <==> St.Call(old(State()), seqPc, dest.val).Some?
      ensures ok ==> State() == St.Call(old(State()), seqPc, dest.val).value && isJmp
    {
      isJmp := true;
      jmpPc := dest.val;
      ok := RtlPush(seqPc);
      Jump(jmpPc);
    }

    method Ret() returns (ok: bool)
      modifies this`gpr, this`pc, this`isJmp, this`jmpPc
      ensures ok <==> St.Ret(old(State())).Some?
      ensures ok ==> State() == St.Ret(old(State())).value && isJmp
    {
      ok, jmpPc := RtlPop();
      if ok {
        Jump(jmpPc);
      }
    }

    method Leave() returns (ok: bool)
      modifies this`gpr
      ensures ok <==> St.Leave(old(State())).Some?
      ensures ok ==> State() == St.Leave(old(State())).value
    {
      gpr := gpr[ESP := gpr[EBP]];
      var v;
      ok, v := RtlPop();
      if ok {
        gpr := gpr[EBP := v];
      }
    }

    // ---------- Operand decoding ----------

    method InstrFetch(len: width) returns (ok: bool, v: word)
      modifies this`seqPc
      ensures ok <==> Fetch(pmem[..], old(seqPc), len).Some?
      ensures ok ==> v == Fetch(pmem[..], old(seqPc), len).value && seqPc == Wrap(old(seqPc) + len)
    {
      ok, v := PaddrRead(seqPc, len);
      seqPc := Wrap(seqPc + len);
    }

    /** The first part of load_addr: which registers and how many displacement bytes. */
    method SelectRegisters(mod: nat, rm: regindex) returns (ok: bool, base: int, index: int, scale: nat, dispSize: int)
      requires mod < 3
      modifies this`seqPc
      ensures ok <==> Select(pmem[..], mod, rm, old(seqPc)).Some?
      ensures ok ==> Select(pmem[..], mod, rm, old(seqPc)).value == Selection(base, index, scale, dispSize, seqPc)
    {
      ok, base, index, scale, dispSize := true, -1, -1, 0, 4;
      if rm == ESP {
        var b;
        ok, b := InstrFetch(1);
        if ok {
          var sib := SplitSIB(b % 256);
          base := sib.base;
          scale := sib.ss;
          if sib.index != ESP {
            index := sib.index;
          }
        }
      } else {
        base := rm;
      }
      if mod == 0 {
        if base == EBP {
          base := -1;
        } else {
          dispSize := 0;
        }
      } else if mod == 1 {
        dispSize := 1;
      }
    }

    /** load_addr: the sum is built in s0 word by word. */
    method LoadAddr(mod: nat, rm: regindex) returns (ok: bool, addr: word)
      requires mod < 3
      modifies this`s0, this`s1, this`ir, this`seqPc
      ensures ok <==> LoadAddress(gpr, pmem[..], mod, rm, old(seqPc)).Some?
      ensures ok ==> LoadAddress(gpr, pmem[..], mod, rm, old(seqPc)).value == (addr, seqPc)
    {
      s0, addr := 0, 0;
      var base, index, scale, dispSize;
      ok, base, index, scale, dispSize := SelectRegisters(mod, rm);
      if ok {
        ok, addr := SumAddress(Selection(base, index, scale, dispSize, seqPc));
      }
    }

    method SumAddress(s: Selection) returns (ok: bool, addr: word)
      requires -1 <= s.base < 8 && -1 <= s.index < 8 && s.scale < 4 && s.dispSize in {0, 1, 4}
      requires s.next == seqPc && s0 == 0
      modifies this`s0, this`s1, this`ir, this`seqPc
      ensures ok <==> AddressOf(gpr, pmem[..], s).Some?
      ensures ok ==> AddressOf(gpr, pmem[..], s).value == (addr, seqPc)
    {
      var disp;
      ok, disp := AddDisplacement(s.dispSize);
      AddRegisters(s, disp);
      addr := s0;
    }

    method AddRegisters(s: Selection, ghost disp: int)
      requires -1 <= s.base < 8 && -1 <= s.index < 8 && s.scale < 4 && s0 == Wrap(disp)
      modifies this`s0, this`s1, this`ir
      ensures s0 == Wrap(disp + RegisterPart(gpr, s))
    {
      ghost var base: int := BasePart(gpr, s.base);
      if s.base != -1 {
        AddedInWords(disp, base);
        s0 := CAdd(s0, gpr[s.base]);
      }
      AddIndex(s.index, s.scale, disp + base);
    }

    method AddIndex(index: int, scale: nat, ghost sum: int)
      requires -1 <= index < 8 && scale < 4 && s0 == Wrap(sum)
      modifies this`s0, this`s1, this`ir
      ensures s0 == Wrap(sum + IndexPart(gpr, index, scale))
    {
      if index != -1 {
        ghost var shifted: int := IndexPart(gpr, index, scale);
        AddedInWords(sum, shifted);
        ir := scale;
        s1 := CShl(gpr[index], ir);
        s0 := CAdd(s0, s1);
      }
    }

    /** The displacement, if there is one, is fetched and added to s0. */
    method AddDisplacement(size: int) returns (ok: bool, disp: int)
      requires size in {0, 1, 4} && s0 == 0
      modifies this`s0, this`ir, this`seqPc
      ensures size == 0 ==> ok && disp == 0 && seqPc == old(seqPc)
      ensures size != 0 ==> (ok <==> Fetch(pmem[..], old(seqPc), size).Some?)
      ensures ok && size != 0 ==>
        disp == Displacement(Fetch(pmem[..], old(seqPc), size).value, size) && seqPc == Wrap(old(seqPc) + size)
      ensures s0 == Wrap(disp)
    {
      ok, disp := true, 0;
      if size != 0 {
        var raw;
        ok, raw := InstrFetch(size);
        disp := Displacement(raw, size);
        ir := Wrap(disp);
        s0 := CAdd(s0, ir);
      }
    }

    /** read_ModR_M for operands of widths regWidth and w: the register of the reg field, and what r/m names. */
    method ReadModRM(w: width, loadRmVal: bool, regWidth: width, loadRegVal: bool)
      returns (ok: bool, reg: Operand, rm: Operand)
      modifies this`s0, this`s1, this`ir, this`seqPc
      ensures var d := DecodeModRM(gpr, pmem[..], old(seqPc));
              && (ok ==> d.Some? && Names(reg, Direct(d.value.0), regWidth) && Names(rm, d.value.1, w) &&
                         d.value.2 == seqPc)
              && (!ok ==> d.None? || (loadRmVal && d.value.1.Indirect? && d.value.1.addr + w > pmem.Length))
      ensures ok && loadRegVal ==> reg.val == Loaded(reg)
      ensures ok && loadRmVal ==> Storable(rm, pmem.Length) && rm.val == Loaded(rm)
    {
      reg, rm := ImmOperand(regWidth, 0), ImmOperand(w, 0);
      var b;
      ok, b := InstrFetch(1);
      if ok {
        var f := SplitModRM(b % 256);
        reg := RegOperand(f.reg, regWidth, if loadRegVal then ReadReg(gpr, f.reg, regWidth) else 0);
        if f.mod == 3 {
          rm := RegOperand(f.rm, w, 0);
        } else {
          var addr;
          ok, addr := LoadAddr(f.mod, f.rm);
          rm := MemOperand(addr, w, 0);
        }
        if ok && loadRmVal {
          ok, rm := Load(rm);
        }
      }
    }

    /** Loading the value of a register or memory operand. */
    method Load(op: Operand) returns (ok: bool, loaded: Operand)
      requires !op.ImmOperand?
      ensures ok <==> Storable(op, pmem.Length)
      ensures ok ==> loaded == op.(val := loaded.val) && loaded.val == Loaded(loaded)
    {
      loaded := op;
      match op {
        case RegOperand(r, w, _) =>
          ok := true;
          loaded := RegOperand(r, w, ReadReg(gpr, r, w));
        case MemOperand(addr, w, _) =>
          var v;
          ok, v := PaddrRead(addr, w);
          loaded := MemOperand(addr, w, v);
      }
    }

    /** What an operand holds. */
    ghost function Loaded(op: Operand): nat
      requires Storable(op, pmem.Length)
      reads this, pmem
    {
      match op
      case RegOperand(r, w, _) => ReadReg(gpr, r, w)
      case MemOperand(addr, w, _) => ReadMemory(pmem[..], addr, w)
    }
  }
}
