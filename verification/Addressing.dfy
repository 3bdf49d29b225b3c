/**
 Memory operands: what the decoder makes of the bytes after a ModR/M byte, and the addressing forms those bytes
 encode according to section 17.2.1 of the Intel 80386 Programmer's Reference Manual.
 */
module Addressing {
  import opened Options
  import opened Arithmetic
  import opened Words
  import opened Bits
  import opened X86State
  import opened Stack

  // ---------- The decoder ----------

  /** The fields of a ModR/M byte. */
  datatype ModRM = ModRM(mod: nat, reg: regindex, rm: regindex)

  function SplitModRM(b: byte): ModRM {
    ModRM(b / 64, b / 8 % 8, b % 8)
  }

  datatype SIB = SIB(ss: nat, index: regindex, base: regindex)

  function SplitSIB(b: byte): (s: SIB)
    ensures s.ss < 4
  {
    SIB(b / 64, b / 8 % 8, b % 8)
  }

  /** instr_fetch: n bytes at an address, which must be in memory. */
  function Fetch(m: seq<byte>, at: word, n: width): Option<word> {
    if at + n <= |m| then
      ReadFits(m, at, n);
      Some(ReadMemory(m, at, n))
    else None
  }

  lemma ReadFits(m: seq<byte>, at: nat, n: width)
    requires at + n <= |m|
    ensures ReadMemory(m, at, n) < Size(n)
  {
    var bs := m[at..at + n];
    if n == 1 {
      SmallNumbers(bs[0], bs[0]);
      assert bs == [bs[0]];
    } else if n == 2 {
      SmallNumbers(bs[0], bs[1]);
      assert bs == [bs[0], bs[1]];
    } else {
      NumberOfFour(bs);
    }
  }

  /** The low bytes of a word in memory. */
  lemma FetchFits(m: seq<byte>, at: nat, n: width)
    requires at + 4 <= |m|
    ensures ReadMemory(m, at, n) == ReadWord(m, at) % Size(n)
  {
    var bs := m[at..at + 4];
    NumberOfFour(bs);
    NumberUnfold(bs);
    SmallNumbers(bs[0], bs[1]);
    assert m[at..at + 1] == [bs[0]] && m[at..at + 2] == [bs[0], bs[1]];
    LowPart(bs[0], bs[1], Number256(bs[2..]));
    assert n == 4 ==> Number256(bs) % Size(n) == Number256(bs);
  }

  lemma LowPart(a: byte, b: byte, rest: nat)
    ensures var x := a + 256 * (b + 256 * rest); x % 256 == a && x % 65536 == a + 256 * b
  {
    DivModUnique(a + 256 * (b + 256 * rest), 256, b + 256 * rest, a);
    DivModUnique(a + 256 * (b + 256 * rest), 65536, rest, a + 256 * b);
  }

  /** An 8-bit displacement is sign-extended. */
  function Displacement(raw: word, size: width): int {
    if size == 1 && raw % 256 >= 128 then raw % 256 - 256 else raw
  }

  /** The base and index registers and the displacement size that the first bytes select. */
  datatype Selection = Selection(base: int, index: int, scale: nat, dispSize: int, next: word)

  function BasePart(g: Registers, base: int): nat
    requires -1 <= base < 8
  {
    if base < 0 then 0 else g[base]
  }

  function IndexPart(g: Registers, index: int, scale: nat): nat
    requires -1 <= index < 8
  {
    if index < 0 then 0 else g[index] * Pow2(scale)
  }

  /** The selected base plus the selected index, shifted. */
  function RegisterPart(g: Registers, s: Selection): nat
    requires -1 <= s.base < 8 && -1 <= s.index < 8
  {
    BasePart(g, s.base) + IndexPart(g, s.index, s.scale)
  }

  /** The address and the position behind the bytes used; None when they are not in memory. */
  function AddressOf(g: Registers, m: seq<byte>, s: Selection): Option<(word, word)>
    requires -1 <= s.base < 8 && -1 <= s.index < 8 && s.dispSize in {0, 1, 4}
  {
    var disp := if s.dispSize == 0 then Some(0) else Fetch(m, s.next, s.dispSize);
    match disp
    case None => None
    case Some(raw) =>
      var d := if s.dispSize == 0 then 0 else Displacement(raw, s.dispSize);
      Some((Wrap(d + RegisterPart(g, s)), Wrap(s.next + s.dispSize)))
  }

  /** Base, index, scale and displacement size, from the fields of a ModR/M byte and possibly a SIB byte. */
  function Select(m: seq<byte>, mod: nat, rm: regindex, at: word): (r: Option<Selection>)
    requires mod < 3
    ensures r.Some? ==> -1 <= r.value.base < 8 && -1 <= r.value.index < 8 &&
                         r.value.scale < 4 && r.value.dispSize in {0, 1, 4}
  {
    var dispSize := if mod == 0 then 0 else if mod == 1 then 1 else 4;
    if rm == ESP then
      match Fetch(m, at, 1)
      case None => None
      case Some(b) =>
        var sib := SplitSIB(b % 256);
        var index := if sib.index == ESP then -1 else sib.index;
        if mod == 0 && sib.base == EBP then Some(Selection(-1, index, sib.ss, 4, Wrap(at + 1)))
        else Some(Selection(sib.base, index, sib.ss, dispSize, Wrap(at + 1)))
    else if mod == 0 && rm == EBP then Some(Selection(-1, -1, 0, 4, at))
    else Some(Selection(rm, -1, 0, dispSize, at))
  }

  /** What load_addr computes. */
  function LoadAddress(g: Registers, m: seq<byte>, mod: nat, rm: regindex, at: word): Option<(word, word)>
    requires mod < 3
  {
    match Select(m, mod, rm, at)
    case None => None
    case Some(s) => AddressOf(g, m, s)
  }

  /** What the r/m field names: a register or the address of a memory operand. */
  datatype RM = Direct(r: regindex) | Indirect(addr: word)

  /** read_ModR_M: the reg field, the operand of the r/m field and the position behind the bytes used. */
  function DecodeModRM(g: Registers, m: seq<byte>, at: word): Option<(regindex, RM, word)> {
    match Fetch(m, at, 1)
    case None => None
    case Some(b) =>
      var f := SplitModRM(b % 256);
      if f.mod == 3 then Some((f.reg, Direct(f.rm), Wrap(at + 1)))
      else match LoadAddress(g, m, f.mod, f.rm, Wrap(at + 1))
        case None => None
        case Some((addr, next)) => Some((f.reg, Indirect(addr), next))
  }

  // ---------- The manual's addressing forms ----------

  /** [base + index * 2^scale + disp], base and index being optional. */
  datatype Form = Form(base: Option<regindex>, index: Option<regindex>, scale: nat, disp: int)

  /** Forms that have an encoding: esp cannot be an index. */
  predicate Encodable(f: Form) {
    f.index != Some(ESP) && f.scale < 4 && -0x8000_0000 <= f.disp < 0x8000_0000
  }

  /** The effective address a form denotes, modulo 2^32. */
  function Effective(f: Form, g: Registers): word {
    Wrap((match f.base case Some(r) => g[r] case None => 0) +
         (match f.index case Some(r) => g[r] * Pow2(f.scale) case None => 0) + f.disp)
  }

  /** How the displacement is encoded. */
  datatype Width = NoDisp | Disp8 | Disp32

  /** Which displacement widths tables 17-2 and 17-4 allow for a form. */
  predicate Allowed(f: Form, w: Width) {
    match f.base
    case None => w == Disp32
    case Some(b) =>
      match w
      case NoDisp => f.disp == 0 && b != EBP
      case Disp8 => -128 <= f.disp < 128
      case Disp32 => true
  }

  /** The scaled index byte is needed for an index and for base esp; it may always be used. */
  predicate NeedsSIB(f: Form) {
    f.index.Some? || f.base == Some(ESP)
  }

  /** The mod field: 00 also stands for "no base, 32-bit displacement". */
  function ModField(f: Form, w: Width): nat {
    if f.base.None? || w == NoDisp then 0 else if w == Disp8 then 1 else 2
  }

  function DispBytes(disp: int, w: Width): seq<byte> {
    match w
    case NoDisp => []
    case Disp8 => [disp % 256]
    case Disp32 => LittleEndian(Wrap(disp))
  }

  /** The register field standing for the base: 101 when there is none. */
  function BaseField(f: Form): regindex {
    match f.base case Some(b) => b case None => EBP
  }

  function SIBByte(f: Form): byte
    requires Encodable(f)
  {
    f.scale * 64 + (match f.index case Some(i) => i case None => ESP) * 8 + BaseField(f)
  }

  /** The r/m field and the bytes after the ModR/M byte. */
  function Encoding(f: Form, w: Width, sib: bool): (regindex, seq<byte>)
    requires Encodable(f)
  {
    if sib then (ESP, [SIBByte(f)] + DispBytes(f.disp, w)) else (BaseField(f), DispBytes(f.disp, w))
  }

  // ---------- Decoding an encoding ----------

  /** The bytes are in memory at the address, below the end of the address space. */
  predicate Stored(m: seq<byte>, at: word, bs: seq<byte>) {
    at + |bs| <= |m| < MODULUS && m[at..at + |bs|] == bs
  }

  lemma FetchDisp(m: seq<byte>, at: word, disp: int, w: Width)
    requires Stored(m, at, DispBytes(disp, w)) && w != NoDisp
    requires if w == Disp8 then -128 <= disp < 128 else -0x8000_0000 <= disp < 0x8000_0000
    ensures var size: width := if w == Disp8 then 1 else 4;
            && Fetch(m, at, size).Some?
            && Wrap(Displacement(Fetch(m, at, size).value, size)) == Wrap(disp)
  {
    var bs := DispBytes(disp, w);
    if w == Disp8 {
      assert bs[1..] == [];
      assert Number256(bs) == disp % 256;
    } else {
      LittleEndianNumber(Wrap(disp));
    }
  }

  lemma WrapSum(a: int, b: int, d: int)
    requires Wrap(a) == Wrap(d)
    ensures Wrap(a + b) == Wrap(b + d)
  {}

  /** The registers a form names. */
  function SelectionOf(f: Form, w: Width, at: word): (s: Selection)
    requires Encodable(f)
    ensures -1 <= s.base < 8 && -1 <= s.index < 8 && s.scale < 4 && s.dispSize in {0, 1, 4}
  {
    Selection(if f.base.Some? then f.base.value else -1, if f.index.Some? then f.index.value else -1, f.scale,
              if w == NoDisp then 0 else if w == Disp8 then 1 else 4, at)
  }

  lemma EffectiveOfSelection(g: Registers, f: Form, w: Width, at: word)
    requires Encodable(f)
    ensures Effective(f, g) == Wrap(RegisterPart(g, SelectionOf(f, w, at)) + f.disp)
  {}

  lemma AddressIs(g: Registers, m: seq<byte>, s: Selection, d: int, part: int)
    requires -1 <= s.base < 8 && -1 <= s.index < 8 && s.dispSize in {1, 4} && Fetch(m, s.next, s.dispSize).Some?
    requires d == Displacement(Fetch(m, s.next, s.dispSize).value, s.dispSize) && part == RegisterPart(g, s)
    ensures AddressOf(g, m, s) == Some((Wrap(d + part), Wrap(s.next + s.dispSize)))
  {}

  lemma AddressWithDisp(g: Registers, m: seq<byte>, s: Selection, disp: int)
    requires -1 <= s.base < 8 && -1 <= s.index < 8 && s.dispSize in {1, 4} && s.next + s.dispSize < MODULUS
    requires Fetch(m, s.next, s.dispSize).Some?
    requires Wrap(Displacement(Fetch(m, s.next, s.dispSize).value, s.dispSize)) == Wrap(disp)
    ensures AddressOf(g, m, s) == Some((Wrap(RegisterPart(g, s) + disp), s.next + s.dispSize))
  {
    var d, part: int := Displacement(Fetch(m, s.next, s.dispSize).value, s.dispSize), RegisterPart(g, s);
    AddressIs(g, m, s, d, part);
    WrapSum(d, part, disp);
  }

  lemma AddressOfForm(g: Registers, m: seq<byte>, f: Form, w: Width, at: word)
    requires Encodable(f) && Allowed(f, w) && Stored(m, at, DispBytes(f.disp, w))
    ensures AddressOf(g, m, SelectionOf(f, w, at)) == Some((Effective(f, g), at + |DispBytes(f.disp, w)|))
  {
    EffectiveOfSelection(g, f, w, at);
    if w != NoDisp {
      FetchDisp(m, at, f.disp, w);
      AddressWithDisp(g, m, SelectionOf(f, w, at), f.disp);
    }
  }

  /** Without an index the scale does not matter. */
  lemma ScaleIrrelevant(g: Registers, m: seq<byte>, s: Selection, scale: nat)
    requires -1 <= s.base < 8 && s.index == -1 && s.dispSize in {0, 1, 4}
    ensures AddressOf(g, m, s) == AddressOf(g, m, s.(scale := scale))
  {}

  lemma Fields(ss: nat, index: regindex, base: regindex)
    requires ss < 4
    ensures var b := ss * 64 + index * 8 + base; b < 256 && SplitSIB(b) == SIB(ss, index, base)
  {
    var b := ss * 64 + index * 8 + base;
    DivModUnique(b, 64, ss, index * 8 + base);
    DivModUnique(b, 8, ss * 8 + index, base);
    DivModUnique(b / 8, 8, ss, index);
  }

  lemma SIBFields(f: Form)
    requires Encodable(f)
    ensures SplitSIB(SIBByte(f)) == SIB(f.scale, match f.index case Some(i) => i case None => ESP, BaseField(f))
  {
    Fields(f.scale, match f.index case Some(i) => i case None => ESP, BaseField(f));
  }

  lemma FetchByte(m: seq<byte>, at: word, b: byte, tail: seq<byte>)
    requires Stored(m, at, [b] + tail)
    ensures Fetch(m, at, 1) == Some(b) && Stored(m, at + 1, tail)
  {
    var bs := m[at..at + 1 + |tail|];
    assert bs == [b] + tail;
    assert m[at..at + 1] == bs[..1] == [b];
    SmallNumbers(b, b);
    assert m[at + 1..at + 1 + |tail|] == bs[1..] == tail;
  }

  /**
   For every addressing form and register file, every encoding of the form the manual allows is decoded to
   base + index * 2^scale + displacement modulo 2^32, and decoding ends exactly behind the encoding.
   */
  lemma DecodeEncoding(g: Registers, m: seq<byte>, f: Form, w: Width, sib: bool, at: word)
    requires Encodable(f) && Allowed(f, w) && (NeedsSIB(f) ==> sib)
    requires Stored(m, at, Encoding(f, w, sib).1)
    ensures LoadAddress(g, m, ModField(f, w), Encoding(f, w, sib).0, at) ==
            Some((Effective(f, g), at + |Encoding(f, w, sib).1|))
  {
    if sib {
      DecodeWithSIB(g, m, f, w, at);
    } else {
      AddressOfForm(g, m, f, w, at);
      ScaleIrrelevant(g, m, SelectionOf(f, w, at), 0);
    }
  }

  lemma SelectWithSIB(m: seq<byte>, f: Form, w: Width, at: word)
    requires Encodable(f) && Allowed(f, w) && Stored(m, at, [SIBByte(f)] + DispBytes(f.disp, w))
    ensures Select(m, ModField(f, w), ESP, at) == Some(SelectionOf(f, w, at + 1))
  {
    var b := SIBByte(f);
    SIBFields(f);
    FetchByte(m, at, b, DispBytes(f.disp, w));
    DivModUnique(b, 256, 0, b);
    DivModUnique(at + 1, MODULUS, 0, at + 1);
  }

  lemma DecodeWithSIB(g: Registers, m: seq<byte>, f: Form, w: Width, at: word)
    requires Encodable(f) && Allowed(f, w) && Stored(m, at, Encoding(f, w, true).1)
    ensures LoadAddress(g, m, ModField(f, w), ESP, at) == Some((Effective(f, g), at + |Encoding(f, w, true).1|))
  {
    SelectWithSIB(m, f, w, at);
    FetchByte(m, at, SIBByte(f), DispBytes(f.disp, w));
    AddressOfForm(g, m, f, w, at + 1);
  }

  // ---------- The ModR/M byte ----------

  function ModRMByte(mod: nat, reg: regindex, rm: regindex): byte
    requires mod < 4
  {
    mod * 64 + reg * 8 + rm
  }

  lemma ModRMFields(mod: nat, reg: regindex, rm: regindex)
    requires mod < 4
    ensures SplitModRM(ModRMByte(mod, reg, rm)) == ModRM(mod, reg, rm)
  {
    var b := ModRMByte(mod, reg, rm);
    DivModUnique(b, 64, mod, reg * 8 + rm);
    DivModUnique(b, 8, mod * 8 + reg, rm);
    DivModUnique(mod * 8 + reg, 8, mod, reg);
  }

  lemma FetchModRM(m: seq<byte>, at: word, mod: nat, reg: regindex, rm: regindex, rest: seq<byte>)
    requires mod < 4 && Stored(m, at, [ModRMByte(mod, reg, rm)] + rest)
    ensures Fetch(m, at, 1).Some? && SplitModRM(Fetch(m, at, 1).value % 256) == ModRM(mod, reg, rm)
    ensures Wrap(at + 1) == at + 1 && Stored(m, at + 1, rest)
  {
    var b := ModRMByte(mod, reg, rm);
    FetchByte(m, at, b, rest);
    ModRMFields(mod, reg, rm);
    DivModUnique(b, 256, 0, b);
    DivModUnique(at + 1, MODULUS, 0, at + 1);
  }

  /** The ModR/M byte of a memory operand and the bytes after it. */
  function Instruction(f: Form, w: Width, sib: bool, reg: regindex): seq<byte>
    requires Encodable(f)
  {
    [ModRMByte(ModField(f, w), reg, Encoding(f, w, sib).0)] + Encoding(f, w, sib).1
  }

  /**
   For every addressing form, register field and register file, every encoding of the form the manual allows is
   decoded to the register and to base + index * 2^scale + displacement modulo 2^32, and decoding ends exactly
   behind the encoding.
   */
  lemma DecodeMemoryOperand(g: Registers, m: seq<byte>, f: Form, w: Width, sib: bool, reg: regindex, at: word)
    requires Encodable(f) && Allowed(f, w) && (NeedsSIB(f) ==> sib)
    requires Stored(m, at, Instruction(f, w, sib, reg))
    ensures DecodeModRM(g, m, at) ==
            Some((reg, Indirect(Effective(f, g)), at + |Instruction(f, w, sib, reg)|))
  {
    var (mod, (rm, rest)) := (ModField(f, w), Encoding(f, w, sib));
    FetchModRM(m, at, mod, reg, rm, rest);
    DecodeEncoding(g, m, f, w, sib, at + 1);
  }

  /** A register operand is decoded to the register and takes one byte. */
  lemma DecodeRegisterOperand(g: Registers, m: seq<byte>, reg: regindex, rm: regindex, at: word)
    requires Stored(m, at, [ModRMByte(3, reg, rm)])
    ensures DecodeModRM(g, m, at) == Some((reg, Direct(rm), at + 1))
  {
    assert [ModRMByte(3, reg, rm)] + [] == [ModRMByte(3, reg, rm)];
    FetchModRM(m, at, 3, reg, rm, []);
  }

  // ---------- The decoder's word arithmetic ----------

  /** Adding to a word, and adding a word, gives the sum modulo 2^32. */
  lemma AddedInWords(sum: int, next: int)
    ensures Wrap(Wrap(sum) + next) == Wrap(sum + next) && Wrap(Wrap(sum) + Wrap(next)) == Wrap(sum + next)
  {}
}
