/** Registers, memory bytes, operand widths and flags of the emulated machine, as values. */
module X86State {
  import opened Words
  import opened Bits

  /** Operand widths in bytes. */
  type width = w: int | w == 1 || w == 2 || w == 4 witness 4

  /** How many values a width holds. */
  function Size(w: width): (n: nat)
    ensures n == 256 || n == 65536 || n == 0x1_0000_0000
  {
    if w == 1 then 256 else if w == 2 then 65536 else 0x1_0000_0000
  }

  /** The two's-complement reading of a value of the width. */
  function SignedAt(v: word, w: width): int
    requires v < Size(w)
  {
    if v < Size(w) / 2 then v else v - Size(w)
  }

  function SignBit(w: width): nat {
    8 * w - 1
  }

  lemma SizeIsPower(w: width)
    ensures Pow2(SignBit(w) + 1) == Size(w) && Pow2(SignBit(w)) == Size(w) / 2
  {
    Powers();
  }

  lemma SignBitIsUpperHalf(v: nat, w: width)
    ensures Bit(v, SignBit(w)) == 1 <==> v % Size(w) >= Size(w) / 2
  {
    SizeIsPower(w);
    BitIsUpperHalf(v, SignBit(w));
  }

  // ---------- Registers ----------

  const EAX: regindex := 0
  const EDX: regindex := 2
  const ESP: regindex := 4
  const EBP: regindex := 5
  const AH: regindex := 4

  type regindex = r: int | 0 <= r < 8

  type Registers = g: seq<word> | |g| == 8 witness [0, 0, 0, 0, 0, 0, 0, 0]

  /** rtl_lr: a register by width; byte registers 4 to 7 are the second bytes of registers 0 to 3. */
  function ReadReg(g: Registers, r: regindex, w: width): (v: word)
    ensures v < Size(w)
  {
    if w == 4 then g[r]
    else if w == 2 then g[r] % 65536
    else if r < 4 then g[r] % 256
    else g[r - 4] / 256 % 256
  }

  /** x with its low 8 or 16 bits replaced. */
  function SetLow(x: word, v: word, m: nat): (y: word)
    requires m == 256 || m == 65536
    ensures y % m == v % m && y / m == x / m
  {
    x / m * m + v % m
  }

  /** x with its second byte replaced. */
  function SetSecond(x: word, v: word): (y: word)
    ensures y % 256 == x % 256 && y / 256 % 256 == v % 256 && y / 65536 == x / 65536
  {
    var upper := x / 65536 * 256 + v % 256;
    assert upper / 256 == x / 65536 && upper % 256 == v % 256;
    var y := upper * 256 + x % 256;
    assert y / 256 == upper;
    y
  }

  /** rtl_sr: storing by width leaves the other bytes of the register alone. */
  function WriteReg(g: Registers, r: regindex, v: word, w: width): Registers {
    if w == 4 then g[r := v]
    else if w == 2 then g[r := SetLow(g[r], v, 65536)]
    else if r < 4 then g[r := SetLow(g[r], v, 256)]
    else g[r - 4 := SetSecond(g[r - 4], v)]
  }

  /** The bytes of the register file that a register of a width covers. */
  function Covered(r: regindex, w: width): set<int> {
    if w == 4 then {4 * r, 4 * r + 1, 4 * r + 2, 4 * r + 3}
    else if w == 2 then {4 * r, 4 * r + 1}
    else if r < 4 then {4 * r}
    else {4 * (r - 4) + 1}
  }

  /** A stored register reads back modulo its width, and registers that share no byte with it keep their value. */
  lemma RegisterStore(g: Registers, r: regindex, v: word, w: width, r': regindex, w': width)
    ensures ReadReg(WriteReg(g, r, v, w), r, w) == v % Size(w)
    ensures Covered(r, w) !! Covered(r', w') ==> ReadReg(WriteReg(g, r, v, w), r', w') == ReadReg(g, r', w')
  {
    StoreReadsBack(g, r, v, w);
    if Covered(r, w) !! Covered(r', w') {
      StoreKeepsOthers(g, r, v, w, r', w');
    }
  }

  lemma StoreReadsBack(g: Registers, r: regindex, v: word, w: width)
    ensures ReadReg(WriteReg(g, r, v, w), r, w) == v % Size(w)
  {}

  lemma StoreKeepsOthers(g: Registers, r: regindex, v: word, w: width, r': regindex, w': width)
    requires Covered(r, w) !! Covered(r', w')
    ensures ReadReg(WriteReg(g, r, v, w), r', w') == ReadReg(g, r', w')
  {
    var home, home' := if w == 1 then r % 4 else r, if w' == 1 then r' % 4 else r';
    if home == home' {
      assert 4 * r in Covered(r, w) || w == 1;
      assert 4 * r' in Covered(r', w') || w' == 1;
      assert w == 1 && w' == 1;
      assert r < 4 ==> SetLow(g[r], v, 256) / 256 == g[r] / 256;
    }
  }

  /** A product or dividend at a narrow width is in AX or DX:AX. */
  function ReadWide(g: Registers, w: width): word
    requires w < 4
  {
    if w == 1 then ReadReg(g, EAX, 2) else ReadReg(g, EDX, 2) * 65536 + ReadReg(g, EAX, 2)
  }

  /** The register files differ at most in AX or DX:AX. */
  ghost predicate SameBut(g: Registers, g': Registers, w: width)
    requires w < 4
  {
    && g'[EAX] / 65536 == g[EAX] / 65536
    && g'[EDX] / 65536 == g[EDX] / 65536
    && (w == 1 ==> g'[EDX] == g[EDX])
    && forall r: regindex :: r != EAX && r != EDX ==> g'[r] == g[r]
  }

  /** Where 8- and 16-bit division leaves the remainder: AH or DX. */
  function Remainder(w: width): regindex {
    if w == 1 then AH else EDX
  }

  lemma StoredWide(g: Registers, g': Registers, v: word, w: width)
    requires w < 4 && v < Size(w) * Size(w)
    requires var g1 := WriteReg(g, EAX, v, 2); g' == if w == 1 then g1 else WriteReg(g1, EDX, v / 65536, 2)
    ensures ReadWide(g', w) == v && SameBut(g, g', w)
  {
    if w == 2 {
      StoredHalves(g, g', v, v / 65536);
      assert v / 65536 < 65536;
    }
  }

  lemma StoredHalves(g: Registers, g': Registers, lo: word, hi: word)
    requires g' == WriteReg(WriteReg(g, EAX, lo, 2), EDX, hi, 2)
    ensures ReadReg(g', EAX, 2) == lo % 65536 && ReadReg(g', EDX, 2) == hi % 65536 && SameBut(g, g', 2)
  {
    assert g'[EAX] == SetLow(g[EAX], lo, 65536) && g'[EDX] == SetLow(g[EDX], hi, 65536);
  }

  lemma StoredBytes(g: Registers, g': Registers, lo: word, hi: word)
    requires g' == WriteReg(WriteReg(g, EAX, lo, 1), AH, hi, 1)
    ensures ReadReg(g', EAX, 1) == lo % 256 && ReadReg(g', AH, 1) == hi % 256 && SameBut(g, g', 1)
  {
    var x := SetLow(g[EAX], lo, 256);
    assert g'[EAX] == SetSecond(x, hi);
    assert x / 65536 == x / 256 / 256 && g[EAX] / 65536 == g[EAX] / 256 / 256;
  }

  // ---------- Memory ----------

  /** The little-endian number in n bytes from an address. */
  function ReadMemory(m: seq<byte>, addr: nat, n: nat): nat
    requires addr + n <= |m|
  {
    Number256(m[addr..addr + n])
  }

  /** The low n bytes of a word. */
  function LowBytes(v: word, n: nat): (bs: seq<byte>)
    requires n <= 4
    ensures |bs| == n
  {
    LittleEndian(v)[..n]
  }

  function WriteMemory(m: seq<byte>, addr: nat, v: word, n: nat): (m': seq<byte>)
    requires n <= 4 && addr + n <= |m|
    ensures |m'| == |m|
  {
    m[..addr] + LowBytes(v, n) + m[addr + n..]
  }

  // ---------- Flags ----------

  datatype Flags = Flags(cf: bit, of_: bit, zf: bit, sf: bit)

  /** ZF and SF of a result of the width. */
  predicate ResultFlags(f: Flags, result: word, w: width) {
    && (f.zf == 1 <==> result % Size(w) == 0)
    && (f.sf == 1 <==> result % Size(w) >= Size(w) / 2)
  }

  /** Whether a signed number is outside the range of the width. */
  predicate Overflows(i: int, w: width) {
    !(-(Size(w) / 2) <= i < Size(w) / 2)
  }

  /** The flags that tell how d and s compare: those of d - s at the width. */
  predicate ComparisonFlags(f: Flags, d: word, s: word, w: width)
    requires d < Size(w) && s < Size(w)
  {
    && ResultFlags(f, Wrap(d - s), w)
    && (f.cf == 1 <==> d < s)
    && (f.of_ == 1 <==> Overflows(SignedAt(d, w) - SignedAt(s, w), w))
  }

  // ---------- Operands ----------

  /** A decoded operand; val is what was loaded from it, zero-extended. */
  datatype Operand =
    | RegOperand(reg: regindex, width: width, val: word)
    | MemOperand(addr: word, width: width, val: word)
    | ImmOperand(width: width, val: word)

  /** Operands that can be loaded and stored: registers, and bytes inside the memory. */
  predicate Storable(op: Operand, memorySize: nat) {
    op.RegOperand? || (op.MemOperand? && op.addr + op.width <= memorySize)
  }

  function StoreRegs(op: Operand, g: Registers, v: word): Registers {
    if op.RegOperand? then WriteReg(g, op.reg, v, op.width) else g
  }

  function StoreMemory(op: Operand, m: seq<byte>, v: word): seq<byte>
    requires Storable(op, |m|)
  {
    if op.MemOperand? then WriteMemory(m, op.addr, v, op.width) else m
  }
}
