/** Reading and setting QEMU's registers: their image in memory, as text inside packets. */
module RegisterTransfer {
  import opened Arithmetic
  import opened Words
  import opened Sequences
  import opened Packet
  import opened Link
  import opened Host

  // ---------- The value of digits ----------

  /** The value of pairs of digits, least significant byte first, up to the first pair that is none. */
  function HexValue(s: seq<byte>): nat {
    if |s| < 2 || DecodeHex(s[0], s[1]) == NOT_HEX then 0 else DecodeHex(s[0], s[1]) + 256 * HexValue(s[2..])
  }

  const TWO64: nat := 0x1_0000_0000_0000_0000

  function Power256(n: nat): nat {
    if n == 0 then 1 else 256 * Power256(n - 1)
  }

  method GdbDecodeHexStr(bytes: seq<byte>) returns (value: nat)
    ensures value == HexValue(bytes) % TWO64
  {
    value := 0;
    var weight: nat, p := 1, 0;
    assert bytes[0..] == bytes;
    while |bytes| - p >= 2 && DecodeHex(bytes[p], bytes[p + 1]) != NOT_HEX
      invariant p <= |bytes| && value < TWO64
      invariant StillToRead(value, weight, bytes, p) == HexValue(bytes) % TWO64
      decreases |bytes| - p
    {
      var digit := DecodeHex(bytes[p], bytes[p + 1]);
      DecodeOne(value, weight, bytes, p);
      value := (value + weight * digit) % TWO64;
      weight := weight * 256 % TWO64;
      p := p + 2;
    }
    assert HexValue(bytes[p..]) == 0;
  }

  /** The value so far plus the weighted value of the rest. */
  ghost function StillToRead(value: nat, weight: nat, bytes: seq<byte>, p: nat): int
    requires p <= |bytes|
  {
    (value + weight * HexValue(bytes[p..])) % TWO64
  }

  /** One round of the decoding loop. */
  lemma DecodeOne(value: nat, weight: nat, bytes: seq<byte>, p: nat)
    requires p + 2 <= |bytes| && DecodeHex(bytes[p], bytes[p + 1]) != NOT_HEX
    ensures var digit := DecodeHex(bytes[p], bytes[p + 1]);
            StillToRead((value + weight * digit) % TWO64, weight * 256 % TWO64, bytes, p + 2) ==
            StillToRead(value, weight, bytes, p)
  {
    assert bytes[p..][2..] == bytes[p + 2..];
    DecodeStep(value, weight, DecodeHex(bytes[p], bytes[p + 1]), HexValue(bytes[p + 2..]));
  }

  lemma DecodeStep(value: nat, weight: nat, digit: nat, rest: nat)
    ensures ((value + weight * digit) % TWO64 + (weight * 256 % TWO64) * rest) % TWO64 ==
            (value + weight * (digit + 256 * rest)) % TWO64
  {
    var (a, b) := (value + weight * digit, weight * 256);
    var (p, q) := (a / TWO64, b / TWO64);
    assert a % TWO64 == a - p * TWO64 && b % TWO64 == b - q * TWO64;
    calc {
      a % TWO64 + (b % TWO64) * rest;
      a - p * TWO64 + (b - q * TWO64) * rest;
      { MulDistributes(b, q * TWO64, rest); }
      a - p * TWO64 + (b * rest - q * TWO64 * rest);
      { assert q * TWO64 * rest == q * rest * TWO64; }
      a + b * rest - (p * TWO64 + q * rest * TWO64);
      { MulDistributes(p, q * rest, TWO64); }
      a + b * rest + (-(p + q * rest)) * TWO64;
    }
    ModShift(a + b * rest, -(p + q * rest), TWO64);
    assert weight * (digit + 256 * rest) == weight * digit + b * rest by {
      assert weight * (256 * rest) == b * rest;
    }
  }

  // ---------- Register files ----------

  const BUFFER: nat := 4096

  /** A zero byte ends the digits. */
  lemma {:induction false} HexValueStops(s: seq<byte>, k: nat)
    requires k < |s| && s[k] == 0
    ensures HexValue(s) == HexValue(s[..k])
    decreases |s|
  {
    if k >= 2 && DecodeHex(s[0], s[1]) != NOT_HEX {
      HexValueStops(s[2..], k - 2);
      assert s[2..][..k - 2] == s[..k][2..];
    }
  }

  /** The reply in its buffer: it is terminated, and what follows is unknown. */
  ghost predicate Holds(buffer: seq<byte>, reply: seq<byte>) {
    |reply| < |buffer| && buffer[..|reply|] == reply && buffer[|reply|] == 0
  }

  /** The digits a reply has for a register that starts inside it: eight, or what is left. */
  function RegisterDigits(reply: seq<byte>, i: nat): seq<byte>
    requires 8 * i <= |reply|
  {
    if 8 * i + 8 <= |reply| then reply[8 * i..8 * i + 8] else reply[8 * i..]
  }

  lemma RegisterFromReply(buffer: seq<byte>, reply: seq<byte>, i: nat)
    requires Holds(buffer, reply) && 8 * i <= |reply| && 8 * i + 8 <= |buffer|
    ensures HexValue(buffer[8 * i..8 * i + 8]) == HexValue(RegisterDigits(reply, i))
  {
    var p := 8 * i;
    if p + 8 > |reply| {
      var s, k := buffer[p..p + 8], |reply| - p;
      HexValueStops(s, k);
      PrefixSlice(buffer, |reply|, p, |reply|);
      assert s[..k] == buffer[p..|reply|];
    } else {
      PrefixSlice(buffer, |reply|, p, p + 8);
    }
  }

  /** The loop over the registers: eight digits at a time are cut off by a zero byte, which is taken back afterwards. */
  method DecodeRegs(buffer: array<byte>, r: array<word>)
    requires 8 * r.Length < buffer.Length && buffer as object != r
    modifies buffer, r
    ensures buffer[..] == old(buffer[..])
    ensures forall i | 0 <= i < r.Length :: r[i] == Wrap(HexValue(buffer[8 * i..8 * i + 8]) % TWO64)
  {
    var i := 0;
    while i < r.Length
      invariant 0 <= i <= r.Length && buffer[..] == old(buffer[..])
      invariant forall j | 0 <= j < i :: r[j] == Wrap(HexValue(old(buffer[..])[8 * j..8 * j + 8]) % TWO64)
    {
      var p := 8 * i;
      ghost var digits := buffer[..][p..p + 8];
      var c := buffer[p + 8];
      buffer[p + 8] := 0;
      HexValueStops(buffer[p..], 8);
      assert buffer[p..][..8] == digits;
      var value := GdbDecodeHexStr(buffer[p..]);
      r[i] := Wrap(value);
      buffer[p + 8] := c;
      assert buffer[..] == old(buffer[..]);
      i := i + 1;
    }
    forall j | 0 <= j < r.Length ensures buffer[8 * j..8 * j + 8] == old(buffer[..])[8 * j..8 * j + 8] {}
  }

  /** What a register that starts inside a reply is decoded to. */
  function RegisterOf(reply: seq<byte>, i: nat): word
    requires 8 * i <= |reply|
  {
    Wrap(HexValue(RegisterDigits(reply, i)) % TWO64)
  }

  /** A reply is decoded in the buffer it was received in; heap is what that happened to hold. */
  method DecodeReply(reply: seq<byte>, heap: seq<byte>, r: array<word>)
    requires |heap| == BUFFER && 8 * r.Length < BUFFER
    modifies r
    ensures forall i | 0 <= i < r.Length && 8 * i <= |reply| :: r[i] == RegisterOf(reply, i)
  {
    var text := reply + [0];
    var content := text + (if |text| < BUFFER then heap[|text|..] else []);
    var buffer := new byte[|content|](i requires 0 <= i < |content| => content[i]);
    assert buffer[..] == content;
    assert Holds(content, reply) by {
      assert content[..|reply|] == reply;
    }
    DecodeRegs(buffer, r);
    forall i | 0 <= i < r.Length && 8 * i <= |reply|
      ensures r[i] == RegisterOf(reply, i)
    {
      RegisterFromReply(content, reply, i);
    }
  }

  /** Asks for the registers and decodes the reply. Registers it does not reach are decoded from the heap. */
  method GdbGetRegs(conn: Connection, arriving: seq<byte>, heap: seq<byte>, r: array<word>) returns (reply: Reply)
    requires conn.ack && |heap| == BUFFER && 8 * r.Length < BUFFER
    modifies conn, r
    ensures var input := old(conn.incoming) + arriving;
            var e := ReceiveAcked(input[AnswersRead(input)..]);
            conn.ack && reply == e.reply && conn.incoming == e.rest
    ensures reply.Received? ==>
      forall i | 0 <= i < r.Length && 8 * i <= |reply.payload| :: r[i] == RegisterOf(reply.payload, i)
  {
    reply := Roundtrip(conn, [GET], arriving);
    if reply.Received? {
      DecodeReply(reply.payload, heap, r);
    }
  }

  lemma {:induction false} HexValueOfBytes(bs: seq<byte>)
    ensures HexValue(HexString(bs)) == Number256(bs)
  {
    if bs != [] {
      DecodeEncoded(bs[0]);
      assert HexString(bs)[2..] == HexString(bs[1..]);
      HexValueOfBytes(bs[1..]);
    }
  }

  lemma {:induction false} HexStringAppend(a: seq<byte>, b: seq<byte>)
    ensures HexString(a + b) == HexString(a) + HexString(b) && |HexString(a)| == 2 * |a|
  {
    if a == [] {
      assert a + b == b;
    } else {
      assert (a + b)[1..] == a[1..] + b;
      HexStringAppend(a[1..], b);
    }
  }

  lemma {:induction false} ImageOfRegister(regs: seq<word>, i: nat)
    requires i < |regs|
    ensures var text := HexString(MemoryImage(regs));
            |text| == 8 * |regs| && text[8 * i..8 * i + 8] == HexString(LittleEndian(regs[i]))
    decreases |regs|
  {
    var first, more := HexString(LittleEndian(regs[0])), HexString(MemoryImage(regs[1..]));
    HexStringAppend(LittleEndian(regs[0]), MemoryImage(regs[1..]));
    var text := HexString(MemoryImage(regs));
    assert text == first + more && |first| == 8;
    if |regs| > 1 {
      ImageOfRegister(regs[1..], if i == 0 then 0 else i - 1);
      if i > 0 {
        assert text[8 * i..8 * i + 8] == more[8 * (i - 1)..8 * (i - 1) + 8];
      }
    }
    if i == 0 {
      assert text[0..8] == first;
    }
  }

  lemma DigitsOfRegister(w: word, digits: seq<byte>)
    requires digits == HexString(LittleEndian(w))
    ensures Wrap(HexValue(digits) % TWO64) == w
  {
    HexValueOfBytes(LittleEndian(w));
    LittleEndianNumber(w);
    DivModUnique(w, TWO64, 0, w);
    DivModUnique(w, MODULUS, 0, w);
  }

  /** A register file of any size, sent as hexadecimal bytes of its memory, is decoded to the same words. */
  lemma RegistersRoundTrip(regs: seq<word>, i: nat)
    requires i < |regs|
    ensures var text := HexString(MemoryImage(regs));
            |text| == 8 * |regs| && Wrap(HexValue(text[8 * i..8 * i + 8]) % TWO64) == regs[i]
  {
    ImageOfRegister(regs, i);
    DigitsOfRegister(regs[i], HexString(MemoryImage(regs))[8 * i..8 * i + 8]);
  }

  // ---------- With the stub on the other side ----------

  lemma ImageRegister(regs: seq<word>, i: nat)
    requires i < |regs|
    ensures var reply := HexString(MemoryImage(regs)); 8 * i <= |reply| && RegisterOf(reply, i) == regs[i]
  {
    RegistersRoundTrip(regs, i);
  }

  lemma GetArrives()
    ensures ReceivePacket(Sent([GET])) == Reading(Received([GET], true), [])
  {
    var none := Prelude([], []);
    assert PreludeBytes(none) + Sent([GET]) + [] == Sent([GET]);
    SentIsReceived(none, [GET], []);
  }

  /** gdb_getregs from the stub: the registers are the stub's. */
  method FetchRegs(conn: Connection, qemu: Qemu, heap: seq<byte>, r: array<word>)
    requires Idle(conn) && |heap| == BUFFER && 8 * r.Length < BUFFER && r.Length == |qemu.state.regs|
    modifies conn, qemu, r
    ensures Idle(conn) && qemu.state == old(qemu.state) && r[..] == qemu.state.regs
  {
    ghost var regs := qemu.state.regs;
    GetArrives();
    HexStringIsPlain(MemoryImage(regs));
    AnswerIsReceived(HexString(MemoryImage(regs)));
    var arriving := qemu.Answer(Sent([GET]));
    assert [] + arriving == arriving;
    var reply := GdbGetRegs(conn, arriving, heap, r);
    forall i | 0 <= i < |regs| ensures r[i] == regs[i] {
      ImageRegister(regs, i);
    }
  }

  lemma FirstWord(four: seq<byte>, more: seq<byte>)
    requires |four| == 4
    ensures WordsOf(four + more) == [Wrap(Number256(four))] + WordsOf(more)
  {
    assert (four + more)[..4] == four && (four + more)[4..] == more;
  }

  lemma WrapsToItself(w: word)
    ensures Wrap(Number256(LittleEndian(w))) == w
  {
    LittleEndianNumber(w);
    DivModUnique(w, MODULUS, 0, w);
  }

  lemma {:induction false} WordsOfImage(regs: seq<word>)
    ensures |MemoryImage(regs)| == 4 * |regs| && WordsOf(MemoryImage(regs)) == regs
  {
    if regs != [] {
      WordsOfImage(regs[1..]);
      WrapsToItself(regs[0]);
      FirstWord(LittleEndian(regs[0]), MemoryImage(regs[1..]));
      assert [regs[0]] + regs[1..] == regs;
    }
  }

  lemma ImageIsLoaded(before: seq<word>, regs: seq<word>)
    ensures Loaded(before, HexString(MemoryImage(regs))) == if |regs| == |before| then (OK, regs) else (ERROR, before)
  {
    BytesAreRead(MemoryImage(regs));
    WordsOfImage(regs);
  }

  lemma SetIsLoad(s: Remote, limit: word, text: seq<byte>)
    ensures Served(s, limit, [SET] + text) == (Loaded(s.regs, text).0, s.(regs := Loaded(s.regs, text).1))
  {
    var command := [SET] + text;
    assert command[0] == SET && command[1..] == text;
  }

  /** What the stub makes of the command that sets registers: all of them, or nothing. */
  lemma SetIsServed(s: Remote, limit: word, regs: seq<word>)
    ensures var command := [SET] + HexString(MemoryImage(regs));
            && PlainBytes(command)
            && Served(s, limit, command) == if |regs| == |s.regs| then (OK, s.(regs := regs)) else (ERROR, s)
  {
    HexStringIsPlain(MemoryImage(regs));
    SetIsLoad(s, limit, HexString(MemoryImage(regs)));
    ImageIsLoaded(s.regs, regs);
  }

  method GdbSetRegs(conn: Connection, qemu: Qemu, r: array<word>) returns (ok: bool)
    requires Idle(conn)
    modifies conn, qemu
    ensures Idle(conn) && (ok <==> r.Length == |old(qemu.state.regs)|)
    ensures qemu.state == if ok then old(qemu.state).(regs := r[..]) else old(qemu.state)
  {
    SetIsServed(qemu.state, qemu.limit, r[..]);
    var buf := AppendHex([SET], MemoryImage(r[..]));
    var reply := Ask(conn, qemu, buf);
    ok := reply == OK;
  }

  /** Registers that were set are read back over the link. */
  method SetThenGet(conn: Connection, qemu: Qemu, heap: seq<byte>, r: array<word>, back: array<word>)
    requires Idle(conn) && |heap| == BUFFER && 8 * r.Length < BUFFER && r != back
    requires r.Length == back.Length == |qemu.state.regs|
    modifies conn, qemu, back
    ensures Idle(conn) && back[..] == r[..] == qemu.state.regs && qemu.state.memory == old(qemu.state.memory)
  {
    var ok := GdbSetRegs(conn, qemu, r);
    FetchRegs(conn, qemu, heap, back);
  }

  /** Some of the first registers are replaced by the emulator's; QEMU keeps the others. */
  method DifftestSetRegs(conn: Connection, qemu: Qemu, heap: seq<byte>, r: seq<word>, n: nat)
    requires Idle(conn) && |heap| == BUFFER && 8 * n < BUFFER && |r| <= n == |qemu.state.regs|
    modifies conn, qemu
    ensures Idle(conn) && qemu.state == old(qemu.state).(regs := r + old(qemu.state.regs)[|r|..])
  {
    var qemuR := new word[n];
    FetchRegs(conn, qemu, heap, qemuR);
    ghost var regs := qemuR[..];
    forall i | 0 <= i < |r| {
      qemuR[i] := r[i];
    }
    assert qemuR[..] == r + regs[|r|..];
    var ok := GdbSetRegs(conn, qemu, qemuR);
  }
}
