/** Copying memory to QEMU in chunks, as text inside packets, and a stub that executes what it is sent. */
module Host {
  import opened Options
  import opened Words
  import opened Sequences
  import opened Packet
  import opened Link

  const OK: seq<byte> := [0x4F, 0x4B]
  const ERROR: seq<byte> := [0x45, 0x31, 0x34]
  const M: byte := 0x4D
  const ZERO: byte := 0x30
  const X: byte := 0x78
  const COMMA: byte := 0x2C
  const COLON: byte := 0x3A
  const GET: byte := 0x67
  const SET: byte := 0x47

  // ---------- Numbers and bytes as text ----------

  /** printf's "%x". */
  function HexText(n: nat): (s: seq<byte>)
    ensures s != [] && forall b | b in s :: IsHex(b)
  {
    if n < 16 then [HexEncode(n)] else HexText(n / 16) + [HexEncode(n % 16)]
  }

  /** Two digits for every byte. */
  function HexString(bs: seq<byte>): seq<byte> {
    if bs == [] then [] else [HexEncode(bs[0] / 16), HexEncode(bs[0] % 16)] + HexString(bs[1..])
  }

  /** The command that writes data at an address. */
  function WriteCommand(dest: word, data: seq<byte>): seq<byte> {
    [M, ZERO, X] + HexText(dest) + ([COMMA] + HexText(|data|) + ([COLON] + HexString(data)))
  }

  // ---------- The remote side ----------

  type Memory = map<word, byte>

  function WriteBytes(m: Memory, dest: word, data: seq<byte>): Memory
    decreases data
  {
    if data == [] then m else WriteBytes(m[dest := data[0]], Wrap(dest + 1), data[1..])
  }

  /** Reads hexadecimal digits as far as they go, most significant first. */
  function ReadDigits(acc: nat, s: seq<byte>): (nat, seq<byte>)
    decreases s
  {
    if s != [] && IsHex(s[0]) then ReadDigits(16 * acc + HexNibble(s[0]), s[1..]) else (acc, s)
  }

  /** A hexadecimal number with an optional 0x in front. */
  function ReadNumber(s: seq<byte>): (nat, seq<byte>) {
    ReadDigits(0, if |s| > 2 && s[0] == ZERO && s[1] == X && IsHex(s[2]) then s[2..] else s)
  }

  function ReadBytes(s: seq<byte>): Option<seq<byte>> {
    if s == [] then Some([])
    else if |s| < 2 || DecodeHex(s[0], s[1]) == NOT_HEX then None
    else match ReadBytes(s[2..])
      case None => None
      case Some(more) => Some([DecodeHex(s[0], s[1])] + more)
  }

  /** The address and data of a write command. */
  function ParseWrite(command: seq<byte>): Option<(nat, seq<byte>)> {
    if command == [] || command[0] != M then None
    else
      var (addr, s) := ReadNumber(command[1..]);
      if s == [] || s[0] != COMMA then None
      else
        var (len, t) := ReadNumber(s[1..]);
        if t == [] || t[0] != COLON then None
        else match ReadBytes(t[1..])
          case Some(data) => if |data| == len then Some((addr, data)) else None
          case None => None
  }

  /** A register file in memory. */
  function MemoryImage(regs: seq<word>): seq<byte> {
    if regs == [] then [] else LittleEndian(regs[0]) + MemoryImage(regs[1..])
  }

  function WordsOf(bs: seq<byte>): seq<word> {
    if |bs| < 4 then [] else [Wrap(Number256(bs[..4]))] + WordsOf(bs[4..])
  }

  /** What the stub makes of a command that writes memory: the reply and the new memory. */
  function Written(m: Memory, limit: word, command: seq<byte>): (seq<byte>, Memory) {
    match ParseWrite(command)
    case None => (ERROR, m)
    case Some((addr, data)) =>
      if addr + |data| <= limit then (OK, WriteBytes(m, addr, data)) else (ERROR, m)
  }

  /** And of the image of a register file: the reply and the new registers. */
  function Loaded(regs: seq<word>, text: seq<byte>): (seq<byte>, seq<word>) {
    match ReadBytes(text)
    case None => (ERROR, regs)
    case Some(bs) => if |bs| == 4 * |regs| then (OK, WordsOf(bs)) else (ERROR, regs)
  }

  datatype Remote = Remote(memory: Memory, regs: seq<word>)

  /** What the stub makes of a command. */
  function Served(s: Remote, limit: word, command: seq<byte>): (seq<byte>, Remote) {
    if command == [GET] then (HexString(MemoryImage(s.regs)), s)
    else if command != [] && command[0] == SET then
      var (reply, regs) := Loaded(s.regs, command[1..]);
      (reply, s.(regs := regs))
    else
      var (reply, memory) := Written(s.memory, limit, command);
      (reply, s.(memory := memory))
  }

  /** A stub that executes writes below its memory limit, and reads and sets registers. */
  class Qemu {
    var state: Remote
    const limit: word

    constructor (limit: word, regs: seq<word>)
      ensures state == Remote(map[], regs) && this.limit == limit
    {
      state, this.limit := Remote(map[], regs), limit;
    }

    /** Reads a packet off the wire and sends an acknowledgement and the reply, or refuses it. */
    method Answer(wire: seq<byte>) returns (bytes: seq<byte>)
      modifies this
      ensures var r := ReceivePacket(wire).reply;
              if r.Received? && r.sumOk
              then var (reply, s) := Served(old(state), limit, r.payload);
                   bytes == [PLUS] + Sent(reply) && state == s
              else bytes == (if r.Closed? then [] else [MINUS]) && state == old(state)
    {
      bytes := [];
      match ReceivePacket(wire).reply {
        case Closed =>
        case Received(command, sumOk) =>
          if !sumOk {
            bytes := [MINUS];
          } else {
            var (reply, s) := Served(state, limit, command);
            state := s;
            bytes := [PLUS] + Sent(reply);
          }
      }
    }
  }

  // ---------- The client ----------

  const MTU: nat := 1500

  /** The connection has no unread input and acknowledges. */
  ghost predicate Idle(conn: Connection)
    reads conn
  {
    conn.ack && conn.incoming == []
  }

  /** Two digits for every byte are appended to a command. */
  method AppendHex(head: seq<byte>, src: seq<byte>) returns (buf: seq<byte>)
    ensures buf == head + HexString(src)
  {
    buf := head;
    var i := 0;
    assert src[0..] == src;
    while i < |src|
      invariant 0 <= i <= |src|
      invariant buf + HexString(src[i..]) == head + HexString(src)
    {
      assert src[i..][1..] == src[i + 1..];
      Associative(buf, [HexEncode(src[i] / 16), HexEncode(src[i] % 16)], HexString(src[i + 1..]));
      buf := buf + [HexEncode(src[i] / 16), HexEncode(src[i] % 16)];
      i := i + 1;
    }
    assert buf + [] == buf;
  }

  method FormatWrite(dest: word, src: seq<byte>) returns (buf: seq<byte>)
    ensures buf == WriteCommand(dest, src)
  {
    buf := [M, ZERO, X] + HexText(dest) + ([COMMA] + HexText(|src|) + [COLON]);
    buf := AppendHex(buf, src);
  }

  /** gdb_send, then gdb_recv, over what arrives in the meantime. */
  method Roundtrip(conn: Connection, command: seq<byte>, arriving: seq<byte>) returns (reply: Reply)
    requires conn.ack
    modifies conn
    ensures var input := old(conn.incoming) + arriving;
            var e := ReceiveAcked(input[AnswersRead(input)..]);
            && conn.ack && reply == e.reply && conn.incoming == e.rest
            && conn.outgoing == old(conn.outgoing) + Times(Sent(command), Transmissions(input)) + e.answers
    ensures reply.Received? ==> reply.sumOk
  {
    conn.incoming := conn.incoming + arriving;
    var acked := conn.GdbSend(command);
    reply := conn.GdbRecv();
  }

  /** An answered exchange: the `+`, then the reply in a packet, which is acknowledged in turn. */
  lemma AnswerIsReceived(reply: seq<byte>)
    requires PlainBytes(reply)
    ensures var arriving := [PLUS] + Sent(reply);
            && AnswersRead(arriving) == 1 && Transmissions(arriving) == 1
            && arriving[1..] == Sent(reply)
            && ReceiveAcked(Sent(reply)) == Exchange(Received(reply, true), [PLUS], [])
  {
    var none := Prelude([], []);
    assert PreludeBytes(none) + Sent(reply) + [] == Sent(reply);
    SentIsReceived(none, reply, []);
  }

  /** A command without special bytes, put to the stub and answered. */
  method Ask(conn: Connection, qemu: Qemu, command: seq<byte>) returns (reply: seq<byte>)
    requires Idle(conn) && PlainBytes(command) && PlainBytes(Served(qemu.state, qemu.limit, command).0)
    modifies conn, qemu
    ensures Idle(conn) && (reply, qemu.state) == Served(old(qemu.state), qemu.limit, command)
    ensures conn.outgoing == old(conn.outgoing) + Sent(command) + [PLUS]
  {
    var none := Prelude([], []);
    assert PreludeBytes(none) + Sent(command) + [] == Sent(command);
    SentIsReceived(none, command, []);
    AnswerIsReceived(Served(qemu.state, qemu.limit, command).0);
    TimesOne(Sent(command));
    var arriving := qemu.Answer(Sent(command));
    assert [] + arriving == arriving;
    var r := Roundtrip(conn, command, arriving);
    reply := r.payload;
  }

  /** The memory after a write that succeeds or is refused. */
  function AfterWrite(s: Remote, dest: word, src: seq<byte>, ok: bool): Remote {
    if ok then s.(memory := WriteBytes(s.memory, dest, src)) else s
  }

  /** One write command over the link. What QEMU answers while the client waits is put into its input beforehand. */
  method GdbMemcpyToQemuSmall(conn: Connection, qemu: Qemu, dest: word, src: seq<byte>) returns (ok: bool)
    requires Idle(conn)
    modifies conn, qemu
    ensures Idle(conn)
    ensures ok <==> dest + |src| <= qemu.limit
    ensures qemu.state == AfterWrite(old(qemu.state), dest, src, ok)
    ensures conn.outgoing == old(conn.outgoing) + Sent(WriteCommand(dest, src)) + [PLUS]
  {
    var buf := FormatWrite(dest, src);
    WriteIsPlain(dest, src);
    WriteIsParsed(dest, src);
    var reply := Ask(conn, qemu, buf);
    ok := reply == OK;
  }

  /** A copy of any length leaves the remote memory as one whole write would, if every chunk succeeds. */
  method GdbMemcpyToQemu(conn: Connection, qemu: Qemu, dest: word, src: seq<byte>) returns (ok: bool)
    requires Idle(conn)
    modifies conn, qemu
    ensures Idle(conn)
    ensures ok ==> qemu.state == AfterWrite(old(qemu.state), dest, src, true)
    ensures dest + |src| <= qemu.limit ==> ok
  {
    ok := true;
    var d, done := dest, 0;
    while |src| - done > MTU
      invariant 0 <= done <= |src| && d == Wrap(dest + done) && Idle(conn)
      invariant ok ==> qemu.state == AfterWrite(old(qemu.state), dest, src[..done], true)
      invariant dest + |src| <= qemu.limit ==> ok
      decreases |src| - done
    {
      NextChunk(old(qemu.state.memory), dest, src, done, done + MTU);
      var sent := GdbMemcpyToQemuSmall(conn, qemu, d, src[done..done + MTU]);
      ok := ok && sent;
      d, done := Wrap(d + MTU), done + MTU;
    }
    NextChunk(old(qemu.state.memory), dest, src, done, |src|);
    assert src[..|src|] == src && src[done..|src|] == src[done..];
    var sent := GdbMemcpyToQemuSmall(conn, qemu, d, src[done..]);
    ok := ok && sent;
  }

  lemma NextChunk(m: Memory, dest: word, src: seq<byte>, done: nat, next: nat)
    requires done <= next <= |src|
    ensures WriteBytes(WriteBytes(m, dest, src[..done]), Wrap(dest + done), src[done..next]) ==
            WriteBytes(m, dest, src[..next])
    ensures Wrap(Wrap(dest + done) + (next - done)) == Wrap(dest + next)
    ensures dest + |src| < MODULUS ==> Wrap(dest + done) == dest + done
  {
    WriteAppend(m, dest, src[..done], src[done..next]);
    assert src[..done] + src[done..next] == src[..next];
    WrapStep(dest + done, next - done);
  }

  lemma WrapStep(a: int, b: int)
    ensures Wrap(Wrap(a) + b) == Wrap(a + b)
  {}

  /** Two adjacent writes are one write of the joined data, also when they wrap around or overlap. */
  lemma {:induction false} WriteAppend(m: Memory, dest: word, a: seq<byte>, b: seq<byte>)
    ensures WriteBytes(WriteBytes(m, dest, a), Wrap(dest + |a|), b) == WriteBytes(m, dest, a + b)
    decreases a
  {
    if a == [] {
      assert a + b == b;
    } else {
      assert (a + b)[1..] == a[1..] + b;
      WrapStep(dest + 1, |a| - 1);
      WriteAppend(m[dest := a[0]], Wrap(dest + 1), a[1..], b);
    }
  }

  // ---------- The remote side reads what the client wrote ----------

  lemma {:induction false} DigitsAreRead(n: nat, rest: seq<byte>)
    ensures ReadDigits(0, HexText(n) + rest) == ReadDigits(n, rest)
  {
    var last := HexEncode(n % 16);
    if n < 16 {
      assert (HexText(n) + rest)[1..] == rest;
    } else {
      var tail := [last] + rest;
      assert HexText(n) + rest == HexText(n / 16) + tail;
      DigitsAreRead(n / 16, tail);
      assert tail[0] == last && tail[1..] == rest;
      assert HexNibble(last) == n % 16;
    }
  }

  lemma NumberIsRead(n: nat, rest: seq<byte>)
    requires rest != [] && !IsHex(rest[0]) && rest[0] != X
    ensures ReadNumber(HexText(n) + rest) == (n, rest)
  {
    var s := HexText(n) + rest;
    DigitsAreRead(n, rest);
    if |HexText(n)| > 1 {
      assert s[1] == HexText(n)[1] && HexText(n)[1] in HexText(n);
    } else {
      assert s[1] == rest[0];
    }
  }

  lemma PrefixDropped(s: seq<byte>)
    requires s != [] && IsHex(s[0])
    ensures ReadNumber([ZERO, X] + s) == ReadDigits(0, s)
  {
    assert ([ZERO, X] + s)[2..] == s;
  }

  lemma PrefixedNumberIsRead(n: nat, rest: seq<byte>)
    ensures ReadNumber([ZERO, X] + HexText(n) + rest) == ReadDigits(n, rest)
  {
    DigitsAreRead(n, rest);
    PrefixDropped(HexText(n) + rest);
    Associative([ZERO, X], HexText(n), rest);
  }

  lemma {:induction false} BytesAreRead(bs: seq<byte>)
    ensures ReadBytes(HexString(bs)) == Some(bs)
  {
    if bs != [] {
      var s := HexString(bs);
      assert s[2..] == HexString(bs[1..]);
      BytesAreRead(bs[1..]);
      DecodeEncoded(bs[0]);
      assert [bs[0]] + bs[1..] == bs;
    }
  }

  lemma WriteIsParsed(dest: word, data: seq<byte>)
    ensures ParseWrite(WriteCommand(dest, data)) == Some((dest, data))
  {
    var body := [COLON] + HexString(data);
    var tail := [COMMA] + HexText(|data|) + body;
    var command := WriteCommand(dest, data);
    assert command[1..] == [ZERO, X] + HexText(dest) + tail;
    PrefixedNumberIsRead(dest, tail);
    assert tail[1..] == HexText(|data|) + body;
    NumberIsRead(|data|, body);
    assert body[1..] == HexString(data);
    BytesAreRead(data);
  }

  lemma {:induction false} HexStringIsPlain(bs: seq<byte>)
    ensures PlainBytes(HexString(bs))
  {
    if bs != [] {
      HexStringIsPlain(bs[1..]);
    }
  }

  lemma WriteIsPlain(dest: word, data: seq<byte>)
    ensures PlainBytes(WriteCommand(dest, data))
  {
    HexStringIsPlain(data);
  }

  /** A write command holds no special byte, so the link delivers it unchanged to the remote side. */
  lemma CommandArrives(dest: word, data: seq<byte>, rest: seq<byte>)
    ensures var r := ReceivePacket(Sent(WriteCommand(dest, data)) + rest);
            r == Reading(Received(WriteCommand(dest, data), true), rest)
  {
    var none := Prelude([], []);
    WriteIsPlain(dest, data);
    SentIsReceived(none, WriteCommand(dest, data), rest);
    assert PreludeBytes(none) + Sent(WriteCommand(dest, data)) == Sent(WriteCommand(dest, data));
  }
}
