/**
 Packets of the GDB remote serial protocol as the QEMU client reads and writes them: framing, checksum,
 escapes, run-length encoding and resynchronisation (section E.1, Overview, of the GDB Remote Serial
 Protocol appendix of the GDB manual). This module gives what the reader computes on a byte stream, an
 independent description of encodings, and the lemmas that connect the two.
 */
module Packet {
  import opened Words

  const DOLLAR: byte := 0x24
  const HASH: byte := 0x23
  const BRACE: byte := 0x7D
  const STAR: byte := 0x2A
  const PLUS: byte := 0x2B
  const MINUS: byte := 0x2D

  predicate Special(b: byte) {
    b in {DOLLAR, HASH, BRACE, STAR}
  }

  /** b ^ 0x20. */
  function Flip(b: byte): (f: byte)
    ensures f != b && (f == b + 32 || f == b - 32)
  {
    if (b / 32) % 2 == 1 then b - 32 else b + 32
  }

  lemma FlipInvolutive(b: byte)
    ensures Flip(Flip(b)) == b
  {}

  // ---------- Hexadecimal ----------

  predicate IsHex(b: byte) {
    0x30 <= b <= 0x39 || 0x41 <= b <= 0x46 || 0x61 <= b <= 0x66
  }

  function HexNibble(b: byte): (n: nat)
    requires IsHex(b)
    ensures n < 16
  {
    if b <= 0x39 then b - 0x30 else if b <= 0x46 then b - 0x41 + 10 else b - 0x61 + 10
  }

  const NOT_HEX: int := 0xFFFF

  /** The byte two digits stand for, or UINT16_MAX, which is no byte. */
  function DecodeHex(msb: byte, lsb: byte): int {
    if IsHex(msb) && IsHex(lsb) then 16 * HexNibble(msb) + HexNibble(lsb) else NOT_HEX
  }

  /** Lower-case digit. */
  function HexEncode(d: nat): byte
    requires d < 16
  {
    if d > 9 then 0x61 + d - 10 else 0x30 + d
  }

  /** Upper-case digit, as in printf's "%02X". */
  function HexUpper(d: nat): byte
    requires d < 16
  {
    if d > 9 then 0x41 + d - 10 else 0x30 + d
  }

  lemma DecodeEncoded(b: byte)
    ensures DecodeHex(HexEncode(b / 16), HexEncode(b % 16)) == b
    ensures DecodeHex(HexUpper(b / 16), HexUpper(b % 16)) == b
  {}

  // ---------- The reader ----------

  datatype Reply = Closed | Received(payload: seq<byte>, sumOk: bool)

  /** What the reader returns and which bytes it leaves unread. */
  datatype Reading = Reading(reply: Reply, rest: seq<byte>)

  function Add(sum: byte, b: byte): byte {
    (sum + b) % 256
  }

  /** Count characters that may follow `*`. */
  predicate ValidCount(b: byte) {
    29 <= b <= 126 && b != DOLLAR && b != HASH
  }

  function Repeat(b: byte, n: nat): (s: seq<byte>)
    ensures |s| == n && forall i | 0 <= i < n :: s[i] == b
  {
    seq(n, _ => b)
  }

  /** A `*` here repeats the last byte: there is one, and a valid count follows. */
  predicate StartsRun(in_: seq<byte>, reply: seq<byte>) {
    |in_| > 1 && in_[0] == STAR && reply != [] && ValidCount(in_[1])
  }

  /** The digits after `#`; beyond the end of the stream the reader sees 0xFF. */
  function Peek(in_: seq<byte>, i: nat): byte {
    if i < |in_| then in_[i] else 0xFF
  }

  /** The main loop of the reader in the middle of a packet. */
  function Receive(in_: seq<byte>, reply: seq<byte>, sum: byte, escape: bool): Reading
    decreases |in_|
  {
    if in_ == [] then Reading(Closed, [])
    else
      var c := in_[0];
      if c == DOLLAR then Receive(in_[1..], [], 0, false)
      else if c == HASH then
        Reading(Received(reply, sum == DecodeHex(Peek(in_, 1), Peek(in_, 2))), if |in_| < 3 then [] else in_[3..])
      else if c == BRACE then Receive(in_[1..], reply, Add(sum, c), true)
      else if StartsRun(in_, reply) then
        Receive(in_[2..], reply + Repeat(reply[|reply| - 1], in_[1] - 29), Add(Add(sum, c), in_[1]), escape)
      else Receive(in_[1..], reply + [if escape then Flip(c) else c], Add(sum, c), false)
  }

  /** The whole reader: skip to the first `$`, then read a packet. */
  function ReceivePacket(in_: seq<byte>): (r: Reading)
    ensures |r.rest| <= |in_|
    ensures r.reply.Received? ==> |r.rest| < |in_|
    decreases |in_|
  {
    if in_ == [] then Reading(Closed, [])
    else if in_[0] == DOLLAR then
      ReceiveShrinks(in_[1..], [], 0, false);
      Receive(in_[1..], [], 0, false)
    else ReceivePacket(in_[1..])
  }

  lemma {:induction false} ReceiveShrinks(in_: seq<byte>, reply: seq<byte>, sum: byte, escape: bool)
    ensures |Receive(in_, reply, sum, escape).rest| <= |in_|
    decreases |in_|
  {
    if in_ != [] {
      var c := in_[0];
      if c == DOLLAR {
        ReceiveShrinks(in_[1..], [], 0, false);
      } else if c == HASH {
      } else if c == BRACE {
        ReceiveShrinks(in_[1..], reply, Add(sum, c), true);
      } else if StartsRun(in_, reply) {
        ReceiveShrinks(in_[2..], reply + Repeat(reply[|reply| - 1], in_[1] - 29), Add(Add(sum, c), in_[1]), escape);
      } else {
        ReceiveShrinks(in_[1..], reply + [if escape then Flip(c) else c], Add(sum, c), false);
      }
    }
  }

  // ---------- Encodings, independently of the reader ----------

  /** The pieces of an encoded payload: a plain byte, an escaped byte, or further copies of the last byte. */
  datatype Piece = Plain(b: byte) | Escaped(b: byte) | Copies(n: nat)

  predicate LegalPiece(p: Piece, first: bool) {
    match p
    case Plain(b) => !Special(b)
    case Escaped(b) => !Special(Flip(b))
    case Copies(n) => !first && n + 29 <= 126 && ValidCount(n + 29)
  }

  predicate Legal(ps: seq<Piece>, first: bool)
    decreases ps
  {
    ps == [] || (LegalPiece(ps[0], first) && Legal(ps[1..], false))
  }

  /** The bytes of a piece on the wire. */
  function PieceBytes(p: Piece): seq<byte>
    requires p.Copies? ==> p.n + 29 <= 126
  {
    match p
    case Plain(b) => [b]
    case Escaped(b) => [BRACE, Flip(b)]
    case Copies(n) => [STAR, n + 29]
  }

  function Wire(ps: seq<Piece>, first: bool): seq<byte>
    requires Legal(ps, first)
    decreases ps
  {
    if ps == [] then [] else PieceBytes(ps[0]) + Wire(ps[1..], false)
  }

  /** The payload so far extended by a piece. */
  function Extend(payload: seq<byte>, p: Piece): seq<byte>
    requires p.Copies? ==> payload != []
  {
    match p
    case Plain(b) => payload + [b]
    case Escaped(b) => payload + [b]
    case Copies(n) => payload + Repeat(payload[|payload| - 1], n)
  }

  /** The payload that pieces stand for, after the payload already given. */
  function Meaning(payload: seq<byte>, ps: seq<Piece>): seq<byte>
    requires Legal(ps, payload == [])
    decreases ps
  {
    if ps == [] then payload else Meaning(Extend(payload, ps[0]), ps[1..])
  }

  function Sum(s: seq<byte>): byte {
    if s == [] then 0 else Add(s[0], Sum(s[1..]))
  }

  lemma AddAssociative(a: byte, b: byte, c: byte)
    ensures Add(Add(a, b), c) == Add(a, Add(b, c))
  {
    assert Add(a, b) == a + b || Add(a, b) == a + b - 256;
    assert Add(b, c) == b + c || Add(b, c) == b + c - 256;
  }

  lemma {:induction false} SumAppend(a: seq<byte>, b: seq<byte>)
    ensures Sum(a + b) == Add(Sum(a), Sum(b))
  {
    if a == [] {
      assert a + b == b;
    } else {
      assert (a + b)[1..] == a[1..] + b;
      SumAppend(a[1..], b);
      AddAssociative(a[0], Sum(a[1..]), Sum(b));
    }
  }

  lemma SumSmall(a: byte, b: byte)
    ensures Sum([a]) == a && Sum([a, b]) == Add(a, b)
  {
    assert [a, b][1..] == [b] && [b][1..] == [] && [a][1..] == [];
  }

  /** A packet: `$`, body, `#` and two checksum digits. */
  function Framed(body: seq<byte>, h1: byte, h2: byte): seq<byte> {
    [DOLLAR] + body + [HASH, h1, h2]
  }

  // ---------- Reading an encoding ----------

  lemma {:induction false} ReceivePiece(p: Piece, rest: seq<byte>, reply: seq<byte>, sum: byte)
    requires LegalPiece(p, reply == [])
    ensures Receive(PieceBytes(p) + rest, reply, sum, false) ==
            Receive(rest, Extend(reply, p), Add(sum, Sum(PieceBytes(p))), false)
  {
    var s := PieceBytes(p) + rest;
    match p
    case Plain(b) =>
      assert s[0] == b && s[1..] == rest;
      SumSmall(b, b);
    case Escaped(b) =>
      ReceiveEscaped(b, rest, reply, sum);
    case Copies(n) =>
      assert s[0] == STAR && s[1] == n + 29 && s[2..] == rest;
      SumSmall(STAR, n + 29);
      AddAssociative(sum, STAR, n + 29);
  }

  lemma {:induction false} ReceiveEscaped(b: byte, rest: seq<byte>, reply: seq<byte>, sum: byte)
    requires !Special(Flip(b))
    ensures Receive([BRACE, Flip(b)] + rest, reply, sum, false) ==
            Receive(rest, reply + [b], Add(sum, Sum([BRACE, Flip(b)])), false)
  {
    var s, tail := [BRACE, Flip(b)] + rest, [Flip(b)] + rest;
    assert s[0] == BRACE && s[1..] == tail;
    assert tail[0] == Flip(b) && tail[1..] == rest;
    FlipInvolutive(b);
    SumSmall(BRACE, Flip(b));
    AddAssociative(sum, BRACE, Flip(b));
    assert Receive(s, reply, sum, false) == Receive(tail, reply, Add(sum, BRACE), true);
  }

  /** Reading the wire form of an encoding adds its meaning to the reply and its bytes to the checksum. */
  lemma {:induction false} ReceiveWire(ps: seq<Piece>, rest: seq<byte>, reply: seq<byte>, sum: byte)
    requires Legal(ps, reply == [])
    ensures Receive(Wire(ps, reply == []) + rest, reply, sum, false) ==
            Receive(rest, Meaning(reply, ps), Add(sum, Sum(Wire(ps, reply == []))), false)
    decreases ps
  {
    if ps == [] {
      assert Wire(ps, reply == []) + rest == rest;
    } else {
      var here, more := PieceBytes(ps[0]), Wire(ps[1..], false);
      assert here + more + rest == here + (more + rest);
      ReceivePiece(ps[0], more + rest, reply, sum);
      var reply' := Extend(reply, ps[0]);
      assert reply' != [];
      ReceiveWire(ps[1..], rest, reply', Add(sum, Sum(here)));
      SumAppend(here, more);
      AddAssociative(sum, Sum(here), Sum(more));
    }
  }

  // ---------- Framing and resynchronisation ----------

  lemma {:induction false} SkipJunk(junk: seq<byte>, rest: seq<byte>)
    requires DOLLAR !in junk
    ensures ReceivePacket(junk + [DOLLAR] + rest) == Receive(rest, [], 0, false)
  {
    var s := junk + [DOLLAR] + rest;
    if junk == [] {
      assert s == [DOLLAR] + rest;
      assert s[1..] == rest;
    } else {
      assert s[0] == junk[0] && s[0] != DOLLAR;
      assert s[1..] == junk[1..] + [DOLLAR] + rest;
      SkipJunk(junk[1..], rest);
    }
  }

  /** A new `$` discards whatever was read since the last one, as long as no `#` was met. */
  lemma {:induction false} Abandon(lost: seq<byte>, rest: seq<byte>, reply: seq<byte>, sum: byte, escape: bool)
    requires HASH !in lost
    ensures Receive(lost + [DOLLAR] + rest, reply, sum, escape) == Receive(rest, [], 0, false)
    decreases |lost|
  {
    var s := lost + [DOLLAR] + rest;
    if lost == [] {
      assert s[0] == DOLLAR && s[1..] == rest;
    } else {
      var c, tail := lost[0], lost[1..] + [DOLLAR] + rest;
      assert s[0] == c && s[1..] == tail;
      if c == DOLLAR {
        Abandon(lost[1..], rest, [], 0, false);
      } else if c == BRACE {
        Abandon(lost[1..], rest, reply, Add(sum, c), true);
      } else if StartsRun(s, reply) {
        assert |lost| > 1 && s[1] == lost[1];
        assert s[2..] == lost[2..] + [DOLLAR] + rest;
        Abandon(lost[2..], rest, reply + Repeat(reply[|reply| - 1], s[1] - 29), Add(Add(sum, c), s[1]), escape);
      } else {
        Abandon(lost[1..], rest, reply + [if escape then Flip(c) else c], Add(sum, c), false);
      }
    }
  }

  lemma EndOfPacket(h1: byte, h2: byte, rest: seq<byte>, reply: seq<byte>, sum: byte, escape: bool)
    ensures Receive([HASH, h1, h2] + rest, reply, sum, escape) ==
            Reading(Received(reply, sum == DecodeHex(h1, h2)), rest)
  {
    var s := [HASH, h1, h2] + rest;
    assert s[0] == HASH && s[1] == h1 && s[2] == h2 && s[3..] == rest;
  }

  /** What may precede a packet: bytes before the first `$`, and then packets abandoned before their `#`. */
  datatype Prelude = Prelude(junk: seq<byte>, abandoned: seq<seq<byte>>)

  ghost predicate Harmless(p: Prelude) {
    DOLLAR !in p.junk && forall a | a in p.abandoned :: HASH !in a
  }

  function Abandoned(lost: seq<seq<byte>>): seq<byte> {
    if lost == [] then [] else [DOLLAR] + lost[0] + Abandoned(lost[1..])
  }

  function PreludeBytes(p: Prelude): seq<byte> {
    p.junk + Abandoned(p.abandoned)
  }

  lemma {:induction false} AbandonedHashFree(lost: seq<seq<byte>>)
    requires forall a | a in lost :: HASH !in a
    ensures HASH !in Abandoned(lost)
  {
    if lost != [] {
      AbandonedHashFree(lost[1..]);
    }
  }

  /** However a packet is introduced, reading starts afresh at its own `$`. */
  lemma SkipPrelude(p: Prelude, rest: seq<byte>)
    requires Harmless(p)
    ensures ReceivePacket(PreludeBytes(p) + [DOLLAR] + rest) == Receive(rest, [], 0, false)
  {
    var s, lost := PreludeBytes(p) + [DOLLAR] + rest, p.abandoned;
    if lost == [] {
      assert s == p.junk + [DOLLAR] + rest;
      SkipJunk(p.junk, rest);
    } else {
      var inner := lost[0] + Abandoned(lost[1..]);
      assert s == p.junk + [DOLLAR] + (inner + [DOLLAR] + rest);
      SkipJunk(p.junk, inner + [DOLLAR] + rest);
      AbandonedHashFree(lost[1..]);
      Abandon(inner, rest, [], 0, false);
    }
  }

  lemma FrameSplits(before: seq<byte>, body: seq<byte>, h1: byte, h2: byte, rest: seq<byte>)
    ensures before + Framed(body, h1, h2) + rest == before + [DOLLAR] + (body + ([HASH, h1, h2] + rest))
  {}

  /**
   For every payload and every legal encoding of it, after any harmless prelude, the reader returns exactly the
   payload, reports the checksum good and stops right behind the packet.
   */
  lemma ReceiveEncoding(p: Prelude, ps: seq<Piece>, h1: byte, h2: byte, rest: seq<byte>)
    requires Harmless(p) && Legal(ps, true) && DecodeHex(h1, h2) == Sum(Wire(ps, true))
    ensures ReceivePacket(PreludeBytes(p) + Framed(Wire(ps, true), h1, h2) + rest) ==
            Reading(Received(Meaning([], ps), true), rest)
  {
    var body, tail := Wire(ps, true), [HASH, h1, h2] + rest;
    assert ReceivePacket(PreludeBytes(p) + Framed(body, h1, h2) + rest) == Receive(body + tail, [], 0, false) by {
      FrameSplits(PreludeBytes(p), body, h1, h2, rest);
      SkipPrelude(p, body + tail);
    }
    assert Receive(body + tail, [], 0, false) == Receive(tail, Meaning([], ps), Add(0, Sum(body)), false) by {
      ReceiveWire(ps, tail, [], 0);
    }
    EndOfPacket(h1, h2, rest, Meaning([], ps), Add(0, Sum(body)), false);
  }

  /** Every payload has a legal encoding: escape what is special. */
  function Pieces(payload: seq<byte>): seq<Piece> {
    if payload == [] then []
    else [if Special(payload[0]) then Escaped(payload[0]) else Plain(payload[0])] + Pieces(payload[1..])
  }

  lemma {:induction false} PiecesMean(given: seq<byte>, payload: seq<byte>)
    ensures Legal(Pieces(payload), given == []) && Meaning(given, Pieces(payload)) == given + payload
    decreases payload
  {
    if payload == [] {
      assert given + payload == given;
    } else {
      var ps, given' := Pieces(payload), given + [payload[0]];
      assert ps[1..] == Pieces(payload[1..]) && Extend(given, ps[0]) == given';
      PiecesMean(given', payload[1..]);
      assert given' + payload[1..] == given + payload;
    }
  }

  // ---------- Error detection ----------

  /** A body without `$` and `#` is read to its end, and every byte of it is summed. */
  lemma {:induction false} ReceiveBody(body: seq<byte>, h1: byte, h2: byte, rest: seq<byte>,
                                       reply: seq<byte>, sum: byte, escape: bool)
    returns (payload: seq<byte>)
    requires DOLLAR !in body && HASH !in body
    ensures Receive(body + [HASH, h1, h2] + rest, reply, sum, escape) ==
            Reading(Received(payload, Add(sum, Sum(body)) == DecodeHex(h1, h2)), rest)
    decreases |body|
  {
    var s := body + [HASH, h1, h2] + rest;
    if body == [] {
      assert s == [HASH, h1, h2] + rest;
      EndOfPacket(h1, h2, rest, reply, sum, escape);
      payload := reply;
    } else {
      var c := body[0];
      assert s[0] == c && s[1..] == body[1..] + [HASH, h1, h2] + rest;
      AddAssociative(sum, c, Sum(body[1..]));
      if c == BRACE {
        payload := ReceiveBody(body[1..], h1, h2, rest, reply, Add(sum, c), true);
      } else if StartsRun(s, reply) {
        assert |body| > 1 && s[1] == body[1] && s[2..] == body[2..] + [HASH, h1, h2] + rest;
        assert Sum(body[1..]) == Add(body[1], Sum(body[2..])) by { assert body[1..][1..] == body[2..]; }
        AddAssociative(Add(sum, c), body[1], Sum(body[2..]));
        payload := ReceiveBody(body[2..], h1, h2, rest, reply + Repeat(reply[|reply| - 1], body[1] - 29),
                               Add(Add(sum, c), body[1]), escape);
      } else {
        payload := ReceiveBody(body[1..], h1, h2, rest, reply + [if escape then Flip(c) else c], Add(sum, c), false);
      }
    }
  }

  /** The reader accepts a packet exactly when its digits are the checksum of the bytes that arrived. */
  lemma ReceiveChecks(p: Prelude, body: seq<byte>, h1: byte, h2: byte, rest: seq<byte>)
    requires Harmless(p) && DOLLAR !in body && HASH !in body
    ensures var r := ReceivePacket(PreludeBytes(p) + Framed(body, h1, h2) + rest);
            r.reply.Received? && r.rest == rest && (r.reply.sumOk <==> Sum(body) == DecodeHex(h1, h2))
  {
    var tail := [HASH, h1, h2] + rest;
    assert PreludeBytes(p) + Framed(body, h1, h2) + rest == PreludeBytes(p) + [DOLLAR] + (body + tail);
    assert body + tail == body + [HASH, h1, h2] + rest;
    SkipPrelude(p, body + tail);
    var payload := ReceiveBody(body, h1, h2, rest, [], 0, false);
  }

  lemma AddInjective(a: byte, b: byte, c: byte)
    requires b != c
    ensures Add(a, b) != Add(a, c) && Add(b, a) != Add(c, a)
  {}

  lemma {:induction false} SumOfSubstitution(body: seq<byte>, i: nat, b: byte)
    requires i < |body| && b != body[i]
    ensures Sum(body[i := b]) != Sum(body)
  {
    if i == 0 {
      assert body[i := b][1..] == body[1..];
      AddInjective(Sum(body[1..]), body[0], b);
    } else {
      assert body[i := b][1..] == body[1..][i - 1 := b];
      SumOfSubstitution(body[1..], i - 1, b);
      AddInjective(body[0], Sum(body[1..]), Sum(body[1..][i - 1 := b]));
    }
  }

  /** Replacing one byte of the body by another that is no packet marker is always detected. */
  lemma SubstitutionDetected(p: Prelude, body: seq<byte>, i: nat, b: byte, h1: byte, h2: byte, rest: seq<byte>)
    requires Harmless(p) && DOLLAR !in body && HASH !in body && DecodeHex(h1, h2) == Sum(body)
    requires i < |body| && b != body[i] && b != DOLLAR && b != HASH
    ensures var r := ReceivePacket(PreludeBytes(p) + Framed(body[i := b], h1, h2) + rest);
            r.reply.Received? && !r.reply.sumOk && r.rest == rest
  {
    SumOfSubstitution(body, i, b);
    ReceiveChecks(p, body[i := b], h1, h2, rest);
  }
}
