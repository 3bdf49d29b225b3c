/** A connection to the GDB stub: sending and receiving packets, acknowledgement and retransmission. */
module Link {
  import opened Packet
  import opened Sequences
  import opened Words

  /** The packet as it is sent: the command unescaped, the checksum in upper case. */
  function Sent(command: seq<byte>): seq<byte> {
    Framed(command, HexUpper(Sum(command) / 16), HexUpper(Sum(command) % 16))
  }

  function Times(s: seq<byte>, n: nat): seq<byte> {
    if n == 0 then [] else Times(s, n - 1) + s
  }

  /** How many answers the sender reads: up to and including the first `+`, or all of them. */
  function AnswersRead(answers: seq<byte>): (n: nat)
    ensures n <= |answers|
  {
    if answers == [] then 0 else if answers[0] == PLUS then 1 else 1 + AnswersRead(answers[1..])
  }

  /** How often the sender transmits before it has seen a `+` or met the end of the answers. */
  function Transmissions(answers: seq<byte>): nat {
    if answers == [] || answers[0] == PLUS then 1 else 1 + Transmissions(answers[1..])
  }

  lemma TimesOne(s: seq<byte>)
    ensures Times(s, 1) == s
  {
    assert Times(s, 0) + s == s;
  }

  /** What a receiver in acknowledging mode returns, answers and leaves unread. */
  datatype Exchange = Exchange(reply: Reply, answers: seq<byte>, rest: seq<byte>)

  function ReceiveAcked(in_: seq<byte>): Exchange
    decreases |in_|
  {
    var r := ReceivePacket(in_);
    if r.reply.Closed? then Exchange(Closed, [], r.rest)
    else if r.reply.sumOk then Exchange(r.reply, [PLUS], r.rest)
    else
      var later := ReceiveAcked(r.rest);
      later.(answers := [MINUS] + later.answers)
  }

  lemma AckedUnfold(in_: seq<byte>)
    ensures var (r, e) := (ReceivePacket(in_), ReceiveAcked(in_));
            if r.reply.Closed? || r.reply.sumOk
            then e == Exchange(r.reply, if r.reply.Closed? then [] else [PLUS], r.rest)
            else e == ReceiveAcked(r.rest).(answers := [MINUS] + ReceiveAcked(r.rest).answers)
  {}

  class Connection {
    /** Bytes that have arrived and are not yet read; the end of it is the end of the file. */
    var incoming: seq<byte>
    var outgoing: seq<byte>
    var ack: bool

    /** Opening a connection acknowledges earlier input. */
    constructor (arriving: seq<byte>)
      ensures ack && incoming == arriving && outgoing == [PLUS]
    {
      ack, incoming, outgoing := true, arriving, [PLUS];
    }

    method Fgetc() returns (c: int)
      modifies this`incoming
      ensures old(incoming) == [] ==> c == -1 && incoming == []
      ensures old(incoming) != [] ==> c == old(incoming)[0] && incoming == old(incoming)[1..]
    {
      if incoming == [] {
        return -1;
      }
      c, incoming := incoming[0], incoming[1..];
    }

    /** Pushing back the end of file has no effect. */
    method Ungetc(c: int)
      requires -1 <= c < 256
      modifies this`incoming
      ensures incoming == if c < 0 then old(incoming) else [c] + old(incoming)
    {
      if c >= 0 {
        incoming := [c] + incoming;
      }
    }

    method SendPacket(command: seq<byte>)
      modifies this`outgoing
      ensures outgoing == old(outgoing) + Sent(command)
    {
      var sum: byte := 0;
      var i := 0;
      while i < |command|
        invariant 0 <= i <= |command|
        invariant sum == Sum(command[..i]) && outgoing == old(outgoing)
      {
        assert command[..i + 1] == command[..i] + [command[i]];
        SumAppend(command[..i], [command[i]]);
        SumSmall(command[i], command[i]);
        sum := Add(sum, command[i]);
        i := i + 1;
      }
      assert command[..i] == command;
      ghost var before := outgoing;
      outgoing := outgoing + [DOLLAR];
      outgoing := outgoing + command;
      outgoing := outgoing + [HASH, HexUpper(sum / 16), HexUpper(sum % 16)];
      Regroup(before, [], [DOLLAR], command, [HASH, HexUpper(sum / 16), HexUpper(sum % 16)]);
      assert before + [] == before;
    }

    /** Sends a command, again after every answer but `+`. When the answers run out the source resends for ever. */
    method GdbSend(command: seq<byte>) returns (acked: bool)
      modifies this`outgoing, this`incoming
      ensures !ack ==> incoming == old(incoming) && outgoing == old(outgoing) + Sent(command)
      ensures ack ==> acked == (PLUS in old(incoming))
      ensures ack ==> incoming == old(incoming)[AnswersRead(old(incoming))..]
      ensures ack ==> outgoing == old(outgoing) + Times(Sent(command), Transmissions(old(incoming)))
    {
      ghost var first, packet := outgoing, Sent(command);
      acked := false;
      SendPacket(command);
      if !ack {
        return;
      }
      ghost var answers, total := incoming, Transmissions(incoming);
      ghost var sent := 1;
      TimesOne(packet);
      while !acked && incoming != []
        invariant if acked then sent == total && PLUS in answers else sent + Transmissions(incoming) == total + 1
        invariant if acked then incoming == answers[AnswersRead(answers)..]
                  else incoming[AnswersRead(incoming)..] == answers[AnswersRead(answers)..]
        invariant !acked ==> (PLUS in incoming <==> PLUS in answers)
        invariant outgoing == first + Times(packet, sent)
        decreases |incoming|
      {
        ghost var before := incoming;
        var c := Fgetc();
        acked := c == PLUS;
        assert before == [before[0]] + incoming;
        if !acked {
          SendPacket(command);
          Associative(first, Times(packet, sent), packet);
          sent := sent + 1;
        }
      }
    }

    /** After a `*`: how many further copies of the last byte follow, or -1 when it is an ordinary byte. */
    method ReadCount(ghost reply: seq<byte>) returns (count: int)
      requires reply != []
      modifies this`incoming
      ensures if StartsRun([STAR] + old(incoming), reply)
              then 0 <= count == old(incoming)[0] - 29 && incoming == old(incoming)[1..]
              else count == -1 && incoming == old(incoming)
    {
      var c2 := Fgetc();
      if c2 < 29 || c2 > 126 || c2 == DOLLAR || c2 == HASH {
        Ungetc(c2);
        return -1;
      }
      return c2 - 29;
    }

    /** The two checksum digits; a missing one reads as 0xFF. */
    method ReadDigits() returns (msb: byte, lsb: byte)
      modifies this`incoming
      ensures msb == Peek(old(incoming), 0) && lsb == Peek(old(incoming), 1)
      ensures incoming == if |old(incoming)| < 2 then [] else old(incoming)[2..]
    {
      var c1 := Fgetc();
      var c2 := Fgetc();
      return c1 % 256, c2 % 256;
    }

    /** Fast-forward to the first start of a packet, if there is one. */
    method SkipToStart() returns (start: bool)
      modifies this`incoming
      ensures if start then Receive(incoming, [], 0, false) == ReceivePacket(old(incoming))
              else incoming == [] && ReceivePacket(old(incoming)) == Reading(Closed, [])
    {
      start := false;
      while incoming != [] && !start
        invariant (if start then Receive(incoming, [], 0, false) else ReceivePacket(incoming)) ==
                  ReceivePacket(old(incoming))
        decreases |incoming|, !start
      {
        var c := Fgetc();
        start := c == DOLLAR;
      }
    }

    method RecvPacket() returns (r: Reply)
      modifies this`incoming
      ensures Reading(r, incoming) == ReceivePacket(old(incoming))
    {
      ghost var result := ReceivePacket(incoming);
      var start := SkipToStart();
      if !start {
        return Closed;
      }

      var reply: seq<byte>, size, sum: byte, escape := [], 4096, 0, false;
      while incoming != []
        invariant Receive(incoming, reply, sum, escape) == result
        invariant |reply| <= size && size >= 4096
        decreases |incoming|
      {
        ghost var before := incoming;
        var c := Fgetc();
        assert before == [before[0]] + incoming;
        if c == DOLLAR {
          reply, sum, escape := [], 0, false;
        } else if c == HASH {
          var msb, lsb := ReadDigits();
          return Received(reply, sum == DecodeHex(msb, lsb));
        } else {
          sum := Add(sum, c);
          var count := -1;
          if c == STAR && |reply| > 0 {
            count := ReadCount(reply);
          }
          if c == BRACE {
            escape := true;
          } else if count >= 0 {
            assert before[2..] == incoming;
            if |reply| + count > size {
              size := size * 2;
            }
            sum := Add(sum, count + 29);
            reply := reply + Repeat(reply[|reply| - 1], count);
          } else {
            if |reply| == size {
              size := size * 2;
            }
            reply := reply + [if escape then Flip(c) else c];
            escape := false;
          }
        }
      }
      return Closed;
    }

    /** Receives a packet; in acknowledging mode one whose checksum is good, after asking again for every other. */
    method GdbRecv() returns (r: Reply)
      modifies this`incoming, this`outgoing
      ensures !ack ==> Reading(r, incoming) == ReceivePacket(old(incoming)) && outgoing == old(outgoing)
      ensures ack ==> var e := ReceiveAcked(old(incoming));
                      r == e.reply && incoming == e.rest && outgoing == old(outgoing) + e.answers
      ensures ack && r.Received? ==> r.sumOk
    {
      ghost var all, sent := ReceiveAcked(incoming), outgoing;
      assert [] + all.answers == all.answers;
      while true
        invariant ack == old(ack)
        invariant !ack ==> incoming == old(incoming) && outgoing == sent
        invariant ack ==> var e := ReceiveAcked(incoming);
                          e.reply == all.reply && e.rest == all.rest && outgoing + e.answers == sent + all.answers
        decreases |incoming|
      {
        ghost var before := outgoing;
        AckedUnfold(incoming);
        r := RecvPacket();
        if !ack || r.Closed? {
          assert outgoing + [] == outgoing;
          return;
        }
        outgoing := outgoing + [if r.sumOk then PLUS else MINUS];
        if r.sumOk {
          return;
        }
        Associative(before, [MINUS], ReceiveAcked(incoming).answers);
      }
    }
  }

  // ---------- Both ends together ----------

  predicate PlainBytes(command: seq<byte>) {
    forall b | b in command :: !Special(b)
  }

  lemma {:induction false} PlainPieces(command: seq<byte>, first: bool)
    requires PlainBytes(command)
    ensures Legal(Pieces(command), first) && Wire(Pieces(command), first) == command
    decreases command
  {
    if command != [] {
      assert Pieces(command)[1..] == Pieces(command[1..]);
      PlainPieces(command[1..], false);
      assert command == [command[0]] + command[1..];
    }
  }

  /** A command without special bytes arrives as it was sent. */
  lemma SentIsReceived(p: Prelude, command: seq<byte>, rest: seq<byte>)
    requires Harmless(p) && PlainBytes(command)
    ensures ReceivePacket(PreludeBytes(p) + Sent(command) + rest) == Reading(Received(command, true), rest)
  {
    PlainPieces(command, true);
    PiecesMean([], command);
    DecodeEncoded(Sum(command));
    ReceiveEncoding(p, Pieces(command), HexUpper(Sum(command) / 16), HexUpper(Sum(command) % 16), rest);
    assert [] + command == command;
  }

  /** A transmission damaged on the way so that its framing stays and its checksum does not fit. */
  datatype Damaged = Damaged(body: seq<byte>, h1: byte, h2: byte)

  predicate Detectable(d: Damaged) {
    DOLLAR !in d.body && HASH !in d.body && Sum(d.body) != DecodeHex(d.h1, d.h2)
  }

  function Arriving(ds: seq<Damaged>): seq<byte> {
    if ds == [] then [] else Framed(ds[0].body, ds[0].h1, ds[0].h2) + Arriving(ds[1..])
  }

  lemma ArrivingSplits(ds: seq<Damaged>, sent: seq<byte>, rest: seq<byte>)
    requires ds != []
    ensures Arriving(ds) + sent + rest ==
            PreludeBytes(Prelude([], [])) + Framed(ds[0].body, ds[0].h1, ds[0].h2) + (Arriving(ds[1..]) + sent + rest)
  {
    assert PreludeBytes(Prelude([], [])) == [];
  }

  lemma {:induction false} MinusesFirst(k: nat)
    requires k > 0
    ensures Times([MINUS], k) == [MINUS] + Times([MINUS], k - 1)
  {
    if k > 1 {
      MinusesFirst(k - 1);
    }
  }

  lemma {:induction false} MinusesThenPlus(k: nat, more: seq<byte>)
    ensures var answers := Times([MINUS], k) + [PLUS] + more;
            Transmissions(answers) == AnswersRead(answers) == k + 1 && PLUS in answers
  {
    var answers := Times([MINUS], k) + [PLUS] + more;
    assert answers[|Times([MINUS], k)|] == PLUS;
    if k > 0 {
      MinusesFirst(k);
      assert answers[0] == MINUS;
      assert answers[1..] == Times([MINUS], k - 1) + [PLUS] + more;
      MinusesThenPlus(k - 1, more);
    }
  }

  /**
   When the channel detectably damages the first k transmissions of a command and lets the next one through, the
   receiver answers k times `-` and once `+` and returns the command, and on these answers the sender transmits
   exactly k + 1 times.
   */
  lemma {:induction false} Retransmission(ds: seq<Damaged>, command: seq<byte>, rest: seq<byte>, more: seq<byte>)
    requires PlainBytes(command) && forall d | d in ds :: Detectable(d)
    ensures ReceiveAcked(Arriving(ds) + Sent(command) + rest) ==
            Exchange(Received(command, true), Times([MINUS], |ds|) + [PLUS], rest)
    ensures Transmissions(Times([MINUS], |ds|) + [PLUS] + more) == |ds| + 1
    ensures AnswersRead(Times([MINUS], |ds|) + [PLUS] + more) == |ds| + 1
    decreases |ds|
  {
    var none := Prelude([], []);
    var stream := Arriving(ds) + Sent(command) + rest;
    MinusesThenPlus(|ds|, more);
    if ds == [] {
      assert stream == PreludeBytes(none) + Sent(command) + rest;
      SentIsReceived(none, command, rest);
    } else {
      var d, later := ds[0], Arriving(ds[1..]) + Sent(command) + rest;
      ArrivingSplits(ds, Sent(command), rest);
      assert Detectable(d);
      ReceiveChecks(none, d.body, d.h1, d.h2, later);
      Retransmission(ds[1..], command, rest, more);
      MinusesFirst(|ds|);
      Associative([MINUS], Times([MINUS], |ds| - 1), [PLUS]);
    }
  }
}
