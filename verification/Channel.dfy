/**
 Sender and receiver together, with a queue in each direction and a channel that damages the first transmissions.
 Each action is one round of the loops of gdb_send and gdb_recv (Link.dfy): transmitting the command, receiving a
 packet and answering it, and reading the answer.
 */
module Channel {
  import opened Options
  import opened Words
  import opened Sequences
  import opened Packet
  import opened Link

  datatype Sender = Sending | Waiting | Done

  /** wire and answers are all bytes that were ever put on the two queues. */
  datatype Joint = Joint(sender: Sender, delivered: Option<seq<byte>>, damages: seq<Damaged>, sent: nat,
                         toReceiver: seq<byte>, toSender: seq<byte>, wire: seq<byte>, answers: seq<byte>)

  /** The channel will damage as many transmissions as are listed. */
  function Start(ds: seq<Damaged>): Joint {
    Joint(Sending, None, ds, 0, [], [], [], [])
  }

  datatype Action = Transmit | Receive | Answer

  predicate Enabled(j: Joint, a: Action) {
    match a
    case Transmit => j.sender == Sending
    case Receive => j.delivered == None && j.toReceiver != []
    case Answer => j.sender == Waiting && j.toSender != []
  }

  function DamagedPacket(d: Damaged): seq<byte> {
    Framed(d.body, d.h1, d.h2)
  }

  /** What one action does; a receiver that meets the end of its queue would wait. */
  function Act(command: seq<byte>, j: Joint, a: Action): Joint
    requires Enabled(j, a)
  {
    match a
    case Transmit =>
      var packet := if j.damages == [] then Sent(command) else DamagedPacket(j.damages[0]);
      j.(sender := Waiting, damages := if j.damages == [] then [] else j.damages[1..], sent := j.sent + 1,
         toReceiver := j.toReceiver + packet, wire := j.wire + packet)
    case Receive =>
      var r := ReceivePacket(j.toReceiver);
      if r.reply.Closed? then j
      else
        var answer := [if r.reply.sumOk then PLUS else MINUS];
        j.(delivered := if r.reply.sumOk then Some(r.reply.payload) else None, toReceiver := r.rest,
           toSender := j.toSender + answer, answers := j.answers + answer)
    case Answer => j.(sender := if j.toSender[0] == PLUS then Done else Sending, toSender := j.toSender[1..])
  }

  /** The state after a schedule of actions; None when one of them was not enabled. */
  function After(command: seq<byte>, j: Joint, schedule: seq<Action>): Option<Joint>
    decreases |schedule|
  {
    if schedule == [] then Some(j)
    else if Enabled(j, schedule[0]) then After(command, Act(command, j, schedule[0]), schedule[1..])
    else None
  }

  // ---------- What every reachable state satisfies ----------

  /** Before a transmission: n transmissions were damaged and answered by `-`. */
  ghost predicate Before(ds: seq<Damaged>, j: Joint, n: nat) {
    n <= |ds| && j == Joint(Sending, None, ds[n..], n, [], [], Arriving(ds[..n]), Times([MINUS], n))
  }

  /** The next packet is under way to the receiver. */
  ghost predicate UnderWay(command: seq<byte>, ds: seq<Damaged>, j: Joint, n: nat) {
    n <= |ds| &&
    var packet := if n < |ds| then DamagedPacket(ds[n]) else Sent(command);
    j == Joint(Waiting, None, if n < |ds| then ds[n + 1..] else [], n + 1, packet, [],
               Arriving(ds[..n]) + packet, Times([MINUS], n))
  }

  /** It was damaged, and `-` is under way to the sender. */
  ghost predicate Refused(ds: seq<Damaged>, j: Joint, n: nat) {
    n < |ds| && j == Joint(Waiting, None, ds[n + 1..], n + 1, [], [MINUS], Arriving(ds[..n + 1]), Times([MINUS], n + 1))
  }

  /** The command was delivered, and `+` is under way to the sender or has arrived. */
  ghost predicate Accepted(command: seq<byte>, ds: seq<Damaged>, j: Joint, arrived: bool) {
    j == Joint(if arrived then Done else Waiting, Some(command), [], |ds| + 1, [], if arrived then [] else [PLUS],
               Arriving(ds) + Sent(command), Times([MINUS], |ds|) + [PLUS])
  }

  /** After 3n + phase actions the state is one of these. */
  ghost predicate Invariant(command: seq<byte>, ds: seq<Damaged>, j: Joint, n: nat, phase: nat) {
    match phase
    case 0 => if n <= |ds| then Before(ds, j, n) else n == |ds| + 1 && Accepted(command, ds, j, true)
    case 1 => UnderWay(command, ds, j, n)
    case 2 => if n < |ds| then Refused(ds, j, n) else n == |ds| && Accepted(command, ds, j, false)
    case _ => false
  }

  lemma {:induction false} ArrivingAppend(ds: seq<Damaged>, d: Damaged)
    ensures Arriving(ds + [d]) == Arriving(ds) + DamagedPacket(d)
  {
    if ds == [] {
      assert ([d])[1..] == [] && DamagedPacket(d) + [] == DamagedPacket(d);
      assert [] + [d] == [d];
    } else {
      assert (ds + [d])[1..] == ds[1..] + [d];
      ArrivingAppend(ds[1..], d);
      Associative(DamagedPacket(ds[0]), Arriving(ds[1..]), DamagedPacket(d));
    }
  }

  lemma TransmitStep(command: seq<byte>, ds: seq<Damaged>, j: Joint, n: nat)
    requires Before(ds, j, n)
    ensures UnderWay(command, ds, Act(command, j, Transmit), n)
  {
    var packet := if n < |ds| then DamagedPacket(ds[n]) else Sent(command);
    assert [] + packet == packet;
    if n < |ds| {
      assert ds[n..][0] == ds[n] && ds[n..][1..] == ds[n + 1..];
    }
  }

  lemma DamagedIsRefused(d: Damaged)
    requires Detectable(d)
    ensures var r := ReceivePacket(DamagedPacket(d)); r.reply.Received? && !r.reply.sumOk && r.rest == []
  {
    var none := Prelude([], []);
    assert PreludeBytes(none) + DamagedPacket(d) + [] == DamagedPacket(d);
    ReceiveChecks(none, d.body, d.h1, d.h2, []);
  }

  lemma ArrivingNext(ds: seq<Damaged>, n: nat)
    requires n < |ds|
    ensures Arriving(ds[..n]) + DamagedPacket(ds[n]) == Arriving(ds[..n + 1])
  {
    assert ds[..n] + [ds[n]] == ds[..n + 1];
    ArrivingAppend(ds[..n], ds[n]);
  }

  lemma ReceiveDamaged(command: seq<byte>, ds: seq<Damaged>, j: Joint, n: nat)
    requires UnderWay(command, ds, j, n) && n < |ds| && Detectable(ds[n])
    ensures Enabled(j, Receive) && Refused(ds, Act(command, j, Receive), n)
  {
    DamagedIsRefused(ds[n]);
    ArrivingNext(ds, n);
    assert [] + [MINUS] == [MINUS];
  }

  lemma ReceiveCommand(command: seq<byte>, ds: seq<Damaged>, j: Joint)
    requires UnderWay(command, ds, j, |ds|) && PlainBytes(command)
    ensures Enabled(j, Receive) && Accepted(command, ds, Act(command, j, Receive), false)
  {
    var none := Prelude([], []);
    assert PreludeBytes(none) + Sent(command) + [] == Sent(command);
    SentIsReceived(none, command, []);
    assert ds[..|ds|] == ds && [] + [PLUS] == [PLUS];
  }

  /** Every action that is enabled leads on, and only one is. */
  lemma StepKeeps(command: seq<byte>, ds: seq<Damaged>, j: Joint, n: nat, phase: nat, a: Action)
    requires PlainBytes(command) && (forall d | d in ds :: Detectable(d))
    requires Invariant(command, ds, j, n, phase) && Enabled(j, a)
    ensures n <= |ds|
    ensures var (n', phase') := if phase == 2 then (n + 1, 0) else (n, phase + 1);
            Invariant(command, ds, Act(command, j, a), n', phase')
  {
    if phase == 0 {
      TransmitStep(command, ds, j, n);
    } else if phase == 1 {
      if n < |ds| {
        ReceiveDamaged(command, ds, j, n);
      } else {
        ReceiveCommand(command, ds, j);
      }
    }
  }

  lemma AfterUnfold(command: seq<byte>, j: Joint, schedule: seq<Action>)
    requires schedule != [] && After(command, j, schedule).Some?
    ensures Enabled(j, schedule[0])
    ensures After(command, j, schedule) == After(command, Act(command, j, schedule[0]), schedule[1..])
  {}

  lemma {:induction false} RunKeeps(command: seq<byte>, ds: seq<Damaged>, j: Joint, n: nat, phase: nat,
                                    schedule: seq<Action>)
    returns (end: Joint, n': nat, phase': nat)
    requires PlainBytes(command) && (forall d | d in ds :: Detectable(d))
    requires Invariant(command, ds, j, n, phase)
    requires After(command, j, schedule).Some?
    ensures 3 * n' + phase' == 3 * n + phase + |schedule|
    ensures After(command, j, schedule) == Some(end) && Invariant(command, ds, end, n', phase')
    decreases |schedule|
  {
    if schedule == [] {
      end, n', phase' := j, n, phase;
    } else {
      AfterUnfold(command, j, schedule);
      StepKeeps(command, ds, j, n, phase, schedule[0]);
      var (n1, phase1) := if phase == 2 then (n + 1, 0) else (n, phase + 1);
      end, n', phase' := RunKeeps(command, ds, Act(command, j, schedule[0]), n1, phase1, schedule[1..]);
    }
  }

  /**
   Every run of both ends over a channel that detectably damages the first k transmissions: nothing but the
   command is ever delivered, a run has at most 3(k + 1) actions, and when no action is left the command was
   delivered once, after k + 1 transmissions and k refusals, and the sender knows.
   */
  lemma RunsDeliver(command: seq<byte>, ds: seq<Damaged>, schedule: seq<Action>)
    requires PlainBytes(command) && (forall d | d in ds :: Detectable(d))
    requires After(command, Start(ds), schedule).Some?
    ensures var j := After(command, Start(ds), schedule).value;
            && |schedule| <= 3 * (|ds| + 1)
            && (j.delivered.Some? ==> j.delivered.value == command)
            && ((forall a :: !Enabled(j, a)) ==>
                  && j.sender == Done && j.delivered == Some(command) && j.sent == |ds| + 1
                  && j.toReceiver == [] && j.toSender == []
                  && j.wire == Arriving(ds) + Sent(command) && j.answers == Times([MINUS], |ds|) + [PLUS])
  {
    assert ds[0..] == ds;
    var end, n, phase := RunKeeps(command, ds, Start(ds), 0, 0, schedule);
    SomeActionEnabled(command, ds, end, n, phase);
  }

  /** Before the end there is always an action. */
  lemma SomeActionEnabled(command: seq<byte>, ds: seq<Damaged>, j: Joint, n: nat, phase: nat)
    requires Invariant(command, ds, j, n, phase)
    ensures phase <= 2 && (n <= |ds| || (n == |ds| + 1 && phase == 0))
    ensures if n <= |ds| then exists a :: Enabled(j, a) else Accepted(command, ds, j, true)
    ensures j.delivered.Some? ==> j.delivered.value == command
  {
    if n <= |ds| {
      var a := if phase == 0 then Transmit else if phase == 1 then Receive else Answer;
      assert Enabled(j, a);
    }
  }
}
