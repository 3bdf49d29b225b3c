/**
 The run loop of the monitor. The machine, the execution of one instruction, the differential check, the device
 update and the values of the watched expressions are parameters; without watched expressions the loop is that of
 a build without DEBUG.
 */
module CpuExec {
  import opened Options
  import opened Words
  import opened MonitorState

  /** The trap instruction ends a program, an invalid instruction aborts it, and so does a failed check. */
  datatype Exit = Ended(haltPc: word, haltRet: word) | Aborted(haltPc: word, haltRet: word) | Differs(haltPc: word)

  function ExitState(e: Exit, nemu: NemuState): NemuState {
    match e
    case Ended(pc, ret) => NemuState(END, pc, ret)
    case Aborted(pc, ret) => NemuState(ABORT, pc, ret)
    case Differs(pc) => NemuState(ABORT, pc, nemu.haltRet)
  }

  /**
   What one round does to the machine: an instruction, and how it called rtl_exit if it did; the check of the
   machine before and after it against the reference, and the pc at which it failed if it did; the devices, which
   see whether the emulator still runs.
   */
  datatype Behaviour<!M> = Behaviour(isaExec: M -> (M, Option<Exit>), difftest: (M, M) -> (M, Option<word>),
                                     devices: (M, RunState) -> M)

  /** One instruction and its check. */
  function Once<M>(exec: Behaviour<M>, m: M): (M, Option<Exit>) {
    var (m1, exit) := exec.isaExec(m);
    var (m2, differs) := exec.difftest(m, m1);
    match differs
    case None => (m2, exit)
    case Some(pc) =>
      var failed := match exit
        case Some(Ended(_, ret)) => Aborted(pc, ret)
        case Some(Aborted(_, ret)) => Aborted(pc, ret)
        case _ => Differs(pc);
      (m2, Some(failed))
  }

  /** The machine after a round in which no watched value changed. */
  function Next<M>(exec: Behaviour<M>, m: M): M {
    var (m1, exit) := Once(exec, m);
    exec.devices(m1, if exit.None? then RUNNING else if exit.value.Ended? then END else ABORT)
  }

  /** The value of the i-th watched expression. */
  type Watch<!M> = (M, nat) -> word

  const COUNTS: nat := 0x1_0000_0000_0000_0000

  /** A 64-bit counter. */
  function Counted(n: nat): (c: nat)
    ensures c < COUNTS
  {
    n % COUNTS
  }

  // ---------- The loop as a function ----------

  /** Everything the loop reads and writes. */
  datatype Monitor<M> = Monitor(machine: M, nemu: NemuState, values: seq<word>, count: nat)

  function Values<M>(watch: Watch<M>, m: M, n: nat): (vs: seq<word>)
    ensures |vs| == n && forall i | 0 <= i < n :: vs[i] == watch(m, i)
    decreases n
  {
    if n == 0 then [] else Values(watch, m, n - 1) + [watch(m, n - 1)]
  }

  /** One pass through the loop body. */
  function Pass<M>(exec: Behaviour<M>, watch: Watch<M>, s: Monitor<M>): Monitor<M> {
    var (m, exit) := Once(exec, s.machine);
    var nemu := if exit.Some? then ExitState(exit.value, s.nemu) else s.nemu;
    var values := Values(watch, m, |s.values|);
    var nemu' := if values != s.values then nemu.(state := STOP) else nemu;
    Monitor(exec.devices(m, nemu'.state), nemu', values, Counted(s.count + 1))
  }

  /** Rounds until one leaves the state RUNNING, or n of them. */
  function Rounds<M>(pass: Monitor<M> -> Monitor<M>, s: Monitor<M>, n: nat): Monitor<M>
    decreases n
  {
    if n == 0 then s
    else
      var s1 := pass(s);
      if s1.nemu.state != RUNNING then s1 else Rounds(pass, s1, n - 1)
  }

  function Passes<M>(exec: Behaviour<M>, watch: Watch<M>): Monitor<M> -> Monitor<M> {
    (s: Monitor<M>) => Pass(exec, watch, s)
  }

  function Loop<M>(exec: Behaviour<M>, watch: Watch<M>, s: Monitor<M>, n: nat): Monitor<M> {
    Rounds(Passes(exec, watch), s, n)
  }

  predicate Over(r: RunState) {
    r == END || r == ABORT
  }

  function Started<M>(s: Monitor<M>): Monitor<M> {
    s.(nemu := s.nemu.(state := RUNNING))
  }

  /** cpu_exec(n). */
  function Exec<M>(exec: Behaviour<M>, watch: Watch<M>, s: Monitor<M>, n: nat): Monitor<M> {
    if Over(s.nemu.state) then s
    else
      var t := Loop(exec, watch, Started(s), n);
      if t.nemu.state == RUNNING then t.(nemu := t.nemu.(state := STOP)) else t
  }

  lemma LoopUnfold<M>(exec: Behaviour<M>, watch: Watch<M>, s: Monitor<M>, n: nat)
    requires n > 0
    ensures var s1 := Pass(exec, watch, s);
            Loop(exec, watch, s, n) == if s1.nemu.state == RUNNING then Loop(exec, watch, s1, n - 1) else s1
  {}

  // ---------- The loop as the source runs it ----------

  class Emulator<!M> {
    const exec: Behaviour<M>
    const watch: Watch<M>
    var machine: M
    var nemuState: NemuState
    /** The values of the active watchpoints, in list order. */
    var values: seq<word>
    var nrGuestInstr: nat

    constructor (exec: Behaviour<M>, watch: Watch<M>, machine: M, values: seq<word>)
      ensures this.exec == exec && this.watch == watch
      ensures State() == Monitor(machine, NemuState(STOP, 0, 0), values, 0)
    {
      this.exec, this.watch, this.machine, this.values := exec, watch, machine, values;
      nemuState, nrGuestInstr := NemuState(STOP, 0, 0), 0;
    }

    ghost function State(): Monitor<M>
      reads this
    {
      Monitor(machine, nemuState, values, nrGuestInstr)
    }

    /** The walk over the watchpoints after an instruction. */
    method CheckWatchpoints()
      modifies this`values, this`nemuState
      ensures values == Values(watch, machine, |old(values)|)
      ensures nemuState == if values != old(values) then old(nemuState).(state := STOP) else old(nemuState)
    {
      var i, changed := 0, false;
      while i < |values|
        invariant 0 <= i <= |values| == |old(values)| && nemuState == old(nemuState)
        invariant forall k | 0 <= k < |values| :: values[k] == if k < i then watch(machine, k) else old(values)[k]
        invariant changed <==> exists k | 0 <= k < i :: watch(machine, k) != old(values)[k]
      {
        var a := watch(machine, i);
        if a != values[i] {
          changed := true;
        }
        values := values[i := a];
        i := i + 1;
      }
      if changed {
        nemuState := nemuState.(state := STOP);
      }
      assert values == Values(watch, machine, |old(values)|);
    }

    /** The loop body: exec_once, the differential check, the watchpoints, the instruction counter, the devices. */
    method ExecOnce()
      modifies this
      ensures State() == Pass(exec, watch, old(State()))
    {
      var (m1, exit) := exec.isaExec(machine);
      if exit.Some? {
        nemuState := ExitState(exit.value, nemuState);
      }
      var (m2, differs) := exec.difftest(machine, m1);
      if differs.Some? {
        nemuState := nemuState.(state := ABORT, haltPc := differs.value);
      }
      machine := m2;
      CheckWatchpoints();
      nrGuestInstr := Counted(nrGuestInstr + 1);
      machine := exec.devices(machine, nemuState.state);
    }

    method CpuExec(n: nat)
      modifies this
      ensures State() == Exec(exec, watch, old(State()), n)
    {
      if !Over(nemuState.state) {
        nemuState := nemuState.(state := RUNNING);
        ghost var result := Loop(exec, watch, State(), n);
        var left, running := n, true;
        while left > 0 && running
          invariant running == (State().nemu.state == RUNNING)
          invariant result == if running then Loop(exec, watch, State(), left) else State()
        {
          LoopUnfold(exec, watch, State(), left);
          ExecOnce();
          running := nemuState.state == RUNNING;
          left := left - 1;
        }
        if nemuState.state == RUNNING {
          nemuState := nemuState.(state := STOP);
        }
      }
    }
  }

  // ---------- Calls in a row ----------

  lemma {:induction false} RoundsSplit<M>(pass: Monitor<M> -> Monitor<M>, s: Monitor<M>, a: nat, b: nat)
    requires s.nemu.state == RUNNING
    ensures var t := Rounds(pass, s, a);
            Rounds(pass, s, a + b) == if t.nemu.state == RUNNING then Rounds(pass, t, b) else t
    decreases a
  {
    if a > 0 {
      var s1 := pass(s);
      if s1.nemu.state == RUNNING {
        RoundsSplit(pass, s1, a - 1, b);
      }
    }
  }

  lemma LoopSplits<M>(exec: Behaviour<M>, watch: Watch<M>, s: Monitor<M>, a: nat, b: nat)
    requires s.nemu.state == RUNNING
    ensures var t := Loop(exec, watch, s, a);
            Loop(exec, watch, s, a + b) == if t.nemu.state == RUNNING then Loop(exec, watch, t, b) else t
  {
    RoundsSplit(Passes(exec, watch), s, a, b);
  }

  /** Within n passes a watched value changes, and no instruction before that exits. */
  predicate WatchStops<M>(exec: Behaviour<M>, watch: Watch<M>, s: Monitor<M>, n: nat)
    decreases n
  {
    n > 0 &&
    var (m, exit) := Once(exec, s.machine);
    Values(watch, m, |s.values|) != s.values || (exit.None? && WatchStops(exec, watch, Pass(exec, watch, s), n - 1))
  }

  lemma {:induction false} WatchStopsLoop<M>(exec: Behaviour<M>, watch: Watch<M>, s: Monitor<M>, n: nat)
    requires s.nemu.state == RUNNING
    ensures Loop(exec, watch, s, n).nemu.state == STOP <==> WatchStops(exec, watch, s, n)
    decreases n
  {
    if n > 0 {
      var s1 := Pass(exec, watch, s);
      var (m, exit) := Once(exec, s.machine);
      var values := Values(watch, m, |s.values|);
      assert s1.nemu.state == if values != s.values then STOP
                              else if exit.None? then RUNNING else ExitState(exit.value, s.nemu).state;
      if values == s.values && exit.None? {
        WatchStopsLoop(exec, watch, s1, n - 1);
      }
    }
  }

  /** Without watchpoints nothing is stopped. */
  lemma {:induction false} NothingStops<M>(exec: Behaviour<M>, watch: Watch<M>, s: Monitor<M>, n: nat)
    requires s.values == []
    ensures !WatchStops(exec, watch, s, n) && Loop(exec, watch, s, n).values == []
    decreases n
  {
    if n > 0 {
      NothingStops(exec, watch, Pass(exec, watch, s), n - 1);
    }
  }

  /** Unless a watchpoint stopped the first, two calls do what one call does. */
  lemma UnstoppedCallsCompose<M>(exec: Behaviour<M>, watch: Watch<M>, s: Monitor<M>, a: nat, b: nat)
    requires Over(s.nemu.state) || !WatchStops(exec, watch, Started(s), a)
    ensures Exec(exec, watch, Exec(exec, watch, s, a), b) == Exec(exec, watch, s, a + b)
  {
    if !Over(s.nemu.state) {
      LoopSplits(exec, watch, Started(s), a, b);
      WatchStopsLoop(exec, watch, Started(s), a);
      var t := Loop(exec, watch, Started(s), a);
      if t.nemu.state == RUNNING {
        assert Started(Exec(exec, watch, s, a)) == t;
      }
    }
  }

  lemma CountedTwice(c: nat, k: nat)
    ensures Counted(Counted(c + 1) + k) == Counted(c + (k + 1))
  {}

  lemma CountMoves(c: nat, k: nat)
    requires 0 < k < COUNTS && c < COUNTS
    ensures Counted(c + k) != c
  {}

  /** A loop of at least one pass has counted at least one instruction, and at most n. */
  lemma {:induction false} LoopCounts<M>(exec: Behaviour<M>, watch: Watch<M>, s: Monitor<M>, n: nat) returns (k: nat)
    requires n > 0
    ensures 0 < k <= n && Loop(exec, watch, s, n).count == Counted(s.count + k)
    decreases n
  {
    LoopUnfold(exec, watch, s, n);
    var s1 := Pass(exec, watch, s);
    assert s1.count == Counted(s.count + 1);
    if s1.nemu.state != RUNNING || n == 1 {
      k := 1;
      assert n == 1 ==> Loop(exec, watch, s1, n - 1) == s1;
    } else {
      var k1 := LoopCounts(exec, watch, s1, n - 1);
      CountedTwice(s.count, k1);
      k := k1 + 1;
    }
  }

  /**
   Two calls do what one call does exactly when the program was over, the second asks for nothing, or no
   watchpoint stopped the first: a stopped run is taken up again by the second call.
   */
  lemma CallsCompose<M>(exec: Behaviour<M>, watch: Watch<M>, s: Monitor<M>, a: nat, b: nat)
    requires s.count < COUNTS && b < COUNTS
    ensures Exec(exec, watch, Exec(exec, watch, s, a), b) == Exec(exec, watch, s, a + b) <==>
            (Over(s.nemu.state) || b == 0 || !WatchStops(exec, watch, Started(s), a))
  {
    if Over(s.nemu.state) || !WatchStops(exec, watch, Started(s), a) {
      UnstoppedCallsCompose(exec, watch, s, a, b);
    } else {
      LoopSplits(exec, watch, Started(s), a, b);
      WatchStopsLoop(exec, watch, Started(s), a);
      var t := Exec(exec, watch, s, a);
      assert Exec(exec, watch, s, a + b) == t;
      if b == 0 {
        assert Loop(exec, watch, Started(t), b) == Started(t);
      } else {
        CountBounded(exec, watch, Started(s), a);
        var k := LoopCounts(exec, watch, Started(t), b);
        CountMoves(t.count, k);
      }
    }
  }

  lemma {:induction false} CountBounded<M>(exec: Behaviour<M>, watch: Watch<M>, s: Monitor<M>, n: nat)
    requires s.count < COUNTS
    ensures Loop(exec, watch, s, n).count < COUNTS
    decreases n
  {
    if n > 0 {
      CountBounded(exec, watch, Pass(exec, watch, s), n - 1);
    }
  }

  function Calls<M>(exec: Behaviour<M>, watch: Watch<M>, s: Monitor<M>, ns: seq<nat>): Monitor<M>
    decreases |ns|
  {
    if ns == [] then s else Calls(exec, watch, Exec(exec, watch, s, ns[0]), ns[1..])
  }

  function Sum(ns: seq<nat>): nat {
    if ns == [] then 0 else ns[0] + Sum(ns[1..])
  }

  /** How many instructions a run of at most n executes: up to the first that exits. */
  function Executed<M>(exec: Behaviour<M>, m: M, n: nat): (k: nat)
    ensures k <= n
    decreases n
  {
    if n == 0 then 0
    else if Once(exec, m).1.Some? then 1
    else 1 + Executed(exec, Next(exec, m), n - 1)
  }

  /** The machine after n instructions, whatever they report. */
  function After<M>(exec: Behaviour<M>, m: M, n: nat): M
    decreases n
  {
    if n == 0 then m else After(exec, Next(exec, m), n - 1)
  }

  /** The machine before the i-th instruction exits. */
  predicate ExitsAt<M>(exec: Behaviour<M>, m: M, i: nat) {
    Once(exec, After(exec, m, i)).1.Some?
  }

  /** No instruction before the last executed one exits, and short of n instructions the last one does. */
  lemma {:induction false} ExecutedToFirstExit<M>(exec: Behaviour<M>, m: M, n: nat)
    ensures var k := Executed(exec, m, n);
            && (forall i: nat | i + 1 < k :: !ExitsAt(exec, m, i))
            && (k < n ==> k > 0 && ExitsAt(exec, m, k - 1))
    decreases n
  {
    if n > 0 && Once(exec, m).1.None? {
      var m1 := Next(exec, m);
      ExecutedToFirstExit(exec, m1, n - 1);
      forall i: nat | i + 1 < Executed(exec, m, n) ensures !ExitsAt(exec, m, i) {
        if i > 0 {
          assert ExitsAt(exec, m, i) <==> ExitsAt(exec, m1, i - 1);
        }
      }
      var k := Executed(exec, m1, n - 1);
      assert k > 0 ==> (ExitsAt(exec, m, k) <==> ExitsAt(exec, m1, k - 1));
    }
  }

  /** What a run of at most n instructions without watchpoints does: how far it gets and in which state it ends. */
  ghost predicate Executes<M>(exec: Behaviour<M>, s: Monitor<M>, n: nat, t: Monitor<M>) {
    var k := Executed(exec, s.machine, n);
    && t.machine == After(exec, s.machine, k) && t.values == [] && t.count == Counted(s.count + k)
    && t.nemu == if k > 0 && ExitsAt(exec, s.machine, k - 1)
                 then ExitState(Once(exec, After(exec, s.machine, k - 1)).1.value, s.nemu)
                 else s.nemu
  }

  lemma ExitingRound<M>(exec: Behaviour<M>, watch: Watch<M>, s: Monitor<M>, n: nat)
    requires s.values == [] && n > 0 && Once(exec, s.machine).1.Some?
    ensures Executes(exec, s, n, Pass(exec, watch, s))
  {
    assert After(exec, s.machine, 0) == s.machine;
    assert After(exec, s.machine, 1) == After(exec, Next(exec, s.machine), 0);
  }

  lemma OtherRound<M>(exec: Behaviour<M>, s: Monitor<M>, s1: Monitor<M>, n: nat, t: Monitor<M>)
    requires n > 0 && Once(exec, s.machine).1.None? && Executes(exec, s1, n - 1, t)
    requires s1.machine == Next(exec, s.machine) && s1.nemu == s.nemu && s1.count == Counted(s.count + 1)
    ensures Executes(exec, s, n, t)
  {
    var k := Executed(exec, s1.machine, n - 1);
    assert After(exec, s.machine, k + 1) == After(exec, s1.machine, k);
    assert k > 0 ==> After(exec, s.machine, k) == After(exec, s1.machine, k - 1);
    assert After(exec, s.machine, 0) == s.machine;
    CountedTwice(s.count, k);
  }

  lemma {:induction false} LoopExecutes<M>(exec: Behaviour<M>, watch: Watch<M>, s: Monitor<M>, n: nat)
    requires s.values == [] && s.nemu.state == RUNNING && s.count == Counted(s.count)
    ensures Executes(exec, s, n, Loop(exec, watch, s, n))
    decreases n
  {
    if n > 0 {
      var s1 := Pass(exec, watch, s);
      if Once(exec, s.machine).1.Some? {
        ExitingRound(exec, watch, s, n);
      } else {
        LoopExecutes(exec, watch, s1, n - 1);
        OtherRound(exec, s, s1, n, Loop(exec, watch, s1, n - 1));
      }
    }
  }

  /** One call without watchpoints. */
  lemma ExecExecutes<M>(exec: Behaviour<M>, watch: Watch<M>, s: Monitor<M>, n: nat)
    requires s.values == [] && !Over(s.nemu.state) && s.count == Counted(s.count)
    ensures var (t, k) := (Exec(exec, watch, s, n), Executed(exec, s.machine, n));
            && t.machine == After(exec, s.machine, k) && t.count == Counted(s.count + k)
            && t.nemu == if k > 0 && ExitsAt(exec, s.machine, k - 1)
                         then ExitState(Once(exec, After(exec, s.machine, k - 1)).1.value, s.nemu)
                         else s.nemu.(state := STOP)
  {
    LoopExecutes(exec, watch, Started(s), n);
  }

  /** The machine and the state it leaves. */
  lemma ExecLeaves<M>(exec: Behaviour<M>, watch: Watch<M>, s: Monitor<M>, n: nat) returns (t: Monitor<M>, k: nat)
    requires s.values == [] && !Over(s.nemu.state) && s.count < COUNTS
    ensures t == Exec(exec, watch, s, n) && k == Executed(exec, s.machine, n)
    ensures t.machine == After(exec, s.machine, k)
    ensures t.nemu == if k > 0 && ExitsAt(exec, s.machine, k - 1)
                      then ExitState(Once(exec, After(exec, s.machine, k - 1)).1.value, s.nemu)
                      else s.nemu.(state := STOP)
  {
    ExecExecutes(exec, watch, s, n);
    t, k := Exec(exec, watch, s, n), Executed(exec, s.machine, n);
  }

  /**
   Any series of calls without watchpoints executes the instructions up to the first one that exits, or as many
   as were asked for in all; once the program has ended or aborted nothing more is executed.
   */
  lemma {:induction false} CallsExecute<M>(exec: Behaviour<M>, watch: Watch<M>, s: Monitor<M>, ns: seq<nat>)
    requires s.values == [] && ns != [] && !Over(s.nemu.state) && s.count == Counted(s.count)
    ensures var (t, k) := (Calls(exec, watch, s, ns), Executed(exec, s.machine, Sum(ns)));
            && t.machine == After(exec, s.machine, k) && t.count == Counted(s.count + k)
            && t.nemu == if k > 0 && ExitsAt(exec, s.machine, k - 1)
                         then ExitState(Once(exec, After(exec, s.machine, k - 1)).1.value, s.nemu)
                         else s.nemu.(state := STOP)
  {
    CallsAreOne(exec, watch, s, ns);
    ExecExecutes(exec, watch, s, Sum(ns));
  }

  lemma {:induction false} CallsAreOne<M>(exec: Behaviour<M>, watch: Watch<M>, s: Monitor<M>, ns: seq<nat>)
    requires s.values == [] && ns != []
    ensures Calls(exec, watch, s, ns) == Exec(exec, watch, s, Sum(ns))
    decreases |ns|
  {
    var s1 := Exec(exec, watch, s, ns[0]);
    if |ns| == 1 {
      assert Calls(exec, watch, s1, ns[1..]) == s1 && Sum(ns[1..]) == 0;
    } else {
      NothingStops(exec, watch, Started(s), ns[0]);
      CallsAreOne(exec, watch, s1, ns[1..]);
      UnstoppedCallsCompose(exec, watch, s, ns[0], Sum(ns[1..]));
    }
  }

  // ---------- Watchpoints against ended programs ----------

  /** The monitor before the last pass of a run. */
  function BeforeLast<M>(exec: Behaviour<M>, watch: Watch<M>, s: Monitor<M>, n: nat): Monitor<M>
    requires n > 0
    decreases n
  {
    var s1 := Pass(exec, watch, s);
    if s1.nemu.state != RUNNING || n == 1 then s else BeforeLast(exec, watch, s1, n - 1)
  }

  /**
   With watchpoints: a call leaves the program ended exactly when its last instruction exited and changed no
   watched value.
   */
  lemma {:induction false} EndIsKept<M>(exec: Behaviour<M>, watch: Watch<M>, s: Monitor<M>, n: nat)
    requires n > 0 && !Over(s.nemu.state)
    ensures var last := BeforeLast(exec, watch, Started(s), n);
            Over(Exec(exec, watch, s, n).nemu.state) <==>
            Once(exec, last.machine).1.Some? && Values(watch, Once(exec, last.machine).0, |last.values|) == last.values
  {
    LastPassDecides(exec, watch, Started(s), n);
  }

  lemma {:induction false} LastPassDecides<M>(exec: Behaviour<M>, watch: Watch<M>, s: Monitor<M>, n: nat)
    requires n > 0 && s.nemu.state == RUNNING
    ensures var last := BeforeLast(exec, watch, s, n);
            last.nemu.state == RUNNING && Loop(exec, watch, s, n) == Pass(exec, watch, last)
    decreases n
  {
    var s1 := Pass(exec, watch, s);
    if s1.nemu.state == RUNNING && n > 1 {
      LastPassDecides(exec, watch, s1, n - 1);
    } else if s1.nemu.state == RUNNING {
      assert Loop(exec, watch, s1, n - 1) == s1;
    }
  }

  lemma FirstStops<M>(exec: Behaviour<M>, watch: Watch<M>, s: Monitor<M>, n: nat)
    requires !Over(s.nemu.state) && n > 0 && Pass(exec, watch, Started(s)).nemu.state == STOP
    ensures Exec(exec, watch, s, n) == Pass(exec, watch, Started(s))
  {}

  /**
   An ended program that goes on: when the instruction that ends or aborts it also changes a watched value, the
   call leaves the state STOP, and every further call executes instructions.
   */
  lemma EndForgotten<M>(exec: Behaviour<M>, watch: Watch<M>, s: Monitor<M>, n: nat, more: nat) returns (k: nat)
    requires !Over(s.nemu.state) && n > 0 && more > 0
    requires Once(exec, s.machine).1.Some?
    requires Values(watch, Once(exec, s.machine).0, |s.values|) != s.values
    ensures Exec(exec, watch, s, n) == Pass(exec, watch, Started(s))
    ensures 0 < k <= more
    ensures var t := Exec(exec, watch, s, n);
            t.nemu.state == STOP && Exec(exec, watch, t, more).count == Counted(t.count + k)
  {
    FirstStops(exec, watch, s, n);
    k := LoopCounts(exec, watch, Started(Exec(exec, watch, s, n)), more);
  }

  /** The program counter and EAX of a machine with the trap at one address and `inc eax` everywhere else. */
  datatype Core = Core(pc: word, eax: word)

  /** Either instruction is one byte long, and the pc moves behind it, also behind the trap. */
  function TrapOrInc(trap: word, c: Core): (Core, Option<Exit>) {
    if c.pc == trap then (Core(Wrap(c.pc + 1), c.eax), Some(Ended(c.pc, c.eax)))
    else (Core(Wrap(c.pc + 1), Wrap(c.eax + 1)), None)
  }

  /** Without a reference and without devices. */
  function Trapping(trap: word): Behaviour<Core> {
    Behaviour((c: Core) => TrapOrInc(trap, c), (_: Core, c: Core) => (c, None), (c: Core, _: RunState) => c)
  }

  /** The watched expression is `$pc`. */
  function WatchedPc(c: Core, i: nat): word {
    c.pc
  }

  /** A watched `$pc` changes at every instruction, so each call executes one, whatever it reports. */
  lemma OneInstruction(trap: word, s: Monitor<Core>, n: nat) returns (t: Monitor<Core>)
    requires s.values == [s.machine.pc] && s.nemu.state == STOP && n > 0
    ensures t == Exec(Trapping(trap), WatchedPc, s, n)
    ensures t.machine == TrapOrInc(trap, s.machine).0 && t.values == [t.machine.pc] && t.nemu.state == STOP
  {
    t := Pass(Trapping(trap), WatchedPc, Started(s));
    var pc: word := Wrap(s.machine.pc + 1);
    assert pc != s.machine.pc;
    var values := Values(WatchedPc, t.machine, |s.values|);
    assert values[0] == pc;
    FirstStops(Trapping(trap), WatchedPc, s, n);
  }

  lemma BehindTrap(c: Core)
    ensures var c1 := TrapOrInc(c.pc, c).0;
            && TrapOrInc(c.pc, c).1 == Some(Ended(c.pc, c.eax)) && c1 == Core(Wrap(c.pc + 1), c.eax)
            && TrapOrInc(c.pc, c1) == (Core(Wrap(c.pc + 2), Wrap(c.eax + 1)), None)
  {}

  /**
   With `$pc` watched the trap does not end the program: the first call leaves the state STOP behind the trap, and
   the next one executes the instruction after it.
   */
  lemma TrapStops(s: Monitor<Core>, n: nat, more: nat) returns (t: Monitor<Core>, u: Monitor<Core>)
    requires s.values == [s.machine.pc] && s.nemu.state == STOP && n > 0 && more > 0
    ensures var trap := s.machine.pc;
            && TrapOrInc(trap, s.machine).1.Some?
            && t == Exec(Trapping(trap), WatchedPc, s, n) && u == Exec(Trapping(trap), WatchedPc, t, more)
            && t.nemu.state == STOP && t.machine == Core(Wrap(trap + 1), s.machine.eax)
            && u.machine == Core(Wrap(trap + 2), Wrap(s.machine.eax + 1))
  {
    BehindTrap(s.machine);
    t := OneInstruction(s.machine.pc, s, n);
    u := OneInstruction(s.machine.pc, t, more);
  }
}
