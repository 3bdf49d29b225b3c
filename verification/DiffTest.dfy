/**
 Differential testing: after each instruction of the emulator (DUT) a reference machine (REF) is stepped and
 compared. REF is any deterministic machine; its program counter and registers can be read and set.
 */
module DiffTest {
  import opened Words
  import opened X86State
  import opened MonitorState

  /** What is compared and copied. */
  datatype Regs = Regs(pc: word, gpr: Registers)

  /** A machine; rest is what the comparison does not see: memory, flags, devices. */
  datatype Machine<R> = Machine(regs: Regs, rest: R)

  type Behaviour<!R> = Machine<R> -> Machine<R>

  function Iterate<R>(step: Behaviour<R>, m: Machine<R>, n: nat): Machine<R>
    decreases n
  {
    if n == 0 then m else Iterate(step, step(m), n - 1)
  }

  // ---------- The tester as a value ----------

  datatype TesterState<R> = TesterState(ref: Machine<R>, skipRef: bool, skipDut: int, detached: bool, aborted: bool)

  datatype Outcome<R> = Panicked | Going(c: TesterState<R>)

  /** checkregs: a difference aborts. */
  function Checked<R>(c: TesterState<R>, dut: Regs): TesterState<R> {
    if c.ref.regs == dut then c else c.(aborted := true)
  }

  /** difftest_step after an instruction that left the emulator with these registers. */
  function Step<R>(step: Behaviour<R>, c: TesterState<R>, dut: Regs): Outcome<R> {
    if c.detached then Going(c)
    else if c.skipDut > 0 then
      if c.ref.regs.pc == dut.pc then Going(Checked(c, dut).(skipDut := 0))
      else if c.skipDut == 1 then Panicked
      else Going(c.(skipDut := c.skipDut - 1))
    else if c.skipRef then Going(c.(ref := c.ref.(regs := dut), skipRef := false))
    else Going(Checked(c.(ref := step(c.ref)), dut))
  }

  // ---------- The tester as the source updates it ----------

  /** isa_difftest_checkregs: pc first, then the registers one by one. */
  method SameRegs(refR: Regs, dut: Regs) returns (same: bool)
    ensures same <==> refR == dut
  {
    same := dut.pc == refR.pc;
    var i := 0;
    while same && i < 8
      invariant 0 <= i <= 8
      invariant same ==> dut.pc == refR.pc && forall k | 0 <= k < i :: dut.gpr[k] == refR.gpr[k]
      invariant !same ==> dut != refR
    {
      same := dut.gpr[i] == refR.gpr[i];
      i := i + 1;
    }
    if same {
      assert dut.gpr == refR.gpr;
    }
  }

  class Tester<!R> {
    const step: Behaviour<R>
    var ref: Machine<R>
    var isSkipRef: bool
    var skipDutNrInstr: int
    var isDetach: bool
    var state: RunState
    var haltPc: word

    constructor (step: Behaviour<R>, ref: Machine<R>, dut: Regs)
      ensures this.step == step && this.ref == ref.(regs := dut)
      ensures !isSkipRef && skipDutNrInstr == 0 && !isDetach && state == STOP
    {
      this.step := step;
      this.ref := ref.(regs := dut);
      isSkipRef, skipDutNrInstr, isDetach := false, 0, false;
      state, haltPc := STOP, 0;
    }

    ghost function Value(): TesterState<R>
      reads this
    {
      TesterState(ref, isSkipRef, skipDutNrInstr, isDetach, state == ABORT)
    }

    /** The next check only copies the registers; a catch-up under way ends. */
    method SkipRef()
      modifies this`isSkipRef, this`skipDutNrInstr
      ensures Value() == old(Value()).(skipRef := true, skipDut := 0)
    {
      isSkipRef := true;
      skipDutNrInstr := 0;
    }

    /** REF runs ahead; the emulator is expected to reach REF's pc within nrDut more checks. */
    method SkipDut(nrRef: int, nrDut: int)
      modifies this`ref, this`skipDutNrInstr
      ensures Value() == old(Value()).(ref := Iterate(step, old(ref), if nrRef < 0 then 0 else nrRef),
                                       skipDut := old(skipDutNrInstr) + nrDut)
    {
      skipDutNrInstr := skipDutNrInstr + nrDut;
      var n := nrRef;
      ghost var total: nat := if nrRef < 0 then 0 else nrRef;
      while n > 0
        invariant n <= total && (n >= 0 || total == 0)
        invariant Iterate(step, ref, if n < 0 then 0 else n) == Iterate(step, old(ref), total)
        invariant skipDutNrInstr == old(skipDutNrInstr) + nrDut
      {
        ref := step(ref);
        n := n - 1;
      }
    }

    method CheckRegs(refR: Regs, dut: Regs, pc: word)
      modifies this`state, this`haltPc
      ensures state == (if refR == dut then old(state) else ABORT)
      ensures haltPc == if refR == dut then old(haltPc) else pc
    {
      var same := SameRegs(refR, dut);
      if !same {
        state := ABORT;
        haltPc := pc;
      }
    }

    /** ok is false when the source panics. */
    method DifftestStep(dut: Regs, oriPc: word, nextPc: word) returns (ok: bool)
      requires nextPc == dut.pc
      modifies this
      ensures match Step(step, old(Value()), dut)
              case Panicked => !ok
              case Going(c) => ok && Value() == c
      ensures state == ABORT || state == old(state)
    {
      ok := true;
      if isDetach {
        return;
      }
      if skipDutNrInstr > 0 {
        var refR := ref.regs;
        if refR.pc == nextPc {
          CheckRegs(refR, dut, nextPc);
          skipDutNrInstr := 0;
          return;
        }
        skipDutNrInstr := skipDutNrInstr - 1;
        ok := skipDutNrInstr != 0;
        return;
      }
      if isSkipRef {
        ref := ref.(regs := dut);
        isSkipRef := false;
        return;
      }
      ref := step(ref);
      CheckRegs(ref.regs, dut, oriPc);
    }

    method Detach()
      modifies this`isDetach
      ensures Value() == old(Value()).(detached := true)
    {
      isDetach := true;
    }

    method Attach()
      modifies this`isDetach, this`isSkipRef, this`skipDutNrInstr
      ensures Value() == old(Value()).(detached := false, skipRef := false, skipDut := 0)
    {
      isDetach := false;
      isSkipRef := false;
      skipDutNrInstr := 0;
    }
  }

  // ---------- Runs ----------

  /** What happens to the tester: the calls of instruction helpers, the check after an instruction, user commands. */
  datatype Event = SkippedRef | SkippedDut(nrRef: nat, nrDut: int) | Stepped(dut: Regs) | Detached | Attached

  function Do<R>(step: Behaviour<R>, c: TesterState<R>, e: Event): Outcome<R> {
    match e
    case SkippedRef => Going(c.(skipRef := true, skipDut := 0))
    case SkippedDut(nrRef, nrDut) => Going(c.(ref := Iterate(step, c.ref, nrRef), skipDut := c.skipDut + nrDut))
    case Stepped(dut) => Step(step, c, dut)
    case Detached => Going(c.(detached := true))
    case Attached => Going(c.(detached := false, skipRef := false, skipDut := 0))
  }

  function Run<R>(step: Behaviour<R>, c: TesterState<R>, es: seq<Event>): Outcome<R>
    decreases |es|
  {
    if es == [] then Going(c)
    else match Do(step, c, es[0])
      case Panicked => Panicked
      case Going(c') => Run(step, c', es[1..])
  }

  lemma {:induction false} AbortStays<R>(step: Behaviour<R>, c: TesterState<R>, es: seq<Event>)
    requires c.aborted && Run(step, c, es).Going?
    ensures Run(step, c, es).c.aborted
    decreases |es|
  {
    if es != [] {
      AbortStays(step, Do(step, c, es[0]).c, es[1..]);
    }
  }

  /**
   In every run that neither aborts nor panics, after every check with testing attached and no catch-up pending,
   REF's pc and registers are the emulator's.
   */
  lemma {:induction false} ChecksHold<R>(step: Behaviour<R>, c: TesterState<R>, es: seq<Event>, k: nat)
    requires Run(step, c, es).Going? && !Run(step, c, es).c.aborted
    requires k < |es| && es[k].Stepped?
    ensures Run(step, c, es[..k + 1]).Going?
    ensures var c' := Run(step, c, es[..k + 1]).c; !c'.detached && c'.skipDut <= 0 ==> c'.ref.regs == es[k].dut
    decreases |es|
  {
    var c1, prefix := Do(step, c, es[0]).c, es[..k + 1];
    assert prefix[0] == es[0] && prefix[1..] == es[1..][..k];
    if k == 0 {
      assert prefix[1..] == [];
      if c1.aborted {
        AbortStays(step, c1, es[1..]);
      }
    } else {
      ChecksHold(step, c1, es[1..], k - 1);
    }
  }

  function Checks(ds: seq<Regs>): (es: seq<Event>)
    ensures |es| == |ds|
  {
    if ds == [] then [] else [Stepped(ds[0])] + Checks(ds[1..])
  }

  lemma ChecksUnfold(ds: seq<Regs>)
    requires ds != []
    ensures Checks(ds)[0] == Stepped(ds[0]) && Checks(ds)[1..] == Checks(ds[1..])
  {}

  lemma {:induction false} NoCatchUpNoPanic<R>(step: Behaviour<R>, c: TesterState<R>, ds: seq<Regs>)
    requires c.skipDut <= 0
    ensures Run(step, c, Checks(ds)).Going?
    decreases |ds|
  {
    if ds != [] {
      ChecksUnfold(ds);
      NoCatchUpNoPanic(step, Step(step, c, ds[0]).c, ds[1..]);
    }
  }

  /** A catch-up of k checks panics exactly when the emulator's pc misses REF's at all of them. */
  lemma {:induction false} CatchUpPanics<R>(step: Behaviour<R>, c: TesterState<R>, ds: seq<Regs>)
    requires !c.detached && c.skipDut == |ds| > 0
    ensures Run(step, c, Checks(ds)).Panicked? <==> forall i | 0 <= i < |ds| :: ds[i].pc != c.ref.regs.pc
    decreases |ds|
  {
    ChecksUnfold(ds);
    var rest := ds[1..];
    if ds[0].pc == c.ref.regs.pc {
      NoCatchUpNoPanic(step, Step(step, c, ds[0]).c, rest);
    } else if rest != [] {
      CatchUpPanics(step, Step(step, c, ds[0]).c, rest);
      assert forall i | 0 < i < |ds| :: ds[i] == rest[i - 1];
    }
  }

  /** A catch-up ends at the first check that meets REF's pc, and there the registers are compared. */
  lemma {:induction false} CatchUpEnds<R>(step: Behaviour<R>, c: TesterState<R>, ds: seq<Regs>)
    requires !c.detached && ds != [] && c.skipDut >= |ds|
    requires forall i | 0 <= i < |ds| :: ds[i].pc == c.ref.regs.pc <==> i == |ds| - 1
    ensures Run(step, c, Checks(ds)) == Going(Checked(c, ds[|ds| - 1]).(skipDut := 0))
    decreases |ds|
  {
    ChecksUnfold(ds);
    var rest := ds[1..];
    if rest != [] {
      assert ds[0].pc != c.ref.regs.pc;
      assert forall i | 0 <= i < |rest| :: rest[i] == ds[i + 1];
      CatchUpEnds(step, c.(skipDut := c.skipDut - 1), rest);
    }
  }

  /** Nothing is skipped, pending or detached. */
  predicate Testing<R>(c: TesterState<R>) {
    !c.skipRef && c.skipDut == 0 && !c.detached
  }

  /** Without skips a run aborts exactly when some instruction's result differs from REF's. */
  lemma {:induction false} DifferencesAbort<R>(step: Behaviour<R>, c: TesterState<R>, ds: seq<Regs>)
    requires Testing(c)
    ensures Run(step, c, Checks(ds)).Going?
    ensures Run(step, c, Checks(ds)).c.aborted <==>
            c.aborted || exists i | 0 <= i < |ds| :: Iterate(step, c.ref, i + 1).regs != ds[i]
    decreases |ds|
  {
    if ds != [] {
      ChecksUnfold(ds);
      var rest, c1 := ds[1..], Step(step, c, ds[0]).c;
      DifferencesAbort(step, c1, rest);
      assert Iterate(step, c.ref, 0 + 1) == step(c.ref);
      forall i | 0 < i < |ds| ensures ds[i] == rest[i - 1] && Iterate(step, c.ref, i + 1) == Iterate(step, c1.ref, i) {}
      if exists i | 0 <= i < |rest| :: Iterate(step, c1.ref, i + 1).regs != rest[i] {
        var i :| 0 <= i < |rest| && Iterate(step, c1.ref, i + 1).regs != rest[i];
        assert Iterate(step, c.ref, (i + 1) + 1).regs != ds[i + 1];
      }
      if exists i | 0 <= i < |ds| :: Iterate(step, c.ref, i + 1).regs != ds[i] {
        var i :| 0 <= i < |ds| && Iterate(step, c.ref, i + 1).regs != ds[i];
        if i > 0 {
          assert Iterate(step, c1.ref, (i - 1) + 1).regs != rest[i - 1];
        }
      }
    }
  }

  /** An instruction of the emulator: one REF executes too, or a device access that only sets registers. */
  datatype Instr = Plain | Device(regs: Regs)

  function Execute<R>(step: Behaviour<R>, m: Machine<R>, i: Instr): Machine<R> {
    if i.Plain? then step(m) else m.(regs := i.regs)
  }

  /** What the tester sees of an instruction that left the emulator in m. */
  function Events<R>(i: Instr, m: Machine<R>): seq<Event> {
    if i.Plain? then [Stepped(m.regs)] else [SkippedRef, Stepped(m.regs)]
  }

  function Program<R>(step: Behaviour<R>, m: Machine<R>, instrs: seq<Instr>): (Machine<R>, seq<Event>)
    decreases |instrs|
  {
    if instrs == [] then (m, [])
    else
      var m1 := Execute(step, m, instrs[0]);
      var (m2, es) := Program(step, m1, instrs[1..]);
      (m2, Events(instrs[0], m1) + es)
  }

  /** A machine tested against itself, device accesses being skipped, never aborts, and REF follows it. */
  lemma {:induction false} SameMachinesAgree<R>(step: Behaviour<R>, c: TesterState<R>, instrs: seq<Instr>)
    requires Testing(c)
    ensures var (m, es) := Program(step, c.ref, instrs); Run(step, c, es) == Going(c.(ref := m))
    decreases |instrs|
  {
    if instrs != [] {
      var m1 := Execute(step, c.ref, instrs[0]);
      var (m2, es) := Program(step, m1, instrs[1..]);
      SameMachinesAgree(step, c.(ref := m1), instrs[1..]);
      if instrs[0].Plain? {
        assert ([Stepped(m1.regs)] + es)[1..] == es;
      } else {
        assert ([SkippedRef, Stepped(m1.regs)] + es)[1..][1..] == es;
        assert ([SkippedRef, Stepped(m1.regs)] + es)[1..][0] == Stepped(m1.regs);
      }
    }
  }
}
