/**
 The run loop of a build with differential testing: the check of CpuExec.dfy is the tester of DiffTest.dfy. At which
 instruction a run without skips, detaching and watchpoints ends.
 */
module TestedRuns {
  import opened Options
  import opened Words
  import opened MonitorState
  import opened CpuExec
  import D = DiffTest

  type Dut<R> = D.Machine<R>

  /** The emulated machine: its instructions and its devices. */
  datatype Emulated<!R> = Emulated(isaExec: Dut<R> -> (Dut<R>, Option<Exit>), devices: (Dut<R>, RunState) -> Dut<R>)

  /** A machine and the tester beside it. */
  datatype Pair<R> = Pair(dut: Dut<R>, tester: D.TesterState<R>)

  /** The build without differential testing. */
  function Plain<R>(e: Emulated<R>): Behaviour<Dut<R>> {
    Behaviour(e.isaExec, (_: Dut<R>, m: Dut<R>) => (m, None), e.devices)
  }

  /** difftest_step after an instruction that started in m: a difference aborts at the pc of the instruction. */
  function Checked<R>(ref: D.Behaviour<R>, m: Pair<R>, m1: Pair<R>): (Pair<R>, Option<word>) {
    match D.Step(ref, m1.tester, m1.dut.regs)
    case Panicked => (m1, None)
    case Going(c) => (m1.(tester := c), if c.aborted && !m1.tester.aborted then Some(m.dut.regs.pc) else None)
  }

  /** The build with differential testing of the same machine. */
  function UnderTest<R>(e: Emulated<R>, ref: D.Behaviour<R>): Behaviour<Pair<R>> {
    Behaviour((m: Pair<R>) => var (d, exit) := e.isaExec(m.dut); (m.(dut := d), exit),
              (m: Pair<R>, m1: Pair<R>) => Checked(ref, m, m1),
              (m: Pair<R>, r: RunState) => m.(dut := e.devices(m.dut, r)))
  }

  /** Nothing was different yet, and nothing is skipped, pending or detached. */
  predicate Clear<R>(c: D.TesterState<R>) {
    D.Testing(c) && !c.aborted
  }

  /** The i-th instruction leaves other registers than the i-th of the reference. */
  predicate DiffersAt<R>(e: Emulated<R>, ref: D.Behaviour<R>, m: Pair<R>, i: nat) {
    Once(Plain(e), After(Plain(e), m.dut, i)).0.regs != D.Iterate(ref, m.tester.ref, i + 1).regs
  }

  /** What one instruction under test is, in terms of the machine and the reference alone. */
  lemma RoundUnderTest<R>(e: Emulated<R>, ref: D.Behaviour<R>, m: Pair<R>)
    requires Clear(m.tester)
    ensures var (m1, ends) := Once(UnderTest(e, ref), m);
            var (d, exit) := Once(Plain(e), m.dut);
            if d.regs != ref(m.tester.ref).regs
            then ends.Some? && forall nemu :: ExitState(ends.value, nemu).state == ABORT &&
                                              ExitState(ends.value, nemu).haltPc == m.dut.regs.pc
            else ends == exit && m1 == Pair(d, m.tester.(ref := ref(m.tester.ref)))
  {}

  lemma NextUnderTest<R>(e: Emulated<R>, ref: D.Behaviour<R>, m: Pair<R>)
    requires Clear(m.tester) && Once(UnderTest(e, ref), m).1.None?
    ensures Next(UnderTest(e, ref), m) == Pair(Next(Plain(e), m.dut), m.tester.(ref := ref(m.tester.ref)))
  {
    RoundUnderTest(e, ref, m);
  }

  /** The reference after n instructions, stepped last. */
  lemma {:induction false} IterateLast<R>(ref: D.Behaviour<R>, r: Dut<R>, n: nat)
    ensures D.Iterate(ref, r, n + 1) == ref(D.Iterate(ref, r, n))
    decreases n
  {
    if n == 0 {
      assert D.Iterate(ref, ref(r), 0) == ref(r);
    } else {
      IterateLast(ref, ref(r), n - 1);
    }
  }

  lemma {:induction false} AfterLast<M>(exec: Behaviour<M>, m: M, n: nat)
    ensures After(exec, m, n + 1) == Next(exec, After(exec, m, n))
    decreases n
  {
    if n == 0 {
      assert After(exec, Next(exec, m), 0) == Next(exec, m);
    } else {
      AfterLast(exec, Next(exec, m), n - 1);
    }
  }

  /** Machine and reference stand behind n instructions each. */
  ghost predicate InLockstep<R>(e: Emulated<R>, ref: D.Behaviour<R>, m: Pair<R>, n: nat) {
    After(UnderTest(e, ref), m, n) ==
    Pair(After(Plain(e), m.dut, n), m.tester.(ref := D.Iterate(ref, m.tester.ref, n)))
  }

  lemma LockstepNext<R>(e: Emulated<R>, ref: D.Behaviour<R>, m: Pair<R>, n: nat)
    requires Clear(m.tester) && InLockstep(e, ref, m, n) && !ExitsAt(UnderTest(e, ref), m, n)
    ensures InLockstep(e, ref, m, n + 1)
  {
    NextUnderTest(e, ref, After(UnderTest(e, ref), m, n));
    AfterLast(UnderTest(e, ref), m, n);
    AfterLast(Plain(e), m.dut, n);
    IterateLast(ref, m.tester.ref, n);
  }

  /** Until an instruction ends the run, machine and reference go in lockstep. */
  lemma {:induction false} Lockstep<R>(e: Emulated<R>, ref: D.Behaviour<R>, m: Pair<R>, n: nat)
    requires Clear(m.tester) && forall i: nat | i < n :: !ExitsAt(UnderTest(e, ref), m, i)
    ensures InLockstep(e, ref, m, n)
    decreases n
  {
    if n > 0 {
      Lockstep(e, ref, m, n - 1);
      LockstepNext(e, ref, m, n - 1);
    }
  }

  /** The i-th instruction, when none before it ended the run. */
  lemma EndsAt<R>(e: Emulated<R>, ref: D.Behaviour<R>, m: Pair<R>, n: nat)
    requires Clear(m.tester) && forall i: nat | i < n :: !ExitsAt(UnderTest(e, ref), m, i)
    ensures ExitsAt(UnderTest(e, ref), m, n) <==> DiffersAt(e, ref, m, n) || ExitsAt(Plain(e), m.dut, n)
    ensures var ends := Once(UnderTest(e, ref), After(UnderTest(e, ref), m, n)).1;
            if DiffersAt(e, ref, m, n)
            then ends.Some? && forall nemu :: ExitState(ends.value, nemu).state == ABORT &&
                                              ExitState(ends.value, nemu).haltPc == After(Plain(e), m.dut, n).regs.pc
            else ends == Once(Plain(e), After(Plain(e), m.dut, n)).1
  {
    Lockstep(e, ref, m, n);
    IterateLast(ref, m.tester.ref, n);
    RoundUnderTest(e, ref, After(UnderTest(e, ref), m, n));
  }

  /** The i-th instruction ends the run. */
  predicate EndsRun<R>(e: Emulated<R>, ref: D.Behaviour<R>, m: Pair<R>, i: nat) {
    DiffersAt(e, ref, m, i) || ExitsAt(Plain(e), m.dut, i)
  }

  /** How many instructions a run under test executes: up to the first that ends it. */
  lemma ExecutedUnderTest<R>(e: Emulated<R>, ref: D.Behaviour<R>, m: Pair<R>, n: nat)
    requires Clear(m.tester)
    ensures var k := Executed(UnderTest(e, ref), m, n);
            && (forall i: nat | i + 1 < k :: !ExitsAt(UnderTest(e, ref), m, i) && !EndsRun(e, ref, m, i))
            && (k < n ==> k > 0 && EndsRun(e, ref, m, k - 1))
  {
    var k := Executed(UnderTest(e, ref), m, n);
    ExecutedToFirstExit(UnderTest(e, ref), m, n);
    forall i: nat | i + 1 < k
      ensures !EndsRun(e, ref, m, i)
    {
      EndsAt(e, ref, m, i);
    }
    if k > 0 {
      EndsAt(e, ref, m, k - 1);
    }
  }

  /** The state a run under test of k instructions, none but the last of which ends it, is left in. */
  ghost predicate LeftIn<R>(e: Emulated<R>, ref: D.Behaviour<R>, m: Pair<R>, k: nat, nemu: NemuState, t: NemuState) {
    if k > 0 && DiffersAt(e, ref, m, k - 1)
    then t.state == ABORT && t.haltPc == After(Plain(e), m.dut, k - 1).regs.pc
    else if k > 0 && ExitsAt(Plain(e), m.dut, k - 1)
    then t == ExitState(Once(Plain(e), After(Plain(e), m.dut, k - 1)).1.value, nemu)
    else t == nemu.(state := STOP) && InLockstep(e, ref, m, k)
  }

  lemma LastUnderTest<R>(e: Emulated<R>, ref: D.Behaviour<R>, m: Pair<R>, k: nat, nemu: NemuState, t: NemuState)
    requires Clear(m.tester) && forall i: nat | i + 1 < k :: !ExitsAt(UnderTest(e, ref), m, i)
    requires t == if k > 0 && ExitsAt(UnderTest(e, ref), m, k - 1)
                  then ExitState(Once(UnderTest(e, ref), After(UnderTest(e, ref), m, k - 1)).1.value, nemu)
                  else nemu.(state := STOP)
    ensures LeftIn(e, ref, m, k, nemu, t)
  {
    if k > 0 {
      EndsAt(e, ref, m, k - 1);
    }
    if k == 0 || !ExitsAt(UnderTest(e, ref), m, k - 1) {
      Lockstep(e, ref, m, k);
    }
  }

  /**
   cpu_exec(n) under test, from a clear tester and without watchpoints: it executes k instructions, of which none
   but the last ends the run. If the last one differs from the reference, the emulator aborts and stops at the pc
   of that instruction; otherwise it is in the state in which the instruction left it, as without testing.
   */
  lemma TestedRun<R>(e: Emulated<R>, ref: D.Behaviour<R>, watch: Watch<Pair<R>>, s: Monitor<Pair<R>>, n: nat)
    returns (t: Monitor<Pair<R>>, k: nat)
    requires Clear(s.machine.tester) && s.values == [] && !Over(s.nemu.state) && s.count < COUNTS
    ensures t == Exec(UnderTest(e, ref), watch, s, n)
    ensures k <= n && forall i: nat | i + 1 < k :: !EndsRun(e, ref, s.machine, i)
    ensures k < n ==> k > 0 && EndsRun(e, ref, s.machine, k - 1)
    ensures t.machine == After(UnderTest(e, ref), s.machine, k) && LeftIn(e, ref, s.machine, k, s.nemu, t.nemu)
  {
    t, k := ExecLeaves(UnderTest(e, ref), watch, s, n);
    ExecutedUnderTest(e, ref, s.machine, n);
    LastUnderTest(e, ref, s.machine, k, s.nemu, t.nemu);
  }
}
