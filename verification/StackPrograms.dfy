/** Balanced code (Stack.dfy) as a program for the emulated processor: its instructions run on Cpu.dfy. */
module StackPrograms {
  import opened Words
  import opened X86State
  import opened Stack
  import P = Processor

  /** A run of the instructions has gone as the code runs on states. */
  ghost predicate Reached(o: Outcome, ok: bool, s: State, events: seq<Event>) {
    if o.Stuck? then !ok else ok && o == Ran(s, events)
  }

  lemma WholeRegister(g: Registers, r: regindex, v: word)
    ensures WriteReg(g, r, v, 4) == g[r := v]
  {}

  method SetRegister(cpu: P.Cpu, r: regindex, v: word)
    modifies cpu, cpu.pmem
    ensures cpu.State() == old(cpu.State()).(g := old(cpu.gpr)[r := v])
  {
    WholeRegister(cpu.gpr, r, v);
    cpu.dest, cpu.src := RegOperand(r, 4, 0), ImmOperand(4, v);
    var ok := cpu.Mov();
  }

  method StoreTo(cpu: P.Cpu, addr: word, v: word, n: width) returns (ok: bool)
    modifies cpu, cpu.pmem
    ensures ok <==> addr + n <= cpu.pmem.Length
    ensures ok ==> cpu.State() == old(cpu.State()).(m := WriteMemory(old(cpu.pmem[..]), addr, v, n))
  {
    cpu.dest, cpu.src := MemOperand(addr, n, 0), ImmOperand(n, v);
    ok := cpu.Mov();
  }

  method PushWord(cpu: P.Cpu, v: word) returns (ok: bool)
    modifies cpu, cpu.pmem
    ensures ok <==> Push(old(cpu.State()), v).Some?
    ensures ok ==> cpu.State() == Push(old(cpu.State()), v).value
  {
    cpu.dest := ImmOperand(4, v);
    ok := cpu.Push();
  }

  method PopInto(cpu: P.Cpu, r: regindex) returns (ok: bool, v: word)
    modifies cpu, cpu.pmem
    ensures ok <==> Pop(old(cpu.State())).Some?
    ensures ok ==> var (x, s) := Pop(old(cpu.State())).value; v == x && cpu.State() == s.(g := s.g[r := x])
  {
    cpu.dest := RegOperand(r, 4, 0);
    ok := cpu.Pop();
    v := 0;
    if ok {
      v := cpu.gpr[r];
      ghost var (x, s) := Pop(old(cpu.State())).value;
      WholeRegister(s.g, r, x);
    }
  }

  method CallTo(cpu: P.Cpu, next: word, target: word) returns (ok: bool)
    modifies cpu, cpu.pmem
    ensures ok <==> Call(old(cpu.State()), next, target).Some?
    ensures ok ==> cpu.State() == Call(old(cpu.State()), next, target).value
  {
    cpu.seqPc, cpu.jmpPc := next, target;
    ok := cpu.Call();
    cpu.UpdatePc();
  }

  method Return(cpu: P.Cpu) returns (ok: bool)
    modifies cpu, cpu.pmem
    ensures ok <==> Ret(old(cpu.State())).Some?
    ensures ok ==> cpu.State() == Ret(old(cpu.State())).value
  {
    ok := cpu.Ret();
    cpu.UpdatePc();
  }

  method Reserve(cpu: P.Cpu, locals: word)
    modifies cpu, cpu.pmem
    ensures var esp: int := old(cpu.gpr)[ESP];
            cpu.State() == old(cpu.State()).(g := old(cpu.gpr)[ESP := Wrap(esp - locals)])
  {
    cpu.dest, cpu.src := RegOperand(ESP, 4, cpu.gpr[ESP]), ImmOperand(4, locals);
    ghost var esp: int := cpu.gpr[ESP];
    WholeRegister(cpu.gpr, ESP, Wrap(esp - locals));
    cpu.Sub();
  }

  /** push ebp; mov ebp, esp; sub esp, locals. */
  method Enter(cpu: P.Cpu, locals: word) returns (ok: bool)
    modifies cpu, cpu.pmem
    ensures ok <==> Push(old(cpu.State()), old(cpu.gpr)[EBP]).Some?
    ensures ok ==> cpu.State() == Entered(Push(old(cpu.State()), old(cpu.gpr)[EBP]).value, locals)
  {
    ok := PushWord(cpu, cpu.gpr[EBP]);
    if ok {
      SetRegister(cpu, EBP, cpu.gpr[ESP]);
      Reserve(cpu, locals);
    }
  }

  /** The code on the processor: it gets stuck exactly when the run on states does, and ends in the same state. */
  method Execute(cpu: P.Cpu, c: Code) returns (ok: bool, events: seq<Event>)
    modifies cpu, cpu.pmem
    ensures Reached(Run(c, old(cpu.State())), ok, cpu.State(), events)
    decreases c, 1
  {
    ok, events := true, [];
    match c {
      case Done =>
      case Store(_, _, _, _) => ok, events := ExecuteStore(cpu, c);
      case Local(_, _, _, _) => ok, events := ExecuteLocal(cpu, c);
      case Set(r, v, next) =>
        SetRegister(cpu, r, v);
        ok, events := Execute(cpu, next);
      case Saved(_, _, _, _) => ok, events := ExecuteSaved(cpu, c);
      case Called(_, _, _, _) => ok, events := ExecuteCalled(cpu, c);
      case Frame(_, _, _, _) => ok, events := ExecuteFrame(cpu, c);
    }
  }

  method ExecuteStore(cpu: P.Cpu, c: Code) returns (ok: bool, events: seq<Event>)
    requires c.Store?
    modifies cpu, cpu.pmem
    ensures Reached(Run(c, old(cpu.State())), ok, cpu.State(), events)
    decreases c, 0
  {
    events := [];
    ok := StoreTo(cpu, c.addr, c.v, c.n);
    if !ok { return; }
    ok, events := Execute(cpu, c.next);
  }

  method ExecuteLocal(cpu: P.Cpu, c: Code) returns (ok: bool, events: seq<Event>)
    requires c.Local?
    modifies cpu, cpu.pmem
    ensures Reached(Run(c, old(cpu.State())), ok, cpu.State(), events)
    decreases c, 0
  {
    events := [];
    ok := StoreTo(cpu, LocalAddress(cpu.gpr, c.below), c.v, c.n);
    if !ok { return; }
    ok, events := Execute(cpu, c.next);
  }

  method ExecuteSaved(cpu: P.Cpu, c: Code) returns (ok: bool, events: seq<Event>)
    requires c.Saved?
    modifies cpu, cpu.pmem
    ensures Reached(Run(c, old(cpu.State())), ok, cpu.State(), events)
    decreases c, 0
  {
    events := [];
    ok := PushWord(cpu, c.v);
    if !ok { return; }
    ok, events := Execute(cpu, c.body);
    if !ok { return; }
    var v, more;
    ok, v := PopInto(cpu, c.into);
    if !ok { return; }
    ok, more := Execute(cpu, c.next);
    events := events + [Popped(v)] + more;
  }

  method ExecuteCalled(cpu: P.Cpu, c: Code) returns (ok: bool, events: seq<Event>)
    requires c.Called?
    modifies cpu, cpu.pmem
    ensures Reached(Run(c, old(cpu.State())), ok, cpu.State(), events)
    decreases c, 0
  {
    events := [];
    ok := CallTo(cpu, c.seqPc, c.target);
    if !ok { return; }
    ok, events := Execute(cpu, c.body);
    if !ok { return; }
    ok := Return(cpu);
    if !ok { return; }
    var pc, more := cpu.pc, [];
    ok, more := Execute(cpu, c.next);
    events := events + [Returned(pc)] + more;
  }

  method ExecuteFrame(cpu: P.Cpu, c: Code) returns (ok: bool, events: seq<Event>)
    requires c.Frame?
    modifies cpu, cpu.pmem
    ensures Reached(Run(c, old(cpu.State())), ok, cpu.State(), events)
    decreases c, 0
  {
    events := [];
    ok := Enter(cpu, c.locals);
    if !ok { return; }
    ok, events := Execute(cpu, c.body);
    if !ok { return; }
    SetRegister(cpu, ESP, c.sp);
    ok := cpu.Leave();
    if !ok { return; }
    var more;
    ok, more := Execute(cpu, c.next);
    events := events + more;
  }

  /**
   Balanced code on a private stack region runs through on the processor: every pop and ret delivers what was
   pushed, and esp, ebp and the stack in use but for locals end as they began.
   */
  method ExecuteBalanced(cpu: P.Cpu, c: Code, ghost lo: int, ghost top: int, ghost locals: nat)
    returns (events: seq<Event>)
    requires Room(c, cpu.State(), lo, top, locals)
    modifies cpu, cpu.pmem
    ensures events == Expected(c)
    ensures cpu.gpr[ESP] == old(cpu.gpr)[ESP] && cpu.gpr[EBP] == old(cpu.gpr)[EBP]
    ensures AgreeBut(old(cpu.pmem[..]), cpu.pmem[..], old(cpu.gpr)[ESP], top, old(cpu.gpr)[EBP], locals)
  {
    BalancedRun(c, cpu.State(), lo, top, locals);
    var ok;
    ok, events := Execute(cpu, c);
  }
}
