/**
 The stack of the emulated machine over little-endian byte memory: what push, pop, call, ret and leave do to
 registers and memory, and what balanced code built from them guarantees. Cpu.dfy proves the instructions
 against these functions.
 */
module Stack {
  import opened Options
  import opened Arithmetic
  import opened Words
  import opened X86State

  // ---------- Words in memory ----------

  lemma NumberOfFour(bs: seq<byte>)
    requires |bs| == 4
    ensures Number256(bs) < MODULUS
  {
    assert Number256(bs[1..]) == bs[1] + 256 * Number256(bs[1..][1..]);
    assert bs[1..][1..] == [bs[2], bs[3]];
    assert Number256([bs[2], bs[3]]) == bs[2] + 256 * Number256([bs[2], bs[3]][1..]);
    assert [bs[2], bs[3]][1..] == [bs[3]];
    assert Number256([bs[3]]) == bs[3] + 256 * Number256([bs[3]][1..]);
  }

  function ReadWord(m: seq<byte>, addr: nat): word
    requires addr + 4 <= |m|
  {
    NumberOfFour(m[addr..addr + 4]);
    ReadMemory(m, addr, 4)
  }

  /** The memories agree on the addresses from lo up to hi. */
  ghost predicate Agree(m: seq<byte>, m': seq<byte>, lo: int, hi: int) {
    |m| == |m'| && forall a | 0 <= a < |m| && lo <= a < hi :: m[a] == m'[a]
  }

  lemma WordReadsBack(m: seq<byte>, addr: nat, v: word)
    requires addr + 4 <= |m|
    ensures ReadWord(WriteMemory(m, addr, v, 4), addr) == v
  {
    assert LittleEndian(v)[..4] == LittleEndian(v);
    assert WriteMemory(m, addr, v, 4)[addr..addr + 4] == LittleEndian(v);
    LittleEndianNumber(v);
  }

  lemma WriteAgrees(m: seq<byte>, addr: nat, v: word, n: nat, lo: int, hi: int)
    requires n <= 4 && addr + n <= |m| && (addr + n <= lo || hi <= addr)
    ensures Agree(m, WriteMemory(m, addr, v, n), lo, hi)
  {}

  // ---------- Instructions ----------

  datatype State = State(g: Registers, m: seq<byte>, pc: word)

  /** esp goes down by 4 and the word is stored there; None when that is not in memory. */
  function Push(s: State, v: word): Option<State> {
    var esp: int := s.g[ESP];
    var sp := Wrap(esp - 4);
    if sp + 4 <= |s.m| then Some(State(s.g[ESP := sp], WriteMemory(s.m, sp, v, 4), s.pc)) else None
  }

  /** The word at esp, and esp up by 4. */
  function Pop(s: State): Option<(word, State)> {
    var sp := s.g[ESP];
    if sp + 4 <= |s.m| then Some((ReadWord(s.m, sp), s.(g := s.g[ESP := Wrap(sp + 4)]))) else None
  }

  function Call(s: State, seqPc: word, target: word): Option<State> {
    match Push(s, seqPc)
    case None => None
    case Some(t) => Some(t.(pc := target))
  }

  function Ret(s: State): Option<State> {
    match Pop(s)
    case None => None
    case Some((addr, t)) => Some(t.(pc := addr))
  }

  /** esp takes the value of ebp, and ebp is popped. */
  function Leave(s: State): Option<State> {
    match Pop(s.(g := s.g[ESP := s.g[EBP]]))
    case None => None
    case Some((v, t)) => Some(t.(g := t.g[EBP := v]))
  }

  // ---------- Balanced code ----------

  /**
   Code in which every push, call and frame is matched. A frame saves ebp, makes room for its locals and is closed
   by leave, whatever esp has become; other instructions store to the locals or elsewhere and set registers.
   */
  datatype Code =
    | Done
    | Store(addr: word, v: word, n: width, next: Code)
    | Local(below: word, v: word, n: width, next: Code)
    | Set(reg: regindex, v: word, next: Code)
    | Saved(v: word, into: regindex, body: Code, next: Code)
    | Called(seqPc: word, target: word, body: Code, next: Code)
    | Frame(locals: word, body: Code, sp: word, next: Code)

  /** What the matching pops and rets deliver, in order. */
  datatype Event = Popped(v: word) | Returned(pc: word)

  /** The stack bytes code needs below esp. */
  function Need(c: Code): nat {
    match c
    case Done => 0
    case Store(_, _, _, next) => Need(next)
    case Local(_, _, _, next) => Need(next)
    case Set(_, _, next) => Need(next)
    case Saved(_, _, body, next) => Max(4 + Need(body), Need(next))
    case Called(_, _, body, next) => Max(4 + Need(body), Need(next))
    case Frame(locals, body, _, next) => Max(4 + locals + Need(body), Need(next))
  }

  /**
   Nothing else touches the stack region [lo, top), nor esp or ebp; a local is stored inside the bytes that the
   innermost frame reserved below ebp.
   */
  predicate Respects(c: Code, lo: int, top: int, size: nat, locals: nat) {
    match c
    case Done => true
    case Store(addr, _, n, next) =>
      addr + n <= size && (addr + n <= lo || top <= addr) && Respects(next, lo, top, size, locals)
    case Local(below, _, n, next) => n <= below <= locals && Respects(next, lo, top, size, locals)
    case Set(r, _, next) => r != ESP && r != EBP && Respects(next, lo, top, size, locals)
    case Saved(_, r, body, next) =>
      r != ESP && r != EBP && Respects(body, lo, top, size, locals) && Respects(next, lo, top, size, locals)
    case Called(_, _, body, next) =>
      Respects(body, lo, top, size, locals) && Respects(next, lo, top, size, locals)
    case Frame(own, body, _, next) => Respects(body, lo, top, size, own) && Respects(next, lo, top, size, locals)
  }

  /** ebp - below. */
  function LocalAddress(g: Registers, below: word): word {
    var ebp: int := g[EBP];
    Wrap(ebp - below)
  }

  /** ebp points at its saved value, and esp below the locals. */
  function Entered(s: State, locals: word): State {
    var esp: int := s.g[ESP];
    s.(g := s.g[EBP := esp][ESP := Wrap(esp - locals)])
  }

  datatype Outcome = Stuck | Ran(s: State, events: seq<Event>)

  /** Code that has run to here, continued. */
  function Then(before: seq<Event>, after: Outcome): Outcome {
    if after.Stuck? then Stuck else Ran(after.s, before + after.events)
  }

  function Run(c: Code, s: State): Outcome
    decreases c
  {
    match c
    case Done => Ran(s, [])
    case Store(addr, v, n, next) =>
      if addr + n <= |s.m| then Run(next, s.(m := WriteMemory(s.m, addr, v, n))) else Stuck
    case Local(below, v, n, next) =>
      var addr := LocalAddress(s.g, below);
      if addr + n <= |s.m| then Run(next, s.(m := WriteMemory(s.m, addr, v, n))) else Stuck
    case Set(r, v, next) => Run(next, s.(g := s.g[r := v]))
    case Saved(v, r, body, next) =>
      (match Push(s, v)
       case None => Stuck
       case Some(s1) =>
         var inner := Run(body, s1);
         if inner.Stuck? then Stuck
         else match Pop(inner.s)
           case None => Stuck
           case Some((x, s2)) =>
             Then(inner.events + [Popped(x)], Run(next, s2.(g := s2.g[r := x]))))
    case Called(seqPc, target, body, next) =>
      (match Call(s, seqPc, target)
       case None => Stuck
       case Some(s1) =>
         var inner := Run(body, s1);
         if inner.Stuck? then Stuck
         else match Ret(inner.s)
           case None => Stuck
           case Some(s2) => Then(inner.events + [Returned(s2.pc)], Run(next, s2)))
    case Frame(locals, body, sp, next) =>
      (match Push(s, s.g[EBP])
       case None => Stuck
       case Some(s1) =>
         var inner := Run(body, Entered(s1, locals));
         if inner.Stuck? then Stuck
         else match Leave(inner.s.(g := inner.s.g[ESP := sp]))
           case None => Stuck
           case Some(s2) => Then(inner.events, Run(next, s2)))
  }

  /** The values that were pushed and the addresses after the calls, in the order they come back. */
  function Expected(c: Code): seq<Event> {
    match c
    case Done => []
    case Store(_, _, _, next) => Expected(next)
    case Local(_, _, _, next) => Expected(next)
    case Set(_, _, next) => Expected(next)
    case Saved(v, _, body, next) => Expected(body) + [Popped(v)] + Expected(next)
    case Called(seqPc, _, body, next) => Expected(body) + [Returned(seqPc)] + Expected(next)
    case Frame(_, body, _, next) => Expected(body) + Expected(next)
  }

  /** The memories agree from lo up to hi, but for the locals below ebp. */
  ghost predicate AgreeBut(m: seq<byte>, m': seq<byte>, lo: int, hi: int, ebp: int, locals: nat) {
    |m| == |m'| && forall a | 0 <= a < |m| && lo <= a < hi && !(ebp - locals <= a < ebp) :: m[a] == m'[a]
  }

  /** Balanced: everything came back, esp and ebp are where they were, and the stack in use but for locals unchanged. */
  ghost predicate Balanced(c: Code, s: State, o: Outcome, top: int, locals: nat) {
    && o.Ran? && o.events == Expected(c)
    && o.s.g[ESP] == s.g[ESP] && o.s.g[EBP] == s.g[EBP]
    && AgreeBut(s.m, o.s.m, s.g[ESP], top, s.g[EBP], locals)
  }

  /** The stack region has room for the code below esp, and the locals are in use. */
  predicate Room(c: Code, s: State, lo: int, top: int, locals: nat) {
    && 0 <= lo <= s.g[ESP] - Need(c) && s.g[ESP] <= top <= |s.m|
    && (locals > 0 ==> s.g[ESP] <= s.g[EBP] - locals && s.g[EBP] <= top)
    && Respects(c, lo, top, |s.m|, locals)
  }

  lemma ButTransitive(m1: seq<byte>, m2: seq<byte>, m3: seq<byte>, lo: int, hi: int, ebp: int, locals: nat)
    requires AgreeBut(m1, m2, lo, hi, ebp, locals) && AgreeBut(m2, m3, lo, hi, ebp, locals)
    ensures AgreeBut(m1, m3, lo, hi, ebp, locals)
  {}

  /** The state after a word was pushed, before the code between push and pop. */
  predicate Pushed(s: State, v: word, s1: State) {
    4 <= s.g[ESP] <= |s.m| && s1.g[ESP] == s.g[ESP] - 4 && s1.m == WriteMemory(s.m, s.g[ESP] - 4, v, 4)
  }

  lemma PushSucceeds(s: State, v: word)
    requires 4 <= s.g[ESP] <= |s.m|
    ensures Push(s, v).Some? && Pushed(s, v, Push(s, v).value)
    ensures Push(s, v).value.pc == s.pc && Push(s, v).value.g[EBP] == s.g[EBP]
  {}

  /** What keeps the stack from the pushed word on keeps the word, and the stack that was in use before. */
  lemma PushedStays(s: State, v: word, s1: State, m: seq<byte>, top: int, ebp: int, locals: nat)
    requires Pushed(s, v, s1) && s.g[ESP] <= top <= |s.m| && (locals > 0 ==> s.g[ESP] <= ebp - locals)
    requires AgreeBut(s1.m, m, s.g[ESP] - 4, top, ebp, locals)
    ensures |m| == |s.m| && ReadWord(m, s.g[ESP] - 4) == v
    ensures AgreeBut(s.m, m, s.g[ESP], top, ebp, locals)
  {
    var sp := s.g[ESP] - 4;
    WordReadsBack(s.m, sp, v);
    assert s1.m[sp..sp + 4] == m[sp..sp + 4];
    WriteAgrees(s.m, sp, v, 4, sp + 4, top);
  }

  /** Balanced code between push and pop leaves the pushed word to be popped, and esp back where it was. */
  lemma BodyThenPop(s: State, v: word, s1: State, body: Code, o: Outcome, top: int, locals: nat)
    requires Pushed(s, v, s1) && s.g[ESP] <= top <= |s.m|
    requires (locals > 0 ==> s.g[ESP] <= s1.g[EBP] - locals) && Balanced(body, s1, o, top, locals)
    ensures Pop(o.s) == Some((v, o.s.(g := o.s.g[ESP := s.g[ESP]])))
    ensures AgreeBut(s.m, o.s.m, s.g[ESP], top, s1.g[EBP], locals)
  {
    PushedStays(s, v, s1, o.s.m, top, s1.g[EBP], locals);
  }

  /** Leave finds the saved ebp behind the locals, whatever the body did to them and wherever esp is. */
  lemma BodyThenLeave(s: State, s1: State, own: word, body: Code, o: Outcome, sp: word, top: int)
    requires Pushed(s, s.g[EBP], s1) && s.g[ESP] <= top <= |s.m| && own <= s1.g[ESP]
    requires Balanced(body, Entered(s1, own), o, top, own)
    ensures Leave(o.s.(g := o.s.g[ESP := sp])).Some?
    ensures var s2 := Leave(o.s.(g := o.s.g[ESP := sp])).value;
            s2.g[ESP] == s.g[ESP] && s2.g[EBP] == s.g[EBP] && s2.m == o.s.m && Agree(s.m, s2.m, s.g[ESP], top)
  {
    PushedStays(s, s.g[EBP], s1, o.s.m, top, s1.g[ESP], 0);
  }

  /** Balanced code after a part that kept esp, ebp and the stack in use. */
  lemma ThenBalanced(c: Code, s: State, events: seq<Event>, next: Code, s2: State, o: Outcome, top: int, locals: nat)
    requires s2.g[ESP] == s.g[ESP] && s2.g[EBP] == s.g[EBP] && AgreeBut(s.m, s2.m, s.g[ESP], top, s.g[EBP], locals)
    requires Balanced(next, s2, o, top, locals) && Expected(c) == events + Expected(next)
    ensures Balanced(c, s, Then(events, o), top, locals)
  {
    ButTransitive(s.m, s2.m, o.s.m, s.g[ESP], top, s.g[EBP], locals);
  }

  lemma {:induction false} SavedRun(c: Code, s: State, lo: int, top: int, locals: nat)
    requires c.Saved? && Room(c, s, lo, top, locals)
    ensures Balanced(c, s, Run(c, s), top, locals)
    decreases c, 0
  {
    PushSucceeds(s, c.v);
    var s1 := Push(s, c.v).value;
    BalancedRun(c.body, s1, lo, top, locals);
    var inner := Run(c.body, s1);
    BodyThenPop(s, c.v, s1, c.body, inner, top, locals);
    var s2 := inner.s.(g := inner.s.g[ESP := s.g[ESP]][c.into := c.v]);
    BalancedRun(c.next, s2, lo, top, locals);
    ThenBalanced(c, s, inner.events + [Popped(c.v)], c.next, s2, Run(c.next, s2), top, locals);
  }

  lemma {:induction false} CalledRun(c: Code, s: State, lo: int, top: int, locals: nat)
    requires c.Called? && Room(c, s, lo, top, locals)
    ensures Balanced(c, s, Run(c, s), top, locals)
    decreases c, 0
  {
    PushSucceeds(s, c.seqPc);
    var s1 := Push(s, c.seqPc).value.(pc := c.target);
    BalancedRun(c.body, s1, lo, top, locals);
    var inner := Run(c.body, s1);
    BodyThenPop(s, c.seqPc, s1, c.body, inner, top, locals);
    var s2 := inner.s.(g := inner.s.g[ESP := s.g[ESP]], pc := c.seqPc);
    BalancedRun(c.next, s2, lo, top, locals);
    ThenBalanced(c, s, inner.events + [Returned(c.seqPc)], c.next, s2, Run(c.next, s2), top, locals);
  }

  lemma {:induction false} FrameRun(c: Code, s: State, lo: int, top: int, locals: nat)
    requires c.Frame? && Room(c, s, lo, top, locals)
    ensures Balanced(c, s, Run(c, s), top, locals)
    decreases c, 0
  {
    PushSucceeds(s, s.g[EBP]);
    var s1 := Push(s, s.g[EBP]).value;
    var inside := Entered(s1, c.locals);
    BalancedRun(c.body, inside, lo, top, c.locals);
    var inner := Run(c.body, inside);
    BodyThenLeave(s, s1, c.locals, c.body, inner, c.sp, top);
    var s2 := Leave(inner.s.(g := inner.s.g[ESP := c.sp])).value;
    BalancedRun(c.next, s2, lo, top, locals);
    ThenBalanced(c, s, inner.events, c.next, s2, Run(c.next, s2), top, locals);
  }

  lemma LocalStays(s: State, below: word, v: word, n: width, top: int, locals: nat)
    requires n <= below <= locals && s.g[ESP] <= s.g[EBP] - locals && s.g[EBP] <= top <= |s.m|
    ensures var addr := s.g[EBP] - below;
            && LocalAddress(s.g, below) == addr && addr + n <= |s.m|
            && AgreeBut(s.m, WriteMemory(s.m, addr, v, n), s.g[ESP], top, s.g[EBP], locals)
  {}

  lemma {:induction false} StoredRun(c: Code, s: State, lo: int, top: int, locals: nat)
    requires c.Store? && Room(c, s, lo, top, locals)
    ensures Balanced(c, s, Run(c, s), top, locals)
    decreases c, 0
  {
    var s1 := s.(m := WriteMemory(s.m, c.addr, c.v, c.n));
    WriteAgrees(s.m, c.addr, c.v, c.n, s.g[ESP], top);
    BalancedRun(c.next, s1, lo, top, locals);
    ThenBalanced(c, s, [], c.next, s1, Run(c.next, s1), top, locals);
  }

  lemma {:induction false} LocalRun(c: Code, s: State, lo: int, top: int, locals: nat)
    requires c.Local? && Room(c, s, lo, top, locals)
    ensures Balanced(c, s, Run(c, s), top, locals)
    decreases c, 0
  {
    LocalStays(s, c.below, c.v, c.n, top, locals);
    var s1 := s.(m := WriteMemory(s.m, LocalAddress(s.g, c.below), c.v, c.n));
    BalancedRun(c.next, s1, lo, top, locals);
    ThenBalanced(c, s, [], c.next, s1, Run(c.next, s1), top, locals);
  }

  /**
   Every balanced run on a stack region that nothing else touches goes through: each pop yields its pushed value,
   each ret returns behind its call, a frame is closed whatever esp became and whatever was stored to its locals,
   and esp and ebp end where they began.
   */
  lemma {:induction false} BalancedRun(c: Code, s: State, lo: int, top: int, locals: nat)
    requires Room(c, s, lo, top, locals)
    ensures Balanced(c, s, Run(c, s), top, locals)
    decreases c, 1
  {
    match c
    case Done =>
    case Store(_, _, _, _) => StoredRun(c, s, lo, top, locals);
    case Local(_, _, _, _) => LocalRun(c, s, lo, top, locals);
    case Set(r, v, next) =>
      BalancedRun(next, s.(g := s.g[r := v]), lo, top, locals);
    case Saved(_, _, _, _) => SavedRun(c, s, lo, top, locals);
    case Called(_, _, _, _) => CalledRun(c, s, lo, top, locals);
    case Frame(_, _, _, _) => FrameRun(c, s, lo, top, locals);
  }
}
