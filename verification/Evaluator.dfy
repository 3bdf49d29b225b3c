/**
 The expression evaluator of the debugger. `Evaluate` is what the recursive evaluator computes on a
 segment of tokens; the class `Session` (Debugger.dfy) runs the source's loops and is proved to compute
 it. The lemmas relate it to the meaning of trees of the grammar.
 */
module Evaluator {
  import opened Words
  import opened Grammar
  import opened Sequences

  /** Trap is the machine's division fault, Abort a failed assertion; both end the emulator. */
  datatype Outcome = Value(v: word) | Trap | Abort

  /** What an expression may read: registers by name, and 32-bit loads from addresses in range. */
  datatype Env = Env(registers: map<string, word>, memory: map<word, word>)

  function Digit(c: char): (d: nat) {
    if '0' <= c <= '9' then c as nat - '0' as nat
    else if 'A' <= c <= 'F' then c as nat - 'A' as nat + 10
    else 0
  }

  function Number(s: string, base: nat): nat {
    if |s| == 0 then 0 else base * Number(s[..|s| - 1], base) + Digit(s[|s| - 1])
  }

  /** The C library's strtol saturates at the largest 64-bit long before the result is narrowed. */
  function Literal(s: string, base: nat): word {
    var n := Number(s, base);
    Wrap(if n < 0x7FFF_FFFF_FFFF_FFFF then n else 0x7FFF_FFFF_FFFF_FFFF)
  }

  function AtomValue(t: Token, env: Env): Outcome {
    match t.kind
    case Num10 => Value(Literal(t.text, 10))
    case Hex => Value(Literal(if |t.text| < 2 then "" else t.text[2..], 16))
    case Reg => if t.text in env.registers then Value(env.registers[t.text]) else Abort
    case _ => Abort
  }

  function Truth(b: bool): word {
    if b then 1 else 0
  }

  function Apply(op: Kind, a: word, b: word): Outcome {
    match op
    case Plus => Value(Wrap(a + b))
    case Minus => Value(Wrap(a - b))
    case Star => Value(Wrap(a * b))
    case Slash => if b == 0 then Trap else Value(a / b)
    case Eq => Value(Truth(a == b))
    case NotEq => Value(Truth(a != b))
    case And => Value(Truth(a != 0 && b != 0))
    case _ => Abort
  }

  /** An operator on two results computed left to right: the first failure wins. */
  function Combine(op: Kind, x: Outcome, y: Outcome): Outcome {
    if !x.Value? then x else if !y.Value? then y else Apply(op, x.v, y.v)
  }

  function LoadFrom(x: Outcome, env: Env): Outcome {
    if !x.Value? then x else if x.v in env.memory then Value(env.memory[x.v]) else Abort
  }

  /** The meaning of a tree. */
  function TreeValue(e: Tree, env: Env): Outcome {
    match e
    case Leaf(t) => AtomValue(t, env)
    case Paren(b) => TreeValue(b, env)
    case Load(a) => LoadFrom(TreeValue(a, env), env)
    case Binary(op, l, r) => Combine(op, TreeValue(l, env), TreeValue(r, env))
  }

  // ---------- The evaluator ----------

  /** The three ways check_parentheses ends: false, true, or a failed assertion. */
  datatype Check = Keep | Strip | Unbalanced

  function CheckSegment(ts: seq<Token>): Check
    requires |ts| >= 1
  {
    if ts[0].kind != LParen || ts[|ts| - 1].kind != RParen then Keep
    else if Depth(ts, |ts|) == 0 then Strip
    else Unbalanced
  }

  /** The rightmost of the loosest operators outside every parenthesis among the first n tokens, or -1. */
  function Primary(ts: seq<Token>, n: nat): (p: int)
    requires n <= |ts|
    ensures -1 <= p < n
  {
    if n == 0 then -1
    else
      var p := Primary(ts, n - 1);
      if TopOperator(ts, n - 1) && (p < 0 || Dominates(ts, n - 1, p)) then n - 1 else p
  }

  lemma {:induction false} PrimaryIsPrimary(ts: seq<Token>, n: nat)
    requires n <= |ts|
    ensures var p := Primary(ts, n);
            && (p >= 0 ==> TopOperator(ts, p))
            && forall j | TopOperator(ts, j) && j < n :: p >= 0 && Dominates(ts, p, j)
  {
    if n > 0 {
      PrimaryIsPrimary(ts, n - 1);
    }
  }

  /** The position eval splits at: the primary operator, or the first token when there is none. */
  function SplitPosition(ts: seq<Token>): (p: nat)
    requires |ts| >= 1
    ensures p < |ts|
  {
    var p := Primary(ts, |ts|);
    if p < 0 then 0 else p
  }

  lemma SplitPositionIs(ts: seq<Token>, i: int)
    requires |ts| >= 1
    ensures IsPrimary(ts, i) ==> i == SplitPosition(ts)
    ensures TopOperator(ts, i) ==> IsPrimary(ts, SplitPosition(ts))
    ensures SplitPosition(ts) > 0 ==> IsPrimary(ts, SplitPosition(ts))
  {
    PrimaryIsPrimary(ts, |ts|);
    if IsPrimary(ts, i) {
      PrimaryIsUnique(ts, i, SplitPosition(ts));
    }
  }

  /** What eval returns on a segment; the empty segment is the call with start > end. */
  function Evaluate(ts: seq<Token>, env: Env): Outcome
    decreases |ts|, 1
  {
    if |ts| == 0 then Abort
    else if |ts| == 1 then AtomValue(ts[0], env)
    else match CheckSegment(ts)
      case Unbalanced => Abort
      case Strip => Evaluate(ts[1..|ts| - 1], env)
      case Keep => EvaluateSides(ts, env)
  }

  function EvaluateSides(ts: seq<Token>, env: Env): Outcome
    requires |ts| >= 2
    decreases |ts|, 0
  {
    var p := SplitPosition(ts);
    if ts[p].kind == Deref then LoadFrom(Evaluate(ts[p + 1..], env), env)
    else Combine(ts[p].kind, Evaluate(ts[..p], env), Evaluate(ts[p + 1..], env))
  }

  /** The branch of eval that splits, from what it finds and the results on both sides. */
  lemma SplitAtLoad(ts: seq<Token>, p: nat, k: Kind, right: seq<Token>, y: Outcome, r: Outcome, env: Env)
    requires |ts| >= 2 && p == SplitPosition(ts) && right == ts[p + 1..] && k == ts[p].kind == Deref
    requires y == Evaluate(right, env) && r == LoadFrom(y, env)
    ensures r == EvaluateSides(ts, env)
  {}

  lemma SplitAtOperator(ts: seq<Token>, p: nat, k: Kind, left: seq<Token>, right: seq<Token>,
                        x: Outcome, y: Outcome, r: Outcome, env: Env)
    requires |ts| >= 2 && p == SplitPosition(ts) && left == ts[..p] && right == ts[p + 1..]
    requires k == ts[p].kind != Deref && x == Evaluate(left, env) && y == Evaluate(right, env)
    requires r == Combine(k, x, y)
    ensures r == EvaluateSides(ts, env)
  {}

  /** What the scan for the primary operator knows after n tokens: the depth, and the operator found so far. */
  predicate Scanned(ts: seq<Token>, n: nat, flag: int, priority: int, at: int)
    requires n <= |ts|
  {
    var p := Primary(ts, n);
    flag == Depth(ts, n) && if p < 0 then priority == -1 && at == 0 else priority == Priority(ts[p].kind) && at == p
  }

  /** An operator is taken when it stands outside of parentheses and is at least as loose as the one before. */
  predicate Takes(k: Kind, flag: int, priority: int) {
    flag == 0 && Priority(k) >= 0 && Priority(k) >= priority
  }

  lemma ScanNext(ts: seq<Token>, n: nat, k: Kind, flag: int, priority: int, at: int,
                 flag': int, priority': int, at': int)
    requires n < |ts| && k == ts[n].kind && Scanned(ts, n, flag, priority, at)
    requires flag' == if k == LParen then flag + 1 else if k == RParen then flag - 1 else flag
    requires priority' == if Takes(k, flag, priority) then Priority(k) else priority
    requires at' == if Takes(k, flag, priority) then n else at
    ensures Scanned(ts, n + 1, flag', priority', at')
  {}

  // ---------- When counting parentheses is enough ----------

  predicate OpensWithParen(e: Tree) {
    match e
    case Leaf(_) => false
    case Paren(_) => true
    case Load(_) => false
    case Binary(_, l, _) => OpensWithParen(l)
  }

  predicate ClosesWithParen(e: Tree) {
    match e
    case Leaf(_) => false
    case Paren(_) => true
    case Load(a) => ClosesWithParen(a)
    case Binary(_, _, r) => ClosesWithParen(r)
  }

  /** No operator's text opens with one parenthesis and closes with another, as in `(1)+(2)`. */
  predicate Clean(e: Tree) {
    match e
    case Leaf(_) => true
    case Paren(b) => Clean(b)
    case Load(a) => Clean(a)
    case Binary(_, l, r) => Clean(l) && Clean(r) && !(OpensWithParen(l) && ClosesWithParen(r))
  }

  lemma {:induction false} PrintEnds(e: Tree)
    requires WellFormed(e)
    ensures var ts := Print(e);
            && |ts| >= 1
            && (ts[0].kind == LParen <==> OpensWithParen(e))
            && (ts[|ts| - 1].kind == RParen <==> ClosesWithParen(e))
  {
    match e
    case Leaf(_) =>
    case Paren(_) =>
    case Load(a) => PrintEnds(a);
    case Binary(_, l, r) =>
      PrintEnds(l);
      PrintEnds(r);
  }

  /** Evaluating around a known primary operator. */
  lemma {:induction false} EvaluateAround(a: seq<Token>, op: Token, b: seq<Token>, env: Env)
    requires var ts := a + [op] + b;
             |ts| >= 2 && CheckSegment(ts) == Keep && IsPrimary(ts, |a|)
    ensures Evaluate(a + [op] + b, env) ==
            if op.kind == Deref then LoadFrom(Evaluate(b, env), env)
            else Combine(op.kind, Evaluate(a, env), Evaluate(b, env))
  {
    SplitOf(a, op, b);
    SplitPositionIs(a + [op] + b, |a|);
  }

  lemma {:induction false} EvaluateParen(b: seq<Token>, env: Env)
    requires ProperlyNested(b)
    ensures Evaluate([OPEN] + b + [CLOSE], env) == Evaluate(b, env)
  {
    ParenDepth(b);
    InnerOf(OPEN, b, CLOSE);
  }

  lemma {:induction false} CleanKeeps(e: Tree)
    requires WellFormed(e) && Clean(e) && Level(e) >= 0
    ensures |Print(e)| >= 2 && CheckSegment(Print(e)) == Keep
  {
    PrintEnds(e);
    PrintEnds(if e.Load? then e.address else e.left);
  }

  lemma {:induction false} EvaluateRoot(e: Tree, env: Env)
    requires WellFormed(e) && Clean(e) && Level(e) >= 0
    ensures Evaluate(Print(e), env) ==
            if e.Load? then LoadFrom(Evaluate(Print(e.address), env), env)
            else Combine(e.op, Evaluate(Print(e.left), env), Evaluate(Print(e.right), env))
  {
    CleanKeeps(e);
    RootIsPrimary(e);
    if e.Load? {
      assert Print(e) == [] + [DEREF] + Print(e.address);
      EvaluateAround([], DEREF, Print(e.address), env);
    } else {
      EvaluateAround(Print(e.left), Token(e.op, ""), Print(e.right), env);
    }
  }

  /** Printing a clean tree and evaluating the tokens gives the value, or the failure, of the tree. */
  lemma {:induction false} EvaluatePrint(e: Tree, env: Env)
    requires WellFormed(e) && Clean(e)
    ensures Evaluate(Print(e), env) == TreeValue(e, env)
  {
    match e
    case Leaf(_) =>
    case Paren(b) =>
      EvaluatePrint(b, env);
      PrintIsNested(b);
      EvaluateParen(Print(b), env);
    case Load(a) =>
      EvaluatePrint(a, env);
      EvaluateRoot(e, env);
    case Binary(op, l, r) =>
      EvaluatePrint(l, env);
      EvaluatePrint(r, env);
      EvaluateRoot(e, env);
  }

  // ---------- Whatever eval accepts is an expression ----------

  /** Every dereference is at the start or directly behind an operator: none follows `(` or another dereference. */
  ghost predicate Guarded(ts: seq<Token>) {
    forall i | 0 < i < |ts| && ts[i].kind == Deref :: IsBinary(ts[i - 1].kind)
  }

  /** e is a parse of ts whose value is v and on which counting is enough. */
  ghost predicate Explains(e: Tree, ts: seq<Token>, v: word, env: Env) {
    WellFormed(e) && Clean(e) && Print(e) == ts && TreeValue(e, env) == Value(v)
  }

  /** Splitting at the primary operator respects precedence and associativity. */
  lemma {:induction false} PrimarySplit(l: Tree, op: Token, r: Tree)
    requires WellFormed(l) && WellFormed(r) && IsBinary(op.kind)
    requires IsPrimary(Print(l) + [op] + Print(r), |Print(l)|)
    ensures WellFormed(Binary(op.kind, l, r))
  {
    var ts, p := Print(l) + [op] + Print(r), |Print(l)|;
    PrintIsNested(l);
    RootIsPrimary(l);
    RootIsPrimary(r);
    if Level(l) >= 0 {
      RootKind(l);
      TopOfSplit(Print(l), op, Print(r), RootPosition(l));
      assert Dominates(ts, p, RootPosition(l));
    }
    if Level(r) >= 0 {
      RootKind(r);
      TopOfSplit(Print(l), op, Print(r), p + 1 + RootPosition(r));
      assert Dominates(ts, p, p + 1 + RootPosition(r));
    }
  }

  /** Tokens other than atoms carry no text. */
  ghost predicate Plain(ts: seq<Token>) {
    forall i | 0 <= i < |ts| && !IsAtom(ts[i].kind) :: ts[i].text == ""
  }

  lemma {:induction false} BinaryExplains(ts: seq<Token>, p: nat, l: Tree, r: Tree, a: word, b: word, v: word, env: Env)
    requires |ts| >= 2 && IsPrimary(ts, p) && CheckSegment(ts) == Keep
    requires IsBinary(ts[p].kind) && Plain(ts) && Apply(ts[p].kind, a, b) == Value(v)
    requires Explains(l, ts[..p], a, env) && Explains(r, ts[p + 1..], b, env)
    ensures Explains(Binary(ts[p].kind, l, r), ts, v, env)
  {
    var op := ts[p];
    assert op == Token(op.kind, "");
    SplitAt(ts, p);
    PrimarySplit(l, op, r);
    PrintEnds(l);
    PrintEnds(r);
  }

  lemma LooserThanLoad(b: seq<Token>, i: int)
    requires TopOperator(b, i)
    ensures !IsPrimary([] + [DEREF] + b, 0)
  {
    var ts := [] + [DEREF] + b;
    TopOfSplit([], DEREF, b, 1 + i);
    assert ts[1 + i] == b[i] && !Dominates(ts, 0, 1 + i);
  }

  /** Behind a dereference that is the primary operator stands an operand. */
  lemma LoadedLevel(a: Tree)
    requires WellFormed(a) && IsPrimary([] + [DEREF] + Print(a), 0)
    ensures Level(a) == -1
  {
    RootIsPrimary(a);
    if Level(a) >= 0 {
      RootKind(a);
      LooserThanLoad(Print(a), RootPosition(a));
    }
  }

  lemma LoadExplains(ts: seq<Token>, a: Tree, x: word, v: word, env: Env)
    requires |ts| >= 2 && IsPrimary(ts, 0) && ts[0].kind == Deref && Plain(ts)
    requires Explains(a, ts[1..], x, env) && LoadFrom(Value(x), env) == Value(v)
    ensures Explains(Load(a), ts, v, env)
  {
    assert ts[0] == DEREF;
    SplitAt(ts, 0);
    assert ts == [] + [DEREF] + Print(a);
    LoadedLevel(a);
    NothingBefore(DEREF, Print(a));
  }

  lemma OperatorBehind(ts: seq<Token>, p: nat)
    requires Guarded(ts) && 0 < p && TopOperator(ts, p) && ts[p].kind == Deref
    ensures TopOperator(ts, p - 1) && !Dominates(ts, p, p - 1)
  {
    assert Depth(ts, p) == Depth(ts, p - 1) + Delta(ts[p - 1]);
  }

  /** When eval splits at a dereference, nothing stands left of it. */
  lemma DerefSplitsFirst(ts: seq<Token>)
    requires |ts| >= 2 && Guarded(ts) && ts[SplitPosition(ts)].kind == Deref
    ensures SplitPosition(ts) == 0 && IsPrimary(ts, 0)
  {
    var p := SplitPosition(ts);
    SplitPositionIs(ts, p);
    if p > 0 {
      OperatorBehind(ts, p);
    } else {
      assert TopOperator(ts, 0);
    }
  }

  /** When eval returns from a split at another token, it is an operator and both sides returned. */
  lemma {:induction false} SplitReturns(ts: seq<Token>, env: Env) returns (p: nat)
    requires |ts| >= 2 && CheckSegment(ts) == Keep && Evaluate(ts, env).Value?
    requires ts[SplitPosition(ts)].kind != Deref
    ensures IsPrimary(ts, p) && IsBinary(ts[p].kind)
    ensures Evaluate(ts[..p], env).Value? && Evaluate(ts[p + 1..], env).Value?
    ensures Apply(ts[p].kind, Evaluate(ts[..p], env).v, Evaluate(ts[p + 1..], env).v) == Evaluate(ts, env)
  {
    p := SplitPosition(ts);
    SplitPositionIs(ts, p);
    var left := ts[..p];
    assert Evaluate(left, env).Value?;
    assert left != [];
  }

  lemma SliceTokens(ts: seq<Token>, i: nat, j: nat)
    requires i <= j <= |ts| && Guarded(ts) && Plain(ts)
    ensures Guarded(ts[i..j]) && Plain(ts[i..j])
  {
    var s := ts[i..j];
    forall k | 0 < k < |s| && s[k].kind == Deref
      ensures IsBinary(s[k - 1].kind)
    {
      assert s[k] == ts[i + k] && s[k - 1] == ts[i + k - 1];
    }
  }

  lemma ParenExplains(b: Tree, ts: seq<Token>, v: word, env: Env)
    requires |ts| >= 2 && CheckSegment(ts) == Strip && Plain(ts) && Explains(b, ts[1..|ts| - 1], v, env)
    ensures Explains(Paren(b), ts, v, env)
  {
    EndsAround(ts);
  }

  /** Every guarded segment on which eval returns is the print of a tree with that value. */
  lemma {:induction false} EvaluateExplains(ts: seq<Token>, env: Env) returns (e: Tree)
    requires Guarded(ts) && Plain(ts) && Evaluate(ts, env).Value?
    ensures Explains(e, ts, Evaluate(ts, env).v, env)
    decreases |ts|, 1
  {
    if |ts| == 1 {
      e := Leaf(ts[0]);
    } else if CheckSegment(ts) == Strip {
      SliceTokens(ts, 1, |ts| - 1);
      var b := EvaluateExplains(ts[1..|ts| - 1], env);
      ParenExplains(b, ts, Evaluate(ts, env).v, env);
      e := Paren(b);
    } else {
      e := SidesExplain(ts, env);
    }
  }

  lemma {:induction false} SidesExplain(ts: seq<Token>, env: Env) returns (e: Tree)
    requires |ts| >= 2 && CheckSegment(ts) == Keep && Guarded(ts) && Plain(ts) && Evaluate(ts, env).Value?
    ensures Explains(e, ts, Evaluate(ts, env).v, env)
    decreases |ts|, 0
  {
    var v := Evaluate(ts, env).v;
    if ts[SplitPosition(ts)].kind == Deref {
      DerefSplitsFirst(ts);
      SliceTokens(ts, 1, |ts|);
      var a := EvaluateExplains(ts[1..], env);
      LoadExplains(ts, a, Evaluate(ts[1..], env).v, v, env);
      e := Load(a);
    } else {
      var p := SplitReturns(ts, env);
      var left, right := ts[..p], ts[p + 1..];
      SliceTokens(ts, 0, p);
      SliceTokens(ts, p + 1, |ts|);
      var l := EvaluateExplains(left, env);
      var r := EvaluateExplains(right, env);
      BinaryExplains(ts, p, l, r, Evaluate(left, env).v, Evaluate(right, env).v, v, env);
      e := Binary(ts[p].kind, l, r);
    }
  }

  /**
   On guarded segments eval returns v exactly when the segment is the print of a clean tree with value v. In
   particular whatever it accepts is properly nested, although it only counts parentheses.
   */
  lemma EvaluateExactly(ts: seq<Token>, v: word, env: Env)
    requires Guarded(ts) && Plain(ts)
    ensures Evaluate(ts, env) == Value(v) <==> exists e :: Explains(e, ts, v, env)
    ensures Evaluate(ts, env).Value? ==> ProperlyNested(ts)
  {
    if Evaluate(ts, env).Value? {
      var e := EvaluateExplains(ts, env);
      PrintIsNested(e);
    }
    forall e | Explains(e, ts, v, env)
      ensures Evaluate(ts, env) == Value(v)
    {
      EvaluatePrint(e, env);
    }
  }

  lemma {:induction false} PrintTokens(e: Tree)
    requires WellFormed(e)
    ensures Plain(Print(e)) && (LoadFree(e) ==> DerefFree(Print(e)))
  {
    match e
    case Leaf(_) =>
    case Paren(b) => PrintTokens(b);
    case Load(a) => PrintTokens(a);
    case Binary(_, l, r) =>
      PrintTokens(l);
      PrintTokens(r);
  }

  lemma {:induction false} PrintStarts(e: Tree)
    requires Expression(e)
    ensures var k := Print(e)[0].kind; !IsBinary(k) && (k == Deref <==> StartsWithLoad(e))
  {
    match e
    case Leaf(_) =>
    case Paren(_) =>
    case Load(_) =>
    case Binary(_, l, _) => PrintStarts(l);
  }

  lemma GuardedAppend(a: seq<Token>, b: seq<Token>)
    requires Guarded(a) && Guarded(b)
    requires a != [] && b != [] && b[0].kind == Deref ==> IsBinary(a[|a| - 1].kind)
    ensures Guarded(a + b)
  {
    var ts := a + b;
    forall i | 0 < i < |ts| && ts[i].kind == Deref
      ensures IsBinary(ts[i - 1].kind)
    {
      if i > |a| {
        assert ts[i] == b[i - |a|] && ts[i - 1] == b[i - |a| - 1];
      }
    }
  }

  lemma GuardedBracket(b: seq<Token>)
    requires b != [] && Guarded(b) && b[0].kind != Deref
    ensures Guarded([OPEN] + b + [CLOSE])
  {
    GuardedAppend([OPEN], b);
    GuardedAppend([OPEN] + b, [CLOSE]);
  }

  lemma GuardedOperator(a: seq<Token>, op: Kind, b: seq<Token>)
    requires Guarded(a) && Guarded(b) && IsBinary(op)
    ensures Guarded(a + [Token(op, "")] + b)
  {
    GuardedAppend(a, [Token(op, "")]);
    GuardedAppend(a + [Token(op, "")], b);
  }

  lemma PlainAppend(a: seq<Token>, b: seq<Token>)
    requires Plain(a) && Plain(b)
    ensures Plain(a + b)
  {}

  /** When no group starts with a dereference, the tokens of a tree are guarded. */
  lemma {:induction false} PrintGuarded(e: Tree)
    requires WellFormed(e) && PlainGroups(e)
    ensures Guarded(Print(e))
  {
    WellFormedIsExpression(e);
    match e
    case Leaf(_) =>
    case Paren(b) =>
      PrintGuarded(b);
      PrintStarts(b);
      GuardedBracket(Print(b));
    case Load(a) =>
      PrintGuarded(a);
      PrintStarts(a);
      GuardedAppend([DEREF], Print(a));
    case Binary(op, l, r) =>
      PrintGuarded(l);
      PrintGuarded(r);
      GuardedOperator(Print(l), op, Print(r));
  }

  lemma {:induction false} LoadFreeIsPlain(e: Tree)
    requires LoadFree(e)
    ensures PlainGroups(e) && !StartsWithLoad(e)
  {
    match e
    case Leaf(_) =>
    case Paren(b) => LoadFreeIsPlain(b);
    case Binary(_, l, r) =>
      LoadFreeIsPlain(l);
      LoadFreeIsPlain(r);
  }

  /**
   On the print of any tree in which no parenthesised group starts with a dereference, eval returns exactly when
   the tree is clean and its evaluation meets no failure, and then it returns the tree's value.
   */
  lemma EvaluateTree(e: Tree, env: Env)
    requires WellFormed(e) && PlainGroups(e)
    ensures Evaluate(Print(e), env).Value? <==> Clean(e) && TreeValue(e, env).Value?
    ensures Evaluate(Print(e), env).Value? ==> Evaluate(Print(e), env) == TreeValue(e, env)
  {
    PrintTokens(e);
    PrintGuarded(e);
    if Evaluate(Print(e), env).Value? {
      var f := EvaluateExplains(Print(e), env);
      Unambiguous(e, f);
    } else if Clean(e) {
      EvaluatePrint(e, env);
    }
  }

  /** The smallest failure of counting: `(1)+(2)` is worth 3, but eval does not return on it. */
  lemma CountingFails(env: Env)
    ensures var one, two := Paren(Leaf(Token(Num10, "1"))), Paren(Leaf(Token(Num10, "2")));
            var sum := Binary(Plus, one, two);
            WellFormed(sum) && TreeValue(sum, env) == Value(3) && !Evaluate(Print(sum), env).Value?
  {
    var one, two := Paren(Leaf(Token(Num10, "1"))), Paren(Leaf(Token(Num10, "2")));
    assert Number("1", 10) == 10 * Number("1"[..0], 10) + 1 == 1;
    assert Number("2", 10) == 10 * Number("2"[..0], 10) + 2 == 2;
    assert TreeValue(one, env) == Value(1) && TreeValue(two, env) == Value(2);
    EvaluateTree(Binary(Plus, one, two), env);
  }

  /** The tokens of `x)*(*y`, which is what `(x)*(*y)` is stripped to. */
  function Stripped(x: Token, y: Token): seq<Token> {
    [x, CLOSE, STAR, OPEN, DEREF, y]
  }

  lemma StrippedSplits(x: Token, y: Token)
    requires x.kind == Num10 && y.kind == Num10
    ensures var inner := Stripped(x, y);
            CheckSegment(inner) == Keep && SplitPosition(inner) == 4 && Depth(inner, 6) == 0
  {
    var inner := Stripped(x, y);
    assert Depth(inner, 1) == 0;
    assert Depth(inner, 2) == -1;
    assert Depth(inner, 3) == -1;
    assert Depth(inner, 4) == 0;
    assert Depth(inner, 5) == 0 && Depth(inner, 6) == 0;
    assert IsPrimary(inner, 4);
    SplitPositionIs(inner, 4);
  }

  lemma StrippedIsLoad(x: Token, y: Token, env: Env)
    requires x.kind == Num10 && y.kind == Num10
    ensures Evaluate(Stripped(x, y), env) == TreeValue(Load(Leaf(y)), env)
  {
    var inner := Stripped(x, y);
    StrippedSplits(x, y);
    assert inner[5..] == [y];
    assert Evaluate([y], env) == TreeValue(Leaf(y), env);
    assert EvaluateSides(inner, env) == TreeValue(Load(Leaf(y)), env);
  }

  lemma PrintMisleading(x: Token, y: Token)
    requires x.kind == Num10 && y.kind == Num10
    ensures var e := Binary(Star, Paren(Leaf(x)), Paren(Load(Leaf(y))));
            WellFormed(e) && Print(e) == [OPEN] + Stripped(x, y) + [CLOSE]
  {
    assert WellFormed(Paren(Load(Leaf(y))));
    assert Print(Paren(Leaf(x))) == [OPEN, x, CLOSE];
    assert Print(Load(Leaf(y))) == [DEREF, y];
    assert Print(Paren(Load(Leaf(y)))) == [OPEN, DEREF, y, CLOSE];
  }

  /** With a dereference an unclean expression can even return: `(x)*(*y)` yields `*y` for every x. */
  lemma CountingMisleads(x: Token, y: Token, env: Env)
    requires x.kind == Num10 && y.kind == Num10
    ensures var e := Binary(Star, Paren(Leaf(x)), Paren(Load(Leaf(y))));
            WellFormed(e) && Evaluate(Print(e), env) == TreeValue(Load(Leaf(y)), env)
  {
    var inner := Stripped(x, y);
    var ts := [OPEN] + inner + [CLOSE];
    PrintMisleading(x, y);
    StrippedSplits(x, y);
    StrippedIsLoad(x, y, env);
    ParenDepth(inner);
    assert ts[1..|ts| - 1] == inner;
  }
}
