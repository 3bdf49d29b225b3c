/**
 What eval does when the pass left a dereference as `*`: on the tokens of a clean expression it then returns no
 value. A `*` with nothing before it never evaluates, and the same holds for a `*` directly behind a dereference.
 */
module Misreading {
  import opened Arithmetic
  import opened Sequences
  import opened Grammar
  import opened Marking
  import opened Evaluator

  // ---------- Segments that never evaluate ----------

  lemma {:induction false} StarFirst(ts: seq<Token>, env: Env)
    requires ts != [] && ts[0].kind == Star
    ensures !Evaluate(ts, env).Value?
    decreases |ts|
  {
    if |ts| > 1 {
      var p := SplitPosition(ts);
      assert TopOperator(ts, 0);
      SplitPositionIs(ts, 0);
      assert Dominates(ts, p, 0);
      assert Evaluate(ts, env) == EvaluateSides(ts, env);
      var left := ts[..p];
      if p > 0 {
        StarFirst(left, env);
      }
      assert !Evaluate(left, env).Value?;
    }
  }

  lemma {:induction false} DerefLast(ts: seq<Token>, env: Env)
    requires ts != [] && ts[|ts| - 1].kind == Deref
    ensures !Evaluate(ts, env).Value?
    decreases |ts|
  {
    if |ts| > 1 {
      var p := SplitPosition(ts);
      assert Evaluate(ts, env) == EvaluateSides(ts, env);
      var right := ts[p + 1..];
      if right != [] {
        DerefLast(right, env);
      }
      assert !Evaluate(right, env).Value?;
    }
  }

  // ---------- The tokens of an expression after the pass ----------

  lemma {:induction false} MarkedIsNested(prev: Kind, e: Tree)
    requires Expression(e)
    ensures ProperlyNested(Marked(prev, e))
    decreases e
  {
    match e
    case Leaf(t) =>
      assert Depth([t], 1) == Depth([t], 0) + Delta(t);
    case Paren(b) =>
      MarkedIsNested(LParen, b);
      BracketIsNested(Marked(LParen, b));
    case Load(a) =>
      var t := if BeforeLoad(prev) then DEREF else STAR;
      MarkedIsNested(t.kind, a);
      AppendIsNested([t], Marked(t.kind, a));
    case Binary(op, l, r) =>
      MarkedIsNested(prev, l);
      MarkedIsNested(op, r);
      OperatorIsNested(Marked(prev, l), Token(op, ""), Marked(op, r));
  }

  lemma OperatorIsNested(a: seq<Token>, op: Token, b: seq<Token>)
    requires ProperlyNested(a) && ProperlyNested(b) && Delta(op) == 0
    ensures ProperlyNested(a + [op] + b)
  {
    AppendIsNested([op], b);
    AppendIsNested(a, [op] + b);
    Associative(a, [op], b);
  }

  lemma BracketIsNested(b: seq<Token>)
    requires ProperlyNested(b)
    ensures ProperlyNested([OPEN] + b + [CLOSE])
  {
    var ts := [OPEN] + b + [CLOSE];
    ParenDepth(b);
    forall i | 0 <= i <= |ts|
      ensures Depth(ts, i) >= 0
    {
      assert 1 <= i <= |b| + 1 ==> Depth(ts, i) == 1 + Depth(b, i - 1);
    }
  }

  lemma {:induction false} MarkedOpens(prev: Kind, e: Tree)
    requires Expression(e)
    ensures Marked(prev, e)[0].kind == LParen <==> OpensWithParen(e)
    decreases e
  {
    match e
    case Leaf(_) =>
    case Paren(_) =>
    case Load(_) =>
    case Binary(op, l, r) =>
      MarkedOpens(prev, l);
      assert Marked(prev, e)[0] == Marked(prev, l)[0];
  }

  lemma {:induction false} MarkedCloses(prev: Kind, e: Tree)
    requires Expression(e)
    ensures LastKind(prev, Marked(prev, e)) == RParen <==> ClosesWithParen(e)
    decreases e
  {
    match e
    case Leaf(_) =>
    case Paren(b) =>
      LastKindOfAppend(prev, [OPEN] + Marked(LParen, b), [CLOSE]);
    case Load(a) =>
      MarkedCloses(if BeforeLoad(prev) then Deref else Star, a);
      MarkedLoadEnds(prev, a);
    case Binary(op, l, r) =>
      MarkedCloses(op, r);
      MarkedBinaryEnds(prev, op, l, r);
  }

  lemma MarkedEnds(prev: Kind, e: Tree)
    requires Expression(e)
    ensures var ts := Marked(prev, e);
            && (ts[0].kind == LParen <==> OpensWithParen(e))
            && (ts[|ts| - 1].kind == RParen <==> ClosesWithParen(e))
  {
    MarkedOpens(prev, e);
    MarkedCloses(prev, e);
  }

  /** The operators outside every parenthesis are as tight as the tree, up to a dereference left as `*`. */
  ghost predicate TopsBelow(ts: seq<Token>, level: int) {
    forall i | TopOperator(ts, i) :: Priority(ts[i].kind) <= level
  }

  lemma TopsOfSplit(a: seq<Token>, op: Token, b: seq<Token>, level: int)
    requires Depth(a, |a|) == 0 && Delta(op) == 0
    requires TopsBelow(a, level) && TopsBelow(b, level) && Priority(op.kind) <= level
    ensures TopsBelow(a + [op] + b, level)
  {
    var ts := a + [op] + b;
    forall i | TopOperator(ts, i)
      ensures Priority(ts[i].kind) <= level
    {
      TopOfSplit(a, op, b, i);
      if i > |a| {
        assert ts[i] == b[i - |a| - 1];
      }
    }
  }

  lemma TopsOfCons(t: Token, ts: seq<Token>, level: int)
    requires Delta(t) == 0 && TopsBelow(ts, level) && Priority(t.kind) <= level
    ensures TopsBelow([t] + ts, level)
  {
    NothingBefore(t, ts);
    TopsOfSplit([], t, ts, level);
  }

  /** Levels of a tree's tokens after the pass. */
  function MarkedLevel(e: Tree): int {
    if Level(e) < 0 then -1 else Max(Level(e), 1)
  }

  lemma {:induction false} MarkedTops(prev: Kind, e: Tree)
    requires Expression(e)
    ensures TopsBelow(Marked(prev, e), MarkedLevel(e))
    decreases e
  {
    match e
    case Leaf(_) =>
    case Paren(b) =>
      MarkedIsNested(LParen, b);
      NoTopInParen(Marked(LParen, b));
    case Load(a) =>
      var t := if BeforeLoad(prev) then DEREF else STAR;
      MarkedTops(t.kind, a);
      var ms := Marked(t.kind, a);
      assert Marked(prev, e) == [t] + ms;
      TopsOfCons(t, ms, 1);
    case Binary(op, l, r) =>
      MarkedTops(prev, l);
      MarkedTops(op, r);
      MarkedIsNested(prev, l);
      var left, right := Marked(prev, l), Marked(op, r);
      assert Marked(prev, e) == left + [Token(op, "")] + right;
      TopsOfSplit(left, Token(op, ""), right, Priority(op));
  }

  // ---------- Chains of dereferences ----------

  /** In a chain of dereferences every `*` but the first token stands behind a dereference. */
  lemma {:induction false} ChainStars(prev: Kind, e: Tree, j: int)
    requires Expression(e) && e.Load? && j >= 1
    requires TopOperator(Marked(prev, e), j) && Marked(prev, e)[j].kind != Deref
    ensures Marked(prev, e)[j - 1].kind == Deref
    decreases e
  {
    var t := if BeforeLoad(prev) then DEREF else STAR;
    var inner := Marked(t.kind, e.address);
    assert Marked(prev, e) == [] + [t] + inner;
    TopOfSplit([], t, inner, j);
    assert inner[j - 1] == Marked(prev, e)[j];
    if e.address.Load? {
      if j > 1 {
        ChainStars(t.kind, e.address, j - 1);
        assert inner[j - 2] == Marked(prev, e)[j - 1];
      }
    } else {
      MarkedTops(t.kind, e.address);
      assert false;
    }
  }

  /** Splitting behind a dereference at another operator fails. */
  lemma DerefBeforeSplitFails(ts: seq<Token>, env: Env)
    requires |ts| >= 2 && CheckSegment(ts) == Keep
    requires var p := SplitPosition(ts); p > 0 && ts[p].kind != Deref && ts[p - 1].kind == Deref
    ensures !Evaluate(ts, env).Value?
  {
    var left := ts[..SplitPosition(ts)];
    DerefLast(left, env);
    assert Evaluate(ts, env) == EvaluateSides(ts, env);
  }

  /** Tokens with a `*` as second one and no looser operator, in which every such operator follows a dereference. */
  ghost predicate IsChain(chain: seq<Token>) {
    && TopOperator(chain, 1) && chain[1].kind == Star && TopsBelow(chain, 1)
    && forall j | j >= 1 && TopOperator(chain, j) && chain[j].kind != Deref :: chain[j - 1].kind == Deref
  }

  lemma LoadOfLoadIsChain(prev: Kind, e: Tree)
    requires Expression(e) && e.Load? && e.address.Load? && BeforeLoad(prev)
    ensures IsChain(Marked(prev, e))
  {
    var chain := Marked(prev, e);
    var rest := Marked(Deref, e.address);
    assert chain == [DEREF] + rest && rest[0] == STAR;
    assert chain[1] == rest[0];
    assert Depth(chain, 1) == Depth(chain, 0) + Delta(chain[0]);
    MarkedTops(prev, e);
    forall j | j >= 1 && TopOperator(chain, j) && chain[j].kind != Deref
      ensures chain[j - 1].kind == Deref
    {
      ChainStars(prev, e, j);
    }
  }

  /** Behind tokens with no looser operator, what dominates the `*` of a chain follows a dereference. */
  lemma PrimaryInChain(before: seq<Token>, chain: seq<Token>, p: nat)
    requires IsChain(chain) && Depth(before, |before|) == 0 && TopsBelow(before, 1)
    requires TopOperator(before + chain, p) && Dominates(before + chain, p, |before| + 1)
    ensures p > 0 && (before + chain)[p].kind != Deref && (before + chain)[p - 1].kind == Deref
  {
    var (ts, i) := (before + chain, p - |before|);
    TopOfAppend(before, chain, p);
    assert ts[|before| + 1] == chain[1];
    if i >= 1 {
      assert ts[p] == chain[i] && ts[p - 1] == chain[i - 1];
    }
  }

  /** A chain, at the start or behind tokens with no looser operator. */
  lemma ChainFails(before: seq<Token>, chain: seq<Token>, env: Env)
    requires IsChain(chain) && Depth(before, |before|) == 0 && TopsBelow(before, 1)
    requires CheckSegment(before + chain) == Keep
    ensures !Evaluate(before + chain, env).Value?
  {
    var (ts, star) := (before + chain, |before| + 1);
    TopOfAppend(before, chain, star);
    SplitPositionIs(ts, star);
    assert Dominates(ts, SplitPosition(ts), star);
    PrimaryInChain(before, chain, SplitPosition(ts));
    DerefBeforeSplitFails(ts, env);
  }

  // ---------- What eval does with a mismarked expression ----------

  /** Whether the pass finds every dereference of a tree behind a token of kind prev. */
  predicate Found(prev: Kind, e: Tree) {
    Markable(e) && (StartsWithLoad(e) ==> BeforeLoad(prev))
  }

  lemma MarkedKeeps(prev: Kind, e: Tree)
    requires Expression(e) && Clean(e) && Level(e) >= 0
    ensures |Marked(prev, e)| >= 2 && CheckSegment(Marked(prev, e)) == Keep
  {
    MarkedEnds(prev, e);
    if e.Binary? {
      MarkedEnds(prev, e.left);
      MarkedEnds(e.op, e.right);
    }
  }

  /** When the root operator of a binary expression stays the primary one. */
  lemma MarkedRoot(prev: Kind, e: Tree, env: Env)
    requires Expression(e) && Clean(e) && e.Binary?
    requires TopsBelow(Marked(e.op, e.right), Priority(e.op) - 1)
    ensures Evaluate(Marked(prev, e), env) ==
            Combine(e.op, Evaluate(Marked(prev, e.left), env), Evaluate(Marked(e.op, e.right), env))
  {
    var (l, op, r) := (Marked(prev, e.left), Token(e.op, ""), Marked(e.op, e.right));
    MarkedKeeps(prev, e);
    MarkedTops(prev, e.left);
    MarkedIsNested(prev, e.left);
    SplitIsPrimary(l, op, r);
    EvaluateAround(l, op, r, env);
  }

  lemma MarkedLoad(prev: Kind, e: Tree, env: Env)
    requires Expression(e) && Clean(e) && e.Load? && !e.address.Load? && BeforeLoad(prev)
    ensures Evaluate(Marked(prev, e), env) == LoadFrom(Evaluate(Marked(Deref, e.address), env), env)
    ensures TopsBelow(Marked(prev, e), 0)
  {
    var a := Marked(Deref, e.address);
    NothingBefore(DEREF, a);
    assert Marked(prev, e) == [DEREF] + a;
    MarkedTops(Deref, e.address);
    MarkedKeeps(prev, e);
    SplitIsPrimary([], DEREF, a);
    EvaluateAround([], DEREF, a, env);
    TopsOfCons(DEREF, a, 0);
  }

  /** A right operand of `*` or `/`, if no chain, has no operator outside parentheses but one dereference. */
  lemma TightOperand(op: Kind, r: Tree, env: Env)
    requires Expression(r) && Clean(r) && BeforeLoad(op) && Level(r) <= 0 && !(r.Load? && r.address.Load?)
    ensures TopsBelow(Marked(op, r), 0)
  {
    if r.Load? {
      MarkedLoad(op, r, env);
    } else {
      MarkedTops(op, r);
    }
  }

  /** On a clean expression of which the pass missed a dereference, eval returns no value. */
  lemma {:induction false} MissedFails(prev: Kind, e: Tree, env: Env)
    requires Expression(e) && Clean(e) && !Found(prev, e)
    ensures !Evaluate(Marked(prev, e), env).Value?
    decreases e, 1
  {
    match e
    case Leaf(_) =>
    case Paren(b) =>
      MissedFails(LParen, b, env);
      MarkedIsNested(LParen, b);
      EvaluateParen(Marked(LParen, b), env);
    case Load(a) =>
      if !BeforeLoad(prev) {
        StarFirst(Marked(prev, e), env);
      } else if a.Load? {
        MarkedKeeps(prev, e);
        LoadOfLoadIsChain(prev, e);
        assert [] + Marked(prev, e) == Marked(prev, e);
        ChainFails([], Marked(prev, e), env);
      } else {
        MissedFails(Deref, a, env);
        MarkedLoad(prev, e, env);
      }
    case Binary(_, _, _) => MissedOperandFails(prev, e, env);
  }

  lemma {:induction false} MissedOperandFails(prev: Kind, e: Tree, env: Env)
    requires Expression(e) && Clean(e) && e.Binary? && !Found(prev, e)
    ensures !Evaluate(Marked(prev, e), env).Value?
    decreases e, 0
  {
    var Binary(op, l, r) := e;
    if Priority(op) == 1 && r.Load? && r.address.Load? {
      ChainOperandFails(prev, e, env);
    } else {
      if Priority(op) == 1 {
        TightOperand(op, r, env);
      } else {
        MarkedTops(op, r);
      }
      MarkedRoot(prev, e, env);
      if !Found(prev, l) {
        MissedFails(prev, l, env);
      } else {
        MissedFails(op, r, env);
      }
    }
  }

  lemma {:induction false} ChainOperandFails(prev: Kind, e: Tree, env: Env)
    requires Expression(e) && Clean(e) && e.Binary? && Priority(e.op) == 1 && e.right.Load? && e.right.address.Load?
    ensures !Evaluate(Marked(prev, e), env).Value?
  {
    var (left, op) := (Marked(prev, e.left), Token(e.op, ""));
    MarkedTops(prev, e.left);
    MarkedIsNested(prev, e.left);
    TopsOfSplit(left, op, [], 1);
    assert left + [op] + [] == left + [op];
    OperatorIsNested(left, op, []);
    MarkedKeeps(prev, e);
    LoadOfLoadIsChain(e.op, e.right);
    ChainFails(left + [op], Marked(e.op, e.right), env);
  }

  // ---------- Expressions in which no group starts with a dereference ----------

  lemma {:induction false} MarkedStarts(prev: Kind, e: Tree)
    requires Expression(e)
    ensures Marked(prev, e)[0].kind == Deref <==> StartsWithLoad(e) && BeforeLoad(prev)
    decreases e
  {
    match e
    case Leaf(_) =>
    case Paren(_) =>
    case Load(_) =>
    case Binary(op, l, r) =>
      MarkedStarts(prev, l);
      assert Marked(prev, e)[0] == Marked(prev, l)[0];
  }

  lemma {:induction false} MarkedGuarded(prev: Kind, e: Tree)
    requires Expression(e) && PlainGroups(e)
    ensures Guarded(Marked(prev, e)) && Plain(Marked(prev, e))
    decreases e
  {
    match e
    case Leaf(_) =>
    case Paren(b) =>
      MarkedGuarded(LParen, b);
      MarkedStarts(LParen, b);
      var ms := Marked(LParen, b);
      GuardedBracket(ms);
      PlainAppend([OPEN], ms);
      PlainAppend([OPEN] + ms, [CLOSE]);
    case Load(a) =>
      var t := if BeforeLoad(prev) then DEREF else STAR;
      MarkedGuarded(t.kind, a);
      MarkedStarts(t.kind, a);
      var ms := Marked(t.kind, a);
      GuardedAppend([t], ms);
      PlainAppend([t], ms);
    case Binary(op, l, r) =>
      MarkedGuarded(prev, l);
      MarkedGuarded(op, r);
      var left, right := Marked(prev, l), Marked(op, r);
      GuardedOperator(left, op, right);
      PlainAppend(left, [Token(op, "")]);
      PlainAppend(left + [Token(op, "")], right);
  }

  /** A `*` is an operator behind an operand and a dereference elsewhere. */
  predicate Settled(prev: Kind, ts: seq<Token>)
    decreases ts
  {
    ts == [] ||
    (&& (ts[0].kind == Star ==> EndsOperand(prev))
     && (ts[0].kind == Deref ==> !EndsOperand(prev))
     && Settled(ts[0].kind, ts[1..]))
  }

  lemma {:induction false} SettledAppend(prev: Kind, a: seq<Token>, b: seq<Token>)
    requires Settled(prev, a) && Settled(LastKind(prev, a), b)
    ensures Settled(prev, a + b)
    decreases a
  {
    if a == [] {
      assert a + b == b;
    } else {
      assert (a + b)[1..] == a[1..] + b;
      SettledAppend(a[0].kind, a[1..], b);
    }
  }

  lemma SettledOne(prev: Kind, t: Token)
    ensures Settled(prev, [t]) <==> (t.kind == Star ==> EndsOperand(prev)) && (t.kind == Deref ==> !EndsOperand(prev))
  {
    assert [t][1..] == [];
  }

  lemma SettledBracket(prev: Kind, b: seq<Token>)
    requires Settled(LParen, b)
    ensures Settled(prev, [OPEN] + b + [CLOSE])
  {
    SettledOne(prev, OPEN);
    SettledOne(LastKind(LParen, b), CLOSE);
    SettledAppend(prev, [OPEN], b);
    LastKindOfRest(prev, OPEN, b);
    SettledAppend(prev, [OPEN] + b, [CLOSE]);
  }

  lemma SettledLoad(prev: Kind, a: seq<Token>)
    requires !EndsOperand(prev) && Settled(Deref, a)
    ensures Settled(prev, [DEREF] + a)
  {
    SettledOne(prev, DEREF);
    SettledAppend(prev, [DEREF], a);
  }

  lemma SettledOperator(prev: Kind, a: seq<Token>, op: Kind, b: seq<Token>)
    requires a != [] && Settled(prev, a) && EndsOperand(a[|a| - 1].kind) && IsBinary(op) && Settled(op, b)
    ensures Settled(prev, a + [Token(op, "")] + b)
  {
    SettledOne(LastKind(prev, a), Token(op, ""));
    SettledAppend(prev, a, [Token(op, "")]);
    LastKindOfAppend(prev, a, [Token(op, "")]);
    SettledAppend(prev, a + [Token(op, "")], b);
  }

  lemma {:induction false} PrintSettled(prev: Kind, e: Tree)
    requires Expression(e) && !EndsOperand(prev)
    ensures Settled(prev, Print(e))
    decreases e
  {
    match e
    case Leaf(t) => SettledOne(prev, t);
    case Paren(b) =>
      PrintSettled(LParen, b);
      SettledBracket(prev, Print(b));
    case Load(a) =>
      PrintSettled(Deref, a);
      SettledLoad(prev, Print(a));
    case Binary(op, l, r) =>
      PrintSettled(prev, l);
      PrintSettled(op, r);
      PrintEndsOperand(l);
      SettledOperator(prev, Print(l), op, Print(r));
  }

  /** What a `*` means can be told from how the tokens are typed. */
  lemma {:induction false} SettledSame(prev: Kind, a: seq<Token>, b: seq<Token>)
    requires Settled(prev, a) && Settled(prev, b) && Typed(a) == Typed(b)
    ensures a == b
    decreases a
  {
    if a != [] {
      assert Typed(a)[0] == Typed(b)[0] && Typed(a)[1..] == Typed(b)[1..];
      SettledSame(a[0].kind, a[1..], b[1..]);
      assert a == [a[0]] + a[1..] && b == [b[0]] + b[1..];
    }
  }

  /** The pass changes nothing in how the tokens are typed. */
  lemma {:induction false} TypedMark(prev: Kind, ts: seq<Token>)
    ensures Typed(Mark(prev, Typed(ts))) == Typed(ts)
    decreases ts
  {
    if ts != [] {
      var us := Typed(ts);
      var m := MarkOne(prev, us[0]);
      assert us[1..] == Typed(ts[1..]);
      TypedMark(m.kind, ts[1..]);
      var ms := Mark(prev, us);
      assert ms[0] == m && ms[1..] == Mark(m.kind, us[1..]);
      assert Typed(ms) == [us[0]] + us[1..];
    }
  }

  lemma SameTyped(e: Tree, f: Tree)
    requires Expression(e) && Expression(f) && Print(f) == Marked(LParen, e)
    ensures Print(e) == Print(f)
  {
    MarkedPrint(LParen, e);
    TypedMark(LParen, Print(e));
    PrintSettled(LParen, e);
    PrintSettled(LParen, f);
    SettledSame(LParen, Print(e), Print(f));
  }

  /** A tree of the grammar printed as the pass leaves an expression is that expression. */
  lemma SameTree(e: Tree, f: Tree)
    requires Expression(e) && WellFormed(f) && Print(f) == Marked(LParen, e)
    ensures Markable(e) && e == f
  {
    WellFormedIsExpression(f);
    SameTyped(e, f);
    MarkedPrint(LParen, e);
    MarkPrint(e);
    MarkableIsWellFormed(e);
    Unambiguous(e, f);
  }

  /** Unless a group starts with a dereference, a value comes only out of a clean expression, marked as meant. */
  lemma ValueMeansFound(e: Tree, env: Env)
    requires Expression(e) && PlainGroups(e) && Evaluate(Marked(LParen, e), env).Value?
    ensures Clean(e) && Markable(e) && Evaluate(Marked(LParen, e), env) == TreeValue(e, env)
  {
    var ms := Marked(LParen, e);
    MarkedGuarded(LParen, e);
    var f := EvaluateExplains(ms, env);
    SameTree(e, f);
  }

  /**
   What eval makes of the tokens of an expression after the pass, when the expression is clean or no group starts
   with a dereference: a value exactly when the expression is clean, the pass finds its dereferences and its
   evaluation meets no failure.
   */
  lemma EvaluateMarked(e: Tree, env: Env)
    requires Expression(e) && (Clean(e) || PlainGroups(e))
    ensures var r := Evaluate(Marked(LParen, e), env);
            && (r.Value? <==> Clean(e) && Markable(e) && TreeValue(e, env).Value?)
            && (Clean(e) && Markable(e) ==> r == TreeValue(e, env))
  {
    if Clean(e) && Markable(e) {
      MarkedPrint(LParen, e);
      MarkPrint(e);
      MarkableIsWellFormed(e);
      EvaluatePrint(e, env);
    } else if Clean(e) {
      MissedFails(LParen, e, env);
    } else if Evaluate(Marked(LParen, e), env).Value? {
      ValueMeansFound(e, env);
    }
  }

  /** Marking spoils the tokens of the expression, and eval returns no value on what it leaves. */
  ghost predicate Spoilt(e: Tree, env: Env) {
    var ms := Mark(LParen, Typed(Print(e)));
    Expression(e) && ms != Print(e) && !Evaluate(ms, env).Value?
  }

  lemma UnmarkableIsSpoilt(e: Tree, env: Env)
    requires Expression(e) && Clean(e) && !Markable(e)
    ensures Spoilt(e, env)
  {
    MarkPrint(e);
    MarkedPrint(LParen, e);
    EvaluateMarked(e, env);
  }

  /** Both ways to miss a dereference: `**y` and `x&&*y`. */
  lemma DereferencesMissed(x: Token, y: Token, env: Env)
    requires IsAtom(x.kind) && IsAtom(y.kind)
    ensures Spoilt(Load(Load(Leaf(y))), env) && Spoilt(Binary(And, Leaf(x), Load(Leaf(y))), env)
  {
    UnmarkableIsSpoilt(Load(Load(Leaf(y))), env);
    UnmarkableIsSpoilt(Binary(And, Leaf(x), Load(Leaf(y))), env);
  }
}
