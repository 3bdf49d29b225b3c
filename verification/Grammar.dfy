/**
 Tokens of debugger expressions, and the unambiguous precedence grammar they are meant to follow:
 `&&` is looser than `==` and `!=`, these are looser than `+` and `-`, these than `*` and `/`, every
 binary operator is left associative, and the dereferencing `*` binds tighter than all of them.
 Nothing in this module is taken from the evaluator; it is what the evaluator is compared with.
 */
module Grammar {
  import opened Sequences

  datatype Kind =
    | Plus | Minus | Star | Slash | Eq | NotEq | And
    | LParen | RParen | Hex | Num10 | Reg | Deref

  /** `text` is the lexeme of a number or a register name; other tokens carry the empty string. */
  datatype Token = Token(kind: Kind, text: string)

  const OPEN := Token(LParen, "")
  const CLOSE := Token(RParen, "")
  const STAR := Token(Star, "")
  const DEREF := Token(Deref, "")

  predicate IsAtom(k: Kind) {
    k in {Hex, Num10, Reg}
  }

  predicate IsBinary(k: Kind) {
    k in {Plus, Minus, Star, Slash, Eq, NotEq, And}
  }

  /** What an operand can end with. */
  predicate EndsOperand(k: Kind) {
    IsAtom(k) || k == RParen
  }

  /** How loosely an operator binds; -1 for tokens that are not operators. */
  function Priority(k: Kind): int {
    match k
    case And => 4
    case Eq | NotEq => 3
    case Plus | Minus => 2
    case Star | Slash => 1
    case Deref => 0
    case _ => -1
  }

  datatype Tree =
    | Leaf(atom: Token)
    | Paren(body: Tree)
    | Load(address: Tree)
    | Binary(op: Kind, left: Tree, right: Tree)

  /** The looseness of the operator at the root of a tree; -1 when there is none. */
  function Level(e: Tree): int {
    match e
    case Leaf(_) => -1
    case Paren(_) => -1
    case Load(_) => 0
    case Binary(op, _, _) => Priority(op)
  }

  /** The trees that respect precedence and left associativity without any implied parenthesis. */
  predicate Expression(e: Tree) {
    match e
    case Leaf(t) => IsAtom(t.kind)
    case Paren(b) => Expression(b)
    case Load(a) => Expression(a) && Level(a) <= 0
    case Binary(op, l, r) =>
      IsBinary(op) && Expression(l) && Expression(r) && Level(l) <= Priority(op) && Level(r) < Priority(op)
  }

  /** The expressions without a dereference of a dereference, as in `**p`: those eval can read. */
  predicate WellFormed(e: Tree) {
    match e
    case Leaf(t) => IsAtom(t.kind)
    case Paren(b) => WellFormed(b)
    case Load(a) => WellFormed(a) && Level(a) == -1
    case Binary(op, l, r) =>
      IsBinary(op) && WellFormed(l) && WellFormed(r) && Level(l) <= Priority(op) && Level(r) < Priority(op)
  }

  /** The token sequence a tree stands for. */
  function Print(e: Tree): seq<Token> {
    match e
    case Leaf(t) => [t]
    case Paren(b) => [OPEN] + Print(b) + [CLOSE]
    case Load(a) => [DEREF] + Print(a)
    case Binary(op, l, r) => Print(l) + [Token(op, "")] + Print(r)
  }

  lemma {:induction false} WellFormedIsExpression(e: Tree)
    requires WellFormed(e)
    ensures Expression(e)
  {
    match e
    case Leaf(_) =>
    case Paren(b) => WellFormedIsExpression(b);
    case Load(a) => WellFormedIsExpression(a);
    case Binary(_, l, r) =>
      WellFormedIsExpression(l);
      WellFormedIsExpression(r);
  }

  predicate StartsWithLoad(e: Tree) {
    match e
    case Load(_) => true
    case Binary(_, l, _) => StartsWithLoad(l)
    case _ => false
  }

  /** No parenthesised group starts with a dereference. */
  predicate PlainGroups(e: Tree) {
    match e
    case Leaf(_) => true
    case Paren(b) => PlainGroups(b) && !StartsWithLoad(b)
    case Load(a) => PlainGroups(a)
    case Binary(_, l, r) => PlainGroups(l) && PlainGroups(r)
  }

  predicate LoadFree(e: Tree) {
    match e
    case Leaf(_) => true
    case Paren(b) => LoadFree(b)
    case Load(_) => false
    case Binary(_, l, r) => LoadFree(l) && LoadFree(r)
  }

  ghost predicate DerefFree(ts: seq<Token>) {
    forall i | 0 <= i < |ts| :: ts[i].kind != Deref
  }

  // ---------- Nesting depth ----------

  function Delta(t: Token): int {
    if t.kind == LParen then 1 else if t.kind == RParen then -1 else 0
  }

  /** How many parentheses are open after the first n tokens. */
  function Depth(ts: seq<Token>, n: nat): int
    requires n <= |ts|
  {
    if n == 0 then 0 else Depth(ts, n - 1) + Delta(ts[n - 1])
  }

  lemma {:induction false} DepthPrefix(a: seq<Token>, b: seq<Token>, n: nat)
    requires n <= |a|
    ensures Depth(a + b, n) == Depth(a, n)
  {
    if n > 0 {
      DepthPrefix(a, b, n - 1);
    }
  }

  lemma {:induction false} DepthAppend(a: seq<Token>, b: seq<Token>, n: nat)
    requires n <= |b|
    ensures Depth(a + b, |a| + n) == Depth(a, |a|) + Depth(b, n)
  {
    if n == 0 {
      DepthPrefix(a, b, |a|);
    } else {
      DepthAppend(a, b, n - 1);
      assert (a + b)[|a| + n - 1] == b[n - 1];
    }
  }

  /** Every closing parenthesis closes an open one, and all are closed at the end. */
  ghost predicate ProperlyNested(ts: seq<Token>) {
    Depth(ts, |ts|) == 0 && forall i | 0 <= i <= |ts| :: Depth(ts, i) >= 0
  }

  // ---------- Operators outside every parenthesis ----------

  predicate TopOperator(ts: seq<Token>, i: int) {
    0 <= i < |ts| && Priority(ts[i].kind) >= 0 && Depth(ts, i) == 0
  }

  /** Operator i is at least as loose as j, and to its right when both are equally loose. */
  predicate Dominates(ts: seq<Token>, i: nat, j: nat)
    requires i < |ts| && j < |ts|
  {
    var (p, q) := (Priority(ts[i].kind), Priority(ts[j].kind));
    q < p || (q == p && j <= i)
  }

  /** i is the rightmost of the loosest operators outside every parenthesis. */
  ghost predicate IsPrimary(ts: seq<Token>, i: int) {
    TopOperator(ts, i) && forall j | TopOperator(ts, j) :: Dominates(ts, i, j)
  }

  lemma PrimaryIsUnique(ts: seq<Token>, i: int, j: int)
    requires IsPrimary(ts, i) && IsPrimary(ts, j)
    ensures i == j
  {
    assert Dominates(ts, i, j) && Dominates(ts, j, i);
  }

  /** Where the root operator of a tree is printed. */
  function RootPosition(e: Tree): nat {
    match e
    case Binary(_, l, _) => |Print(l)|
    case _ => 0
  }

  lemma {:induction false} PrintNonempty(e: Tree)
    ensures |Print(e)| >= 1
  {}

  lemma {:induction false} TopOfAppend(a: seq<Token>, b: seq<Token>, i: int)
    requires Depth(a, |a|) == 0
    ensures TopOperator(a + b, i) <==> if i < |a| then TopOperator(a, i) else TopOperator(b, i - |a|)
  {
    if 0 <= i < |a| {
      DepthPrefix(a, b, i);
    } else if |a| <= i < |a| + |b| {
      DepthAppend(a, b, i - |a|);
      assert Depth(a + b, i) == Depth(b, i - |a|);
      assert (a + b)[i] == b[i - |a|];
    }
  }

  /** A printed tree is properly nested. */
  lemma {:induction false} PrintIsNested(e: Tree)
    requires WellFormed(e)
    ensures ProperlyNested(Print(e))
  {
    var ts := Print(e);
    match e
    case Leaf(t) =>
      assert Depth(ts, 1) == Depth(ts, 0) + Delta(ts[0]);
    case Paren(b) =>
      PrintIsNested(b);
      ParenDepth(Print(b));
      assert ts == [OPEN] + Print(b) + [CLOSE];
    case Load(a) =>
      PrintIsNested(a);
      AppendIsNested([DEREF], Print(a));
    case Binary(op, l, r) =>
      PrintIsNested(l);
      PrintIsNested(r);
      JoinIsNested(Print(l), op, Print(r));
  }

  lemma JoinIsNested(a: seq<Token>, op: Kind, b: seq<Token>)
    requires ProperlyNested(a) && ProperlyNested(b) && IsBinary(op)
    ensures ProperlyNested(a + [Token(op, "")] + b)
  {
    AppendIsNested([Token(op, "")], b);
    AppendIsNested(a, [Token(op, "")] + b);
    Associative(a, [Token(op, "")], b);
  }

  lemma {:induction false} AppendIsNested(a: seq<Token>, b: seq<Token>)
    requires ProperlyNested(b)
    requires ProperlyNested(a) || (|a| == 1 && Delta(a[0]) == 0)
    ensures ProperlyNested(a + b)
  {
    assert |a| == 1 ==> Depth(a, 1) == Depth(a, 0) + Delta(a[0]);
    forall i | 0 <= i <= |a + b|
      ensures Depth(a + b, i) >= 0
    {
      if i <= |a| { DepthPrefix(a, b, i); } else { DepthAppend(a, b, i - |a|); }
    }
    DepthAppend(a, b, |b|);
  }

  /** Depth inside a parenthesised sequence. */
  lemma {:induction false} ParenDepth(b: seq<Token>)
    ensures var ts := [OPEN] + b + [CLOSE];
            && (forall i | 1 <= i <= |b| + 1 :: Depth(ts, i) == 1 + Depth(b, i - 1))
            && Depth(ts, |ts|) == Depth(b, |b|)
  {
    var ts := [OPEN] + b + [CLOSE];
    assert Depth([OPEN], 1) == Depth([OPEN], 0) + 1;
    forall i | 1 <= i <= |b| + 1
      ensures Depth(ts, i) == 1 + Depth(b, i - 1)
    {
      DepthAppend([OPEN], b, i - 1);
      DepthPrefix([OPEN] + b, [CLOSE], i);
    }
    assert Depth(ts, |ts|) == Depth(ts, |ts| - 1) + Delta(ts[|ts| - 1]);
  }

  /** Tokens around an operator at depth 0: positions right of it are those of the right operand. */
  lemma {:induction false} TopOfSplit(a: seq<Token>, op: Token, b: seq<Token>, i: int)
    requires Depth(a, |a|) == 0 && Delta(op) == 0
    ensures i < |a| ==> (TopOperator(a + [op] + b, i) <==> TopOperator(a, i))
    ensures i == |a| ==> (TopOperator(a + [op] + b, i) <==> Priority(op.kind) >= 0)
    ensures i > |a| ==> (TopOperator(a + [op] + b, i) <==> TopOperator(b, i - |a| - 1))
  {
    var aop := a + [op];
    assert Depth(aop, |aop|) == 0 by {
      DepthPrefix(a, [op], |a|);
    }
    TopOfAppend(aop, b, i);
    if i <= |a| {
      TopOfAppend(a, [op], i);
    }
  }

  lemma {:induction false} SplitIsPrimary(a: seq<Token>, op: Token, b: seq<Token>)
    requires Depth(a, |a|) == 0 && Delta(op) == 0 && Priority(op.kind) >= 0
    requires forall i | TopOperator(a, i) :: Priority(a[i].kind) <= Priority(op.kind)
    requires forall i | TopOperator(b, i) :: Priority(b[i].kind) < Priority(op.kind)
    ensures IsPrimary(a + [op] + b, |a|)
  {
    var ts := a + [op] + b;
    TopOfSplit(a, op, b, |a|);
    forall j | TopOperator(ts, j)
      ensures Dominates(ts, |a|, j)
    {
      TopOfSplit(a, op, b, j);
      if j > |a| {
        assert ts[j] == b[j - |a| - 1];
      }
    }
  }

  /** The operators outside every parenthesis of a printed tree are led by its root operator, if any. */
  ghost predicate LedByRoot(e: Tree) {
    if Level(e) >= 0 then IsPrimary(Print(e), RootPosition(e)) else forall i :: !TopOperator(Print(e), i)
  }

  lemma RootKind(e: Tree)
    requires WellFormed(e) && Level(e) >= 0
    ensures RootPosition(e) < |Print(e)| && Priority(Print(e)[RootPosition(e)].kind) == Level(e)
  {}

  lemma {:induction false} TopsBounded(e: Tree)
    requires WellFormed(e) && LedByRoot(e)
    ensures forall i | TopOperator(Print(e), i) :: Priority(Print(e)[i].kind) <= Level(e)
  {
    forall i | TopOperator(Print(e), i)
      ensures Priority(Print(e)[i].kind) <= Level(e)
    {
      RootKind(e);
      assert Dominates(Print(e), RootPosition(e), i);
    }
  }

  lemma {:induction false} NoTopInParen(b: seq<Token>)
    requires ProperlyNested(b)
    ensures forall i :: !TopOperator([OPEN] + b + [CLOSE], i)
  {
    ParenDepth(b);
    InnerOf(OPEN, b, CLOSE);
  }

  lemma {:induction false} RootIsPrimary(e: Tree)
    requires WellFormed(e)
    ensures LedByRoot(e)
  {
    match e
    case Leaf(_) =>
    case Paren(b) =>
      PrintIsNested(b);
      NoTopInParen(Print(b));
    case Load(a) =>
      RootIsPrimary(a);
      TopsBounded(a);
      assert Print(e) == [] + [DEREF] + Print(a);
      SplitIsPrimary([], DEREF, Print(a));
    case Binary(op, l, r) =>
      RootIsPrimary(l);
      RootIsPrimary(r);
      PrintIsNested(l);
      TopsBounded(l);
      TopsBounded(r);
      SplitIsPrimary(Print(l), Token(op, ""), Print(r));
  }

  /** The grammar is unambiguous: a token sequence is the print of at most one tree. */
  lemma {:induction false} Unambiguous(e: Tree, f: Tree)
    requires WellFormed(e) && WellFormed(f) && Print(e) == Print(f)
    ensures e == f
  {
    SameRoot(e, f);
    match e
    case Leaf(t) =>
    case Paren(b) =>
      InnerOf(OPEN, Print(b), CLOSE);
      InnerOf(OPEN, Print(f.body), CLOSE);
      Unambiguous(b, f.body);
    case Load(a) =>
      assert Print(a) == Print(e)[1..] == Print(f.address);
      Unambiguous(a, f.address);
    case Binary(op, l, r) =>
      SplitOf(Print(l), Token(op, ""), Print(r));
      SplitOf(Print(f.left), Token(f.op, ""), Print(f.right));
      Unambiguous(l, f.left);
      Unambiguous(r, f.right);
  }

  /** Trees with the same print have the same constructor, and their root operators stand at the same place. */
  lemma {:induction false} SameRoot(e: Tree, f: Tree)
    requires WellFormed(e) && WellFormed(f) && Print(e) == Print(f)
    ensures e.Leaf? == f.Leaf? && e.Paren? == f.Paren? && e.Load? == f.Load?
    ensures e.Binary? ==> |Print(e.left)| == |Print(f.left)|
  {
    RootIsPrimary(e);
    RootIsPrimary(f);
    if Level(e) >= 0 || Level(f) >= 0 {
      PrimaryIsUnique(Print(e), RootPosition(e), RootPosition(f));
      RootKind(e);
      RootKind(f);
    } else {
      assert e.Leaf? ==> Print(e) == [e.atom];
      assert f.Leaf? ==> Print(f) == [f.atom];
    }
  }
}
