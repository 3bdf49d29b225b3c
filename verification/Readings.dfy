/**
 How eval reads any tokens at all. A reading is a tree in which a dereference may have a prefix in front of it that
 is dropped: eval splits at the dereference and never looks at what stands left of it. Readings are unambiguous;
 those that drop nothing are the clean trees of the grammar.
 */
module Readings {
  import opened Words
  import opened Sequences
  import opened Grammar
  import opened Evaluator
  import opened Misreading

  datatype Reading =
    | Atom(token: Token)
    | Group(body: Reading)
    | Jump(dropped: seq<Token>, address: Reading)
    | Both(op: Kind, left: Reading, right: Reading)

  /** The tokens of a reading. */
  function TokensOf(r: Reading): seq<Token> {
    match r
    case Atom(t) => [t]
    case Group(b) => [OPEN] + TokensOf(b) + [CLOSE]
    case Jump(dropped, a) => dropped + [DEREF] + TokensOf(a)
    case Both(op, l, r) => TokensOf(l) + [Token(op, "")] + TokensOf(r)
  }

  /** The tokens start with `(` and end with `)`. */
  predicate Bracketed(ts: seq<Token>) {
    ts != [] && ts[0].kind == LParen && ts[|ts| - 1].kind == RParen
  }

  /**
   The grammar of readings. Precedence and associativity are as for expressions, but go by the operators that stand
   outside every parenthesis when parentheses are only counted. What is dropped has as many `(` as `)` and no
   other operator than dereferences outside of them.
   */
  ghost predicate Valid(r: Reading) {
    match r
    case Atom(t) => IsAtom(t.kind)
    case Group(b) => Valid(b)
    case Jump(dropped, a) =>
      && Valid(a) && !Bracketed(TokensOf(r))
      && Depth(dropped, |dropped|) == 0 && TopsBelow(dropped, 0) && TopsBelow(TokensOf(a), -1)
    case Both(op, l, r') =>
      && IsBinary(op) && Valid(l) && Valid(r') && !Bracketed(TokensOf(r))
      && TopsBelow(TokensOf(l), Priority(op)) && TopsBelow(TokensOf(r'), Priority(op) - 1)
  }

  /** What a reading is worth: the prefix of a dereference does not matter. */
  function ReadingValue(r: Reading, env: Env): Outcome {
    match r
    case Atom(t) => AtomValue(t, env)
    case Group(b) => ReadingValue(b, env)
    case Jump(_, a) => LoadFrom(ReadingValue(a, env), env)
    case Both(op, l, r') => Combine(op, ReadingValue(l, env), ReadingValue(r', env))
  }

  /** The dereference of a reading stands between what it drops and the tokens of its address. */
  ghost predicate Jumps(dropped: seq<Token>, a: seq<Token>) {
    && Depth(dropped, |dropped|) == 0 && TopsBelow(dropped, 0) && TopsBelow(a, -1)
    && !Bracketed(dropped + [DEREF] + a)
  }

  lemma JumpUnfold(r: Reading)
    requires r.Jump? && Valid(r)
    ensures Valid(r.address) && TokensOf(r) == r.dropped + [DEREF] + TokensOf(r.address)
    ensures Jumps(r.dropped, TokensOf(r.address))
  {}

  // ---------- Eval reads readings ----------

  lemma DepthAround(a: seq<Token>, op: Token, b: seq<Token>)
    requires Depth(a, |a|) == 0 && Delta(op) == 0
    ensures Depth(a + [op] + b, |a + [op] + b|) == Depth(b, |b|)
  {
    DepthPrefix(a, [op], |a|);
    assert Depth(a + [op], |a| + 1) == Depth(a + [op], |a|) + Delta(op);
    DepthAppend(a + [op], b, |b|);
  }

  /** Every reading closes as many parentheses as it opens. */
  lemma {:induction false} TextDepth(r: Reading)
    requires Valid(r)
    ensures TokensOf(r) != [] && Depth(TokensOf(r), |TokensOf(r)|) == 0
  {
    match r
    case Atom(t) => assert Depth([t], 1) == Depth([t], 0) + Delta(t);
    case Group(b) =>
      TextDepth(b);
      ParenDepth(TokensOf(b));
    case Jump(dropped, a) =>
      TextDepth(a);
      DepthAround(dropped, DEREF, TokensOf(a));
    case Both(op, l, r') =>
      TextDepth(l);
      TextDepth(r');
      DepthAround(TokensOf(l), Token(op, ""), TokensOf(r'));
  }

  lemma EvaluateGroup(b: seq<Token>, env: Env)
    requires Depth(b, |b|) == 0
    ensures Evaluate([OPEN] + b + [CLOSE], env) == Evaluate(b, env)
  {
    ParenDepth(b);
    InnerOf(OPEN, b, CLOSE);
  }

  lemma EvaluateSplit(a: seq<Token>, op: Token, b: seq<Token>, env: Env)
    requires b != [] && !Bracketed(a + [op] + b) && Depth(a, |a|) == 0
    requires Delta(op) == 0 && Priority(op.kind) >= 0
    requires TopsBelow(a, Priority(op.kind)) && TopsBelow(b, Priority(op.kind) - 1)
    ensures Evaluate(a + [op] + b, env) ==
            if op.kind == Deref then LoadFrom(Evaluate(b, env), env)
            else Combine(op.kind, Evaluate(a, env), Evaluate(b, env))
  {
    SplitIsPrimary(a, op, b);
    EvaluateAround(a, op, b, env);
  }

  /** Eval gives the reading's value. */
  ghost predicate Evaluates(r: Reading, env: Env) {
    Evaluate(TokensOf(r), env) == ReadingValue(r, env)
  }

  lemma EvaluateJump(dropped: seq<Token>, a: seq<Token>, env: Env)
    requires a != [] && Jumps(dropped, a)
    ensures Evaluate(dropped + [DEREF] + a, env) == LoadFrom(Evaluate(a, env), env)
  {
    EvaluateSplit(dropped, DEREF, a, env);
  }

  lemma JumpEvaluates(r: Reading, env: Env)
    requires r.Jump? && Valid(r) && Evaluates(r.address, env)
    ensures Evaluates(r, env)
  {
    JumpUnfold(r);
    TextDepth(r.address);
    EvaluateJump(r.dropped, TokensOf(r.address), env);
  }

  lemma BothEvaluates(r: Reading, env: Env)
    requires r.Both? && Valid(r) && Evaluates(r.left, env) && Evaluates(r.right, env)
    ensures Evaluates(r, env)
  {
    var a, b := TokensOf(r.left), TokensOf(r.right);
    assert TokensOf(r) == a + [Token(r.op, "")] + b;
    TextDepth(r.left);
    TextDepth(r.right);
    EvaluateSplit(a, Token(r.op, ""), b, env);
  }

  /** On the tokens of a reading eval gives its value, or the failure its evaluation meets. */
  lemma {:induction false} EvaluateText(r: Reading, env: Env)
    requires Valid(r)
    ensures Evaluate(TokensOf(r), env) == ReadingValue(r, env)
  {
    match r
    case Atom(_) =>
    case Group(b) =>
      EvaluateText(b, env);
      TextDepth(b);
      EvaluateGroup(TokensOf(b), env);
    case Jump(dropped, a) =>
      EvaluateText(a, env);
      JumpEvaluates(r, env);
    case Both(op, l, r') =>
      EvaluateText(l, env);
      EvaluateText(r', env);
      BothEvaluates(r, env);
  }

  // ---------- Whatever eval accepts is a reading ----------

  lemma LeftBound(a: seq<Token>, op: Token, b: seq<Token>, i: int)
    requires Depth(a, |a|) == 0 && Delta(op) == 0 && IsPrimary(a + [op] + b, |a|) && TopOperator(a, i)
    ensures Priority(a[i].kind) <= Priority(op.kind)
  {
    var ts := a + [op] + b;
    TopOfSplit(a, op, b, i);
    assert Dominates(ts, |a|, i) && ts[i] == a[i];
  }

  lemma RightBound(a: seq<Token>, op: Token, b: seq<Token>, i: int)
    requires Depth(a, |a|) == 0 && Delta(op) == 0 && IsPrimary(a + [op] + b, |a|) && TopOperator(b, i)
    ensures Priority(b[i].kind) < Priority(op.kind)
  {
    var ts, j := a + [op] + b, |a| + 1 + i;
    TopOfSplit(a, op, b, j);
    assert Dominates(ts, |a|, j) && ts[j] == b[i];
  }

  /** Around its primary operator a segment has no looser operators, and none as loose to the right. */
  lemma PrimaryBounds(a: seq<Token>, op: Token, b: seq<Token>)
    requires Delta(op) == 0 && IsPrimary(a + [op] + b, |a|)
    ensures Depth(a, |a|) == 0
    ensures TopsBelow(a, Priority(op.kind)) && TopsBelow(b, Priority(op.kind) - 1)
  {
    Associative(a, [op], b);
    DepthPrefix(a, [op] + b, |a|);
    forall i | TopOperator(a, i) ensures Priority(a[i].kind) <= Priority(op.kind) {
      LeftBound(a, op, b, i);
    }
    forall i | TopOperator(b, i) ensures Priority(b[i].kind) <= Priority(op.kind) - 1 {
      RightBound(a, op, b, i);
    }
  }

  /** r is a reading of ts worth v. */
  ghost predicate Reads(r: Reading, ts: seq<Token>, v: word, env: Env) {
    Valid(r) && TokensOf(r) == ts && ReadingValue(r, env) == Value(v)
  }

  lemma PlainSlice(ts: seq<Token>, i: nat, j: nat)
    requires i <= j <= |ts| && Plain(ts)
    ensures Plain(ts[i..j])
  {}

  lemma JumpReads(ts: seq<Token>, dropped: seq<Token>, right: seq<Token>, a: Reading, x: word, v: word, env: Env)
    requires ts == dropped + [DEREF] + right && IsPrimary(ts, |dropped|) && !Bracketed(ts)
    requires Reads(a, right, x, env) && LoadFrom(Value(x), env) == Value(v)
    ensures Reads(Jump(dropped, a), ts, v, env)
  {
    PrimaryBounds(dropped, DEREF, right);
  }

  lemma BothRead(ts: seq<Token>, left: seq<Token>, op: Kind, right: seq<Token>, l: Reading, r: Reading,
                 x: word, y: word, v: word, env: Env)
    requires ts == left + [Token(op, "")] + right && IsPrimary(ts, |left|) && !Bracketed(ts) && IsBinary(op)
    requires Reads(l, left, x, env) && Reads(r, right, y, env) && Apply(op, x, y) == Value(v)
    ensures Reads(Both(op, l, r), ts, v, env)
  {
    PrimaryBounds(left, Token(op, ""), right);
  }

  lemma JumpReadsAt(ts: seq<Token>, p: nat, a: Reading, x: word, v: word, env: Env)
    requires p < |ts| && IsPrimary(ts, p) && !Bracketed(ts) && ts[p] == DEREF
    requires Reads(a, ts[p + 1..], x, env) && LoadFrom(Value(x), env) == Value(v)
    ensures Reads(Jump(ts[..p], a), ts, v, env)
  {
    SplitAt(ts, p);
    JumpReads(ts, ts[..p], ts[p + 1..], a, x, v, env);
  }

  lemma BothReadAt(ts: seq<Token>, p: nat, l: Reading, r: Reading, x: word, y: word, v: word, env: Env)
    requires p < |ts| && IsPrimary(ts, p) && !Bracketed(ts) && IsBinary(ts[p].kind) && ts[p].text == ""
    requires Reads(l, ts[..p], x, env) && Reads(r, ts[p + 1..], y, env) && Apply(ts[p].kind, x, y) == Value(v)
    ensures Reads(Both(ts[p].kind, l, r), ts, v, env)
  {
    SplitAt(ts, p);
    assert ts[p] == Token(ts[p].kind, "");
    BothRead(ts, ts[..p], ts[p].kind, ts[p + 1..], l, r, x, y, v, env);
  }

  lemma GroupReads(ts: seq<Token>, b: Reading, v: word, env: Env)
    requires |ts| >= 2 && ts[0] == OPEN && ts[|ts| - 1] == CLOSE && Reads(b, ts[1..|ts| - 1], v, env)
    ensures Reads(Group(b), ts, v, env)
  {
    EndsAround(ts);
  }

  /** When eval splits at a dereference, it is the primary operator. */
  lemma DerefIsPrimary(ts: seq<Token>)
    requires |ts| >= 2 && ts[SplitPosition(ts)].kind == Deref
    ensures IsPrimary(ts, SplitPosition(ts))
  {
    SplitPositionIs(ts, 0);
    assert SplitPosition(ts) == 0 ==> TopOperator(ts, 0);
  }

  lemma {:induction false} EvaluateReads(ts: seq<Token>, env: Env) returns (r: Reading)
    requires Plain(ts) && Evaluate(ts, env).Value?
    ensures Reads(r, ts, Evaluate(ts, env).v, env)
    decreases |ts|, 1
  {
    if |ts| == 1 {
      r := Atom(ts[0]);
    } else if CheckSegment(ts) == Strip {
      PlainSlice(ts, 1, |ts| - 1);
      var b := EvaluateReads(ts[1..|ts| - 1], env);
      GroupReads(ts, b, Evaluate(ts, env).v, env);
      r := Group(b);
    } else {
      r := SidesRead(ts, env);
    }
  }

  lemma {:induction false} SidesRead(ts: seq<Token>, env: Env) returns (r: Reading)
    requires |ts| >= 2 && CheckSegment(ts) == Keep && Plain(ts) && Evaluate(ts, env).Value?
    ensures Reads(r, ts, Evaluate(ts, env).v, env)
    decreases |ts|, 0
  {
    var p, v := SplitPosition(ts), Evaluate(ts, env).v;
    if ts[p].kind == Deref {
      DerefIsPrimary(ts);
      var right := ts[p + 1..];
      PlainSlice(ts, p + 1, |ts|);
      var a := EvaluateReads(right, env);
      JumpReadsAt(ts, p, a, Evaluate(right, env).v, v, env);
      r := Jump(ts[..p], a);
    } else {
      p := SplitReturns(ts, env);
      var left, right := ts[..p], ts[p + 1..];
      PlainSlice(ts, 0, p);
      PlainSlice(ts, p + 1, |ts|);
      var l := EvaluateReads(left, env);
      var r' := EvaluateReads(right, env);
      BothReadAt(ts, p, l, r', Evaluate(left, env).v, Evaluate(right, env).v, v, env);
      r := Both(ts[p].kind, l, r');
    }
  }

  /** Of any tokens: eval returns v exactly when they are the text of a reading worth v. */
  lemma ReadExactly(ts: seq<Token>, v: word, env: Env)
    requires Plain(ts)
    ensures Evaluate(ts, env) == Value(v) <==> exists r :: Reads(r, ts, v, env)
  {
    if Evaluate(ts, env) == Value(v) {
      var r := EvaluateReads(ts, env);
    }
    forall r | Reads(r, ts, v, env)
      ensures Evaluate(ts, env) == Value(v)
    {
      EvaluateText(r, env);
    }
  }

  // ---------- Readings are unambiguous ----------

  /** Where the operator at the root of a reading stands. */
  function RootAt(r: Reading): nat
    requires r.Jump? || r.Both?
  {
    if r.Jump? then |r.dropped| else |TokensOf(r.left)|
  }

  lemma SplitLeads(a: seq<Token>, op: Token, b: seq<Token>)
    requires b != [] && Depth(a, |a|) == 0 && Delta(op) == 0 && Priority(op.kind) >= 0
    requires TopsBelow(a, Priority(op.kind)) && TopsBelow(b, Priority(op.kind) - 1)
    ensures var ts := a + [op] + b; IsPrimary(ts, |a|) && |ts| >= 2 && ts[|a|] == op
  {
    SplitIsPrimary(a, op, b);
    SplitOf(a, op, b);
  }

  lemma JumpSplits(dropped: seq<Token>, a: seq<Token>)
    requires a != [] && Jumps(dropped, a)
    ensures var ts := dropped + [DEREF] + a; IsPrimary(ts, |dropped|) && |ts| >= 2 && ts[|dropped|] == DEREF
  {
    SplitLeads(dropped, DEREF, a);
  }

  /** The operator at the root is the primary one. */
  ghost predicate LedBy(r: Reading, op: Token)
    requires r.Jump? || r.Both?
  {
    |TokensOf(r)| >= 2 && IsPrimary(TokensOf(r), RootAt(r)) && TokensOf(r)[RootAt(r)] == op
  }

  lemma JumpLeads(r: Reading)
    requires r.Jump? && Valid(r)
    ensures LedBy(r, DEREF)
  {
    JumpUnfold(r);
    TextDepth(r.address);
    JumpSplits(r.dropped, TokensOf(r.address));
  }

  lemma BothLead(r: Reading)
    requires r.Both? && Valid(r)
    ensures LedBy(r, Token(r.op, ""))
  {
    var a, b := TokensOf(r.left), TokensOf(r.right);
    assert TokensOf(r) == a + [Token(r.op, "")] + b;
    TextDepth(r.left);
    TextDepth(r.right);
    SplitLeads(a, Token(r.op, ""), b);
  }

  lemma RootLeads(r: Reading)
    requires Valid(r) && (r.Jump? || r.Both?)
    ensures LedBy(r, if r.Jump? then DEREF else Token(r.op, ""))
  {
    if r.Jump? {
      JumpLeads(r);
    } else {
      BothLead(r);
    }
  }

  /** What the tokens tell about the root of a reading. */
  lemma RootOf(r: Reading)
    requires Valid(r)
    ensures r.Atom? <==> |TokensOf(r)| == 1
    ensures r.Group? <==> Bracketed(TokensOf(r)) && |TokensOf(r)| > 1
  {
    match r
    case Atom(_) =>
    case Group(b) => TextDepth(b);
    case Jump(_, _) => RootLeads(r);
    case Both(_, _, _) => RootLeads(r);
  }

  lemma SameKind(r: Reading, s: Reading)
    requires Valid(r) && Valid(s) && TokensOf(r) == TokensOf(s)
    ensures r.Atom? == s.Atom? && r.Group? == s.Group? && r.Jump? == s.Jump? && r.Both? == s.Both?
    ensures r.Jump? || r.Both? ==> RootAt(r) == RootAt(s)
  {
    RootOf(r);
    RootOf(s);
    if r.Jump? || r.Both? {
      RootLeads(r);
      RootLeads(s);
      PrimaryIsUnique(TokensOf(r), RootAt(r), RootAt(s));
    }
  }

  lemma {:induction false} OneReading(r: Reading, s: Reading)
    requires Valid(r) && Valid(s) && TokensOf(r) == TokensOf(s)
    ensures r == s
  {
    SameKind(r, s);
    match r
    case Atom(_) =>
    case Group(b) =>
      InnerOf(OPEN, TokensOf(b), CLOSE);
      InnerOf(OPEN, TokensOf(s.body), CLOSE);
      OneReading(b, s.body);
    case Jump(dropped, a) =>
      SplitOf(dropped, DEREF, TokensOf(a));
      SplitOf(s.dropped, DEREF, TokensOf(s.address));
      OneReading(a, s.address);
    case Both(op, l, r') =>
      SplitOf(TokensOf(l), Token(op, ""), TokensOf(r'));
      SplitOf(TokensOf(s.left), Token(s.op, ""), TokensOf(s.right));
      RootLeads(r);
      RootLeads(s);
      OneReading(l, s.left);
      OneReading(r', s.right);
  }

  // ---------- Readings that drop nothing ----------

  predicate DropsNothing(r: Reading) {
    match r
    case Atom(_) => true
    case Group(b) => DropsNothing(b)
    case Jump(dropped, a) => dropped == [] && DropsNothing(a)
    case Both(_, l, r') => DropsNothing(l) && DropsNothing(r')
  }

  function TreeOf(r: Reading): Tree {
    match r
    case Atom(t) => Leaf(t)
    case Group(b) => Paren(TreeOf(b))
    case Jump(_, a) => Load(TreeOf(a))
    case Both(op, l, r') => Binary(op, TreeOf(l), TreeOf(r'))
  }

  lemma LevelBounded(e: Tree, level: int)
    requires WellFormed(e) && TopsBelow(Print(e), level) && level >= -1
    ensures Level(e) <= level
  {
    RootIsPrimary(e);
    if Level(e) >= 0 {
      RootKind(e);
      assert TopOperator(Print(e), RootPosition(e));
    }
  }

  /** The tree is the reading's. */
  ghost predicate IsTreeOf(e: Tree, r: Reading, env: Env) {
    WellFormed(e) && Clean(e) && Print(e) == TokensOf(r) && TreeValue(e, env) == ReadingValue(r, env)
  }

  lemma EndsOfSplit(a: seq<Token>, op: Token, b: seq<Token>)
    requires a != [] && b != []
    ensures Bracketed(a + [op] + b) <==> a[0].kind == LParen && b[|b| - 1].kind == RParen
  {}

  /** Both sides of an operator that is loose enough for them are a tree again. */
  lemma JoinedTree(op: Kind, l: Tree, r: Tree)
    requires IsBinary(op) && WellFormed(l) && WellFormed(r) && Clean(l) && Clean(r)
    requires TopsBelow(Print(l), Priority(op)) && TopsBelow(Print(r), Priority(op) - 1)
    ensures WellFormed(Binary(op, l, r))
    ensures !Bracketed(Print(Binary(op, l, r))) ==> Clean(Binary(op, l, r))
  {
    LevelBounded(l, Priority(op));
    LevelBounded(r, Priority(op) - 1);
    PrintEnds(l);
    PrintEnds(r);
    EndsOfSplit(Print(l), Token(op, ""), Print(r));
  }

  lemma BothIsTree(op: Kind, l: Tree, r: Tree, left: Reading, right: Reading, env: Env)
    requires Valid(Both(op, left, right)) && IsTreeOf(l, left, env) && IsTreeOf(r, right, env)
    ensures IsTreeOf(Binary(op, l, r), Both(op, left, right), env)
  {
    assert Print(Binary(op, l, r)) == TokensOf(Both(op, left, right));
    JoinedTree(op, l, r);
  }

  lemma LoadedTree(a: Tree)
    requires WellFormed(a) && Clean(a) && TopsBelow(Print(a), -1)
    ensures WellFormed(Load(a)) && Clean(Load(a)) && Print(Load(a)) == [] + [DEREF] + Print(a)
  {
    LevelBounded(a, -1);
    NothingBefore(DEREF, Print(a));
  }

  lemma JumpIsTree(a: Tree, address: Reading, env: Env)
    requires Valid(Jump([], address)) && IsTreeOf(a, address, env)
    ensures IsTreeOf(Load(a), Jump([], address), env)
  {
    LoadedTree(a);
    assert Print(Load(a)) == TokensOf(Jump([], address));
  }

  /** A reading that drops nothing is a clean tree of the grammar, with the same tokens and the same value. */
  lemma {:induction false} NothingDropped(r: Reading, env: Env)
    requires Valid(r) && DropsNothing(r)
    ensures IsTreeOf(TreeOf(r), r, env)
  {
    match r
    case Atom(_) =>
    case Group(b) => NothingDropped(b, env);
    case Jump(_, a) =>
      NothingDropped(a, env);
      JumpIsTree(TreeOf(a), a, env);
    case Both(op, l, r') =>
      NothingDropped(l, env);
      NothingDropped(r', env);
      BothIsTree(op, TreeOf(l), TreeOf(r'), l, r', env);
  }

  function AsReading(e: Tree): Reading {
    match e
    case Leaf(t) => Atom(t)
    case Paren(b) => Group(AsReading(b))
    case Load(a) => Jump([], AsReading(a))
    case Binary(op, l, r) => Both(op, AsReading(l), AsReading(r))
  }

  lemma OperatorsBounded(e: Tree, level: int)
    requires WellFormed(e) && Level(e) <= level
    ensures TopsBelow(Print(e), level)
  {
    RootIsPrimary(e);
    TopsBounded(e);
  }

  /** And every clean tree is such a reading. */
  lemma {:induction false} CleanIsReading(e: Tree, env: Env)
    requires WellFormed(e) && Clean(e)
    ensures var r := AsReading(e);
            Valid(r) && DropsNothing(r) && TokensOf(r) == Print(e) && ReadingValue(r, env) == TreeValue(e, env)
  {
    match e
    case Leaf(_) =>
    case Paren(b) => CleanIsReading(b, env);
    case Load(a) =>
      CleanIsReading(a, env);
      OperatorsBounded(a, -1);
      NothingBefore(DEREF, Print(a));
    case Binary(op, l, r) =>
      CleanIsReading(l, env);
      CleanIsReading(r, env);
      OperatorsBounded(l, Priority(op));
      OperatorsBounded(r, Priority(op) - 1);
      PrintEnds(l);
      PrintEnds(r);
  }

  lemma UncleanDrops(e: Tree, r: Reading, env: Env)
    requires WellFormed(e) && !Clean(e) && Valid(r) && TokensOf(r) == Print(e)
    ensures !DropsNothing(r)
  {
    if DropsNothing(r) {
      NothingDropped(r, env);
      Unambiguous(e, TreeOf(r));
    }
  }

  /**
   On the tokens of any tree of the grammar, whatever its groups start with: when the tree is clean its own reading
   is the only one, and otherwise every reading drops something, so a value means that tokens were ignored.
   */
  lemma EvaluateAnyTree(e: Tree, v: word, env: Env)
    requires WellFormed(e)
    ensures Evaluate(Print(e), env) == Value(v) <==>
            if Clean(e) then TreeValue(e, env) == Value(v)
            else exists r :: Reads(r, Print(e), v, env) && !DropsNothing(r)
  {
    if Clean(e) {
      EvaluatePrint(e, env);
    } else {
      PrintTokens(e);
      ReadExactly(Print(e), v, env);
      forall r | Reads(r, Print(e), v, env)
        ensures !DropsNothing(r)
      {
        UncleanDrops(e, r, env);
      }
    }
  }
}
