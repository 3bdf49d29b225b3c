/** What the debugger's `expr` answers on whole lines of text. */
module ExprTheorems {
  import opened Arithmetic
  import opened Words
  import opened Grammar
  import opened Lexer
  import opened Marking
  import opened Evaluator
  import opened Misreading
  import opened Readings
  import opened Debugger
  import opened Generator

  /** The token as the user types it. */
  function TypedToken(t: Token): Token {
    if t.kind == Deref then Token(Star, t.text) else t
  }

  /** Tokens whose lexemes can be spelled, no two atoms in a row. */
  ghost predicate Alternating(prev: Kind, ts: seq<Token>)
    decreases ts
  {
    ts == [] ||
    (Spellable(TypedToken(ts[0])) && !(IsAtom(prev) && IsAtom(ts[0].kind)) && Alternating(ts[0].kind, ts[1..]))
  }

  lemma {:induction false} AlternatingAppend(prev: Kind, a: seq<Token>, b: seq<Token>)
    requires Alternating(prev, a) && Alternating(LastKind(prev, a), b)
    ensures Alternating(prev, a + b)
    decreases a
  {
    if a == [] {
      assert a + b == b;
    } else {
      assert (a + b)[1..] == a[1..] + b;
      AlternatingAppend(a[0].kind, a[1..], b);
    }
  }

  /** Every number and name of the tree is in the language of its rule. */
  ghost predicate Writable(e: Tree) {
    match e
    case Leaf(t) => Spellable(t)
    case Paren(b) => Writable(b)
    case Load(a) => Writable(a)
    case Binary(_, l, r) => Writable(l) && Writable(r)
  }

  lemma AlternatingOne(prev: Kind, t: Token)
    requires Spellable(TypedToken(t)) && !(IsAtom(prev) && IsAtom(t.kind))
    ensures Alternating(prev, [t])
  {
    assert [t][1..] == [];
  }

  lemma AlternatingBracket(prev: Kind, b: seq<Token>)
    requires Alternating(LParen, b)
    ensures Alternating(prev, [OPEN] + b + [CLOSE])
  {
    AlternatingOne(prev, OPEN);
    AlternatingOne(LastKind(LParen, b), CLOSE);
    AlternatingAppend(prev, [OPEN], b);
    LastKindOfRest(prev, OPEN, b);
    AlternatingAppend(prev, [OPEN] + b, [CLOSE]);
  }

  lemma AlternatingOperator(prev: Kind, a: seq<Token>, op: Kind, b: seq<Token>)
    requires Alternating(prev, a) && IsBinary(op) && Alternating(op, b)
    ensures Alternating(prev, a + [Token(op, "")] + b)
  {
    AlternatingOne(LastKind(prev, a), Token(op, ""));
    AlternatingAppend(prev, a, [Token(op, "")]);
    LastKindOfAppend(prev, a, [Token(op, "")]);
    AlternatingAppend(prev, a + [Token(op, "")], b);
  }

  lemma {:induction false} PrintAlternates(prev: Kind, e: Tree)
    requires Expression(e) && Writable(e) && !IsAtom(prev)
    ensures Alternating(prev, Print(e))
    decreases e
  {
    match e
    case Leaf(t) => AlternatingOne(prev, t);
    case Paren(b) =>
      PrintAlternates(LParen, b);
      AlternatingBracket(prev, Print(b));
    case Load(a) =>
      PrintAlternates(Deref, a);
      AlternatingOne(prev, DEREF);
      AlternatingAppend(prev, [DEREF], Print(a));
    case Binary(op, l, r) =>
      PrintAlternates(prev, l);
      PrintAlternates(op, r);
      AlternatingOperator(prev, Print(l), op, Print(r));
  }

  lemma {:induction false} AlternatingIsLaid(prev: Kind, ts: seq<Token>, gaps: seq<nat>)
    requires Alternating(prev, ts) && |gaps| == |ts|
    ensures WellLaid(Typed(ts), gaps)
    decreases ts
  {
    if ts != [] {
      AlternatingIsLaid(ts[0].kind, ts[1..], gaps[1..]);
      assert Typed(ts)[1..] == Typed(ts[1..]);
      assert Typed(ts)[0] == TypedToken(ts[0]);
      if |ts| > 1 {
        assert Typed(ts)[1] == Typed(ts[1..])[0] == TypedToken(ts[1]);
      }
    }
  }

  /** A tree as a line of text, with any number of blanks before and after every token. */
  ghost function Line(e: Tree, lead: nat, gaps: seq<nat>): string
    requires |gaps| == |Print(e)|
  {
    Blanks(lead) + Layout(Typed(Print(e)), gaps)
  }

  lemma LexLine(e: Tree, lead: nat, gaps: seq<nat>)
    requires Expression(e) && Writable(e) && |gaps| == |Print(e)|
    ensures Lex(Line(e, lead, gaps)) == (Typed(Print(e)), true)
  {
    var ts := Typed(Print(e));
    PrintAlternates(LParen, e);
    AlternatingIsLaid(LParen, Print(e), gaps);
    LexLayout(ts, gaps);
    PrintNonempty(e);
    LayoutStarts(ts, gaps);
    BlanksVanish(lead, Layout(ts, gaps));
  }

  /**
   From text to value: however an expression is laid out, if it is clean or no group in it starts with a
   dereference, `expr` answers with a value exactly when it is clean, the pass finds its dereferences and its
   evaluation meets no failure. Then it is the expression's value; and a clean expression whose dereferences are
   found is also answered with the failure it meets.
   */
  lemma ExprOnLine(e: Tree, lead: nat, gaps: seq<nat>, env: Env)
    requires Expression(e) && Writable(e) && |gaps| == |Print(e)|
    requires Clean(e) || PlainGroups(e)
    ensures var answer := ExprAnswer(Line(e, lead, gaps), env);
            && answer.Evaluated?
            && (answer.outcome.Value? <==> Clean(e) && Markable(e) && TreeValue(e, env).Value?)
            && (Clean(e) && Markable(e) ==> answer.outcome == TreeValue(e, env))
  {
    LexLine(e, lead, gaps);
    MarkedPrint(LParen, e);
    EvaluateMarked(e, env);
  }

  // ---------- Any text ----------

  lemma {:induction false} TypedDerefFree(ts: seq<Token>)
    requires DerefFree(ts)
    ensures Typed(ts) == ts
  {
    if ts != [] {
      assert ts[0].kind != Deref;
      assert DerefFree(ts[1..]);
      TypedDerefFree(ts[1..]);
    }
  }

  /** The tokenizer never emits a dereference, and only numbers and names keep their text. */
  lemma {:induction false} LexIsPlain(s: string)
    ensures DerefFree(Lex(s).0) && Plain(Lex(s).0)
    decreases |s|
  {
    if s != "" && FirstMatch(s, 0) < NR_REGEX {
      LexIsPlain(s[MatchLength(RuleAt(FirstMatch(s, 0)), s)..]);
    }
  }

  lemma {:induction false} MarkIsPlain(prev: Kind, ts: seq<Token>)
    requires Plain(ts)
    ensures Plain(Mark(prev, ts))
    decreases ts
  {
    if ts != [] {
      var m := MarkOne(prev, ts[0]);
      assert Plain(ts[1..]);
      MarkIsPlain(m.kind, ts[1..]);
    }
  }

  lemma AnswerOf(s: string, ts: seq<Token>, ok: bool, env: Env)
    requires Lex(s) == (ts, ok)
    ensures ExprAnswer(s, env) == if ok then Evaluated(Evaluate(Mark(LParen, ts), env)) else Rejected
  {}

  /**
   Every text whatever: `expr` answers v exactly when the tokenizer accepts the text and its tokens after the pass
   have a reading worth v.
   */
  lemma ExprOnText(s: string, ts: seq<Token>, ok: bool, v: word, env: Env)
    requires Lex(s) == (ts, ok)
    ensures ExprAnswer(s, env) == Evaluated(Value(v)) <==> ok && exists r :: Reads(r, Mark(LParen, ts), v, env)
  {
    AnswerOf(s, ts, ok, env);
    LexIsPlain(s);
    MarkIsPlain(LParen, ts);
    ReadExactly(Mark(LParen, ts), v, env);
  }

  /** No `*` directly behind a `(`. */
  ghost predicate NoStarInGroup(ts: seq<Token>) {
    forall i | 0 < i < |ts| && ts[i].kind == Star :: ts[i - 1].kind != LParen
  }

  /** What the pass does at one position, from the token it left before it. */
  lemma {:induction false} MarkAt(prev: Kind, ts: seq<Token>, i: nat)
    requires i < |ts|
    ensures Mark(prev, ts)[i] == MarkOne(if i == 0 then prev else Mark(prev, ts)[i - 1].kind, ts[i])
    decreases ts
  {
    if i > 0 {
      var m := MarkOne(prev, ts[0]);
      MarkAt(m.kind, ts[1..], i - 1);
      assert Mark(prev, ts) == [m] + Mark(m.kind, ts[1..]);
    }
  }

  lemma MarkIsGuarded(prev: Kind, ts: seq<Token>)
    requires DerefFree(ts) && NoStarInGroup(ts)
    ensures Guarded(Mark(prev, ts))
  {
    var ms := Mark(prev, ts);
    forall i | 0 < i < |ms| && ms[i].kind == Deref
      ensures IsBinary(ms[i - 1].kind)
    {
      MarkAt(prev, ts, i);
      MarkAt(prev, ts, i - 1);
    }
  }

  lemma {:induction false} TypedMarked(prev: Kind, ts: seq<Token>)
    requires DerefFree(ts)
    ensures Typed(Mark(prev, ts)) == ts
    decreases ts
  {
    TypedDerefFree(ts);
    TypedMark(prev, ts);
  }

  /** The text is that of a clean expression whose dereferences the pass finds, worth v. */
  ghost predicate Means(ts: seq<Token>, e: Tree, v: word, env: Env) {
    Expression(e) && Clean(e) && Markable(e) && Typed(Print(e)) == ts && TreeValue(e, env) == Value(v)
  }

  lemma MeansExplains(ts: seq<Token>, e: Tree, v: word, env: Env)
    requires DerefFree(ts)
    ensures Means(ts, e, v, env) <==> Explains(e, Mark(LParen, ts), v, env)
  {
    TypedMarked(LParen, ts);
    if Explains(e, Mark(LParen, ts), v, env) {
      WellFormedIsExpression(e);
      MarkPrint(e);
    } else if Means(ts, e, v, env) {
      MarkPrint(e);
      MarkableIsWellFormed(e);
    }
  }

  /**
   Every text in which no `*` follows a `(`: `expr` answers v exactly when the text is that of a clean expression
   whose dereferences the pass finds and whose value is v. Nothing else is answered with a value.
   */
  lemma ExprOnPlainText(s: string, ts: seq<Token>, ok: bool, v: word, env: Env)
    requires Lex(s) == (ts, ok) && NoStarInGroup(ts)
    ensures ExprAnswer(s, env) == Evaluated(Value(v)) <==> ok && exists e :: Means(ts, e, v, env)
  {
    var ms := Mark(LParen, ts);
    AnswerOf(s, ts, ok, env);
    LexIsPlain(s);
    MarkIsPlain(LParen, ts);
    MarkIsGuarded(LParen, ts);
    EvaluateExactly(ms, v, env);
    forall e ensures Means(ts, e, v, env) <==> Explains(e, ms, v, env) {
      MeansExplains(ts, e, v, env);
    }
  }

  // ---------- Lines without dereferences ----------

  lemma {:induction false} LoadFreeIsMarkable(e: Tree)
    requires LoadFree(e)
    ensures Markable(e)
  {
    match e
    case Leaf(_) =>
    case Paren(b) => LoadFreeIsMarkable(b);
    case Binary(_, l, r) =>
      LoadFreeIsMarkable(l);
      LoadFreeIsMarkable(r);
      LoadFreeIsPlain(r);
  }

  /** Without dereferences the answer is the tree's value exactly when the tree is clean. */
  lemma ExprOnPlainLine(e: Tree, lead: nat, gaps: seq<nat>, env: Env)
    requires Expression(e) && Writable(e) && LoadFree(e) && |gaps| == |Print(e)|
    ensures var answer := ExprAnswer(Line(e, lead, gaps), env);
            && answer.Evaluated?
            && (answer.outcome.Value? <==> Clean(e) && TreeValue(e, env).Value?)
            && (answer.outcome.Value? ==> answer.outcome == TreeValue(e, env))
  {
    LoadFreeIsMarkable(e);
    LoadFreeIsPlain(e);
    ExprOnLine(e, lead, gaps, env);
  }

  // ---------- Generated tests ----------

  lemma {:induction false} JoinIsWritable(l: Tree, op: Kind, r: Tree)
    requires Writable(l) && Writable(r)
    ensures Writable(Join(l, op, r))
  {
    if Level(l) <= Priority(op) && Level(r) < Priority(op) {
    } else if l.Binary? && Level(l) > Level(r) && Level(l) > Priority(op) {
      JoinIsWritable(l.right, op, r);
    } else if r.Binary? {
      JoinIsWritable(l, op, r.left);
    }
  }

  lemma {:induction false} ReparseIsWritable(p: Plan)
    ensures Writable(Reparse(p))
  {
    match p
    case Operand(_) =>
    case Bracket(b) => ReparseIsWritable(b);
    case Chain(l, op, r) =>
      ReparseIsWritable(l);
      ReparseIsWritable(r);
      JoinIsWritable(Reparse(l), op, Reparse(r));
  }

  /** A generated text is the line, without blanks, of the one tree that C's precedence gives it. */
  lemma GeneratedIsLine(p: Plan)
    requires Possible(p)
    ensures var e := Reparse(p);
            && WellFormed(e) && LoadFree(e) && Writable(e)
            && Text(p) == Line(e, 0, NoGaps(|Print(e)|))
            && forall f | WellFormed(f) && Print(f) == Print(e) :: f == e
  {
    var e := Reparse(p);
    var ts := Print(e);
    ReparseIsTree(p);
    ReparseIsWritable(p);
    TextIsSpelled(p);
    SpellIsLayout(ts);
    PrintTokens(e);
    TypedDerefFree(ts);
    assert Blanks(0) + Layout(ts, NoGaps(|ts|)) == Layout(ts, NoGaps(|ts|));
    forall f | WellFormed(f) && Print(f) == ts
      ensures f == e
    {
      Unambiguous(f, e);
    }
  }

  /**
   Every generated text is tokenized into exactly its lexemes, none of which is taken for a dereference, and
   `expr` returns a value on it exactly when its tree is clean and divides by no zero: the tree's value.
   */
  lemma ExprOnGenerated(p: Plan, env: Env)
    requires Possible(p)
    ensures Lex(Text(p)) == (Print(Reparse(p)), true)
    ensures Mark(LParen, Print(Reparse(p))) == Print(Reparse(p)) && DerefFree(Print(Reparse(p)))
    ensures var (answer, value) := (ExprAnswer(Text(p), env), TreeValue(Reparse(p), env));
            && answer.Evaluated?
            && (answer.outcome.Value? <==> Clean(Reparse(p)) && value.Value?)
            && (answer.outcome.Value? ==> answer.outcome == value)
  {
    var e := Reparse(p);
    GeneratedIsLine(p);
    WellFormedIsExpression(e);
    PrintTokens(e);
    TypedDerefFree(Print(e));
    LexLine(e, 0, NoGaps(|Print(e)|));
    LoadFreeIsMarkable(e);
    MarkPrint(e);
    ExprOnPlainLine(e, 0, NoGaps(|Print(e)|), env);
  }

  /** A generated operand is read back as the number that was drawn. */
  lemma {:induction false} DecimalTextIsRead(n: nat)
    ensures Number(DecimalText(n), 10) == n
  {
    var s := DecimalText(n);
    var digit := '0' + (n % 10) as char;
    if n >= 10 {
      DecimalTextIsRead(n / 10);
      assert s[..|s| - 1] == DecimalText(n / 10);
    } else {
      assert s[..|s| - 1] == "";
    }
    assert s[|s| - 1] == digit;
  }

  // ---------- The expected value ----------

  datatype IntResult = Int(i: int) | Undefined

  predicate Fits(i: int) {
    -0x8000_0000 <= i < 0x8000_0000
  }

  function InRange(i: int): IntResult {
    if Fits(i) then Int(i) else Undefined
  }

  function IntApply(op: Kind, a: int, b: int): IntResult {
    match op
    case Plus => InRange(a + b)
    case Minus => InRange(a - b)
    case Star => InRange(a * b)
    case _ => if b == 0 then Undefined else InRange(Truncated(a, b))
  }

  /** What the C compiler makes of a generated text: its literals have type int, and signed overflow is undefined. */
  function IntValue(e: Tree): IntResult {
    match e
    case Leaf(t) => if t.kind == Num10 && Fits(Number(t.text, 10)) then Int(Number(t.text, 10)) else Undefined
    case Paren(b) => IntValue(b)
    case Load(_) => Undefined
    case Binary(op, l, r) =>
      var (x, y) := (IntValue(l), IntValue(r));
      if x.Int? && y.Int? && op in {Plus, Minus, Star, Slash} then IntApply(op, x.i, y.i) else Undefined
  }

  /** The int divisions whose quotient is also that of the operands as unsigned words. */
  predicate QuotientsAgree(a: int, b: int) {
    || (a >= 0 && b > 0)
    || (a >= 0 && b < 0 && a < -b)
    || (a < 0 && (b == 1 || b == a))
  }

  /** Every division of the expression has such operands. */
  predicate DividesAlike(e: Tree) {
    match e
    case Leaf(_) => true
    case Paren(b) => DividesAlike(b)
    case Load(a) => DividesAlike(a)
    case Binary(op, l, r) =>
      && DividesAlike(l) && DividesAlike(r)
      && (op == Slash && IntValue(l).Int? && IntValue(r).Int? ==> QuotientsAgree(IntValue(l).i, IntValue(r).i))
  }

  lemma WrapShift(x: int, k: int)
    ensures Wrap(k * MODULUS + x) == Wrap(x)
  {}

  lemma ProductExpands(m: int, p: int, x: int, q: int, y: int)
    ensures (p * m + x) * (q * m + y) == (p * q * m + p * y + q * x) * m + x * y
  {
    assert (p * m + x) * (q * m + y) == p * m * (q * m) + p * m * y + x * (q * m) + x * y;
    assert p * m * (q * m) == p * q * m * m;
    assert p * m * y == p * y * m && x * (q * m) == q * x * m;
  }

  lemma WrapHomomorphic(a: int, b: int)
    ensures Wrap(Wrap(a) + Wrap(b)) == Wrap(a + b)
    ensures Wrap(Wrap(a) - Wrap(b)) == Wrap(a - b)
    ensures Wrap(Wrap(a) * Wrap(b)) == Wrap(a * b)
  {
    var p: int, q: int, x: int, y: int := a / MODULUS, b / MODULUS, Wrap(a), Wrap(b);
    assert a == p * MODULUS + x && b == q * MODULUS + y;
    WrapShift(x + y, p + q);
    WrapShift(x - y, p - q);
    ProductExpands(MODULUS, p, x, q, y);
    WrapShift(x * y, p * q * MODULUS + p * y + q * x);
  }

  /** What is needed of a quotient m / n to compare it with another. */
  predicate IsQuotient(m: int, n: int, q: int) {
    && (m < n ==> q == 0)
    && (n == 1 ==> q == m)
    && (m >= n ==> q >= 1)
    && (n >= 2 ==> 2 * q <= m)
    && (n <= m < 2 * n ==> q == 1)
  }

  lemma QuotientBounds(m: nat, n: nat)
    requires n > 0
    ensures IsQuotient(m, n, m / n)
  {
    var (q, r) := (m / n, m % n);
    assert m == q * n + r;
    DivNonnegative(m, n);
    if m < n {
      DivModUnique(m, n, 0, m);
    } else if n == 1 {
      DivModUnique(m, 1, m, 0);
    } else {
      MulMonotone(2, n, q);
      if m < 2 * n {
        DivModUnique(m, n, 1, m - n);
      }
      if q <= 0 {
        MulMonotone(q, 0, n);
      }
    }
  }

  /** A number that fits, as an unsigned word. */
  function Unsigned(i: int): int {
    if i < 0 then i + MODULUS else i
  }

  lemma WrapFits(i: int)
    requires Fits(i)
    ensures Wrap(i) == Unsigned(i)
  {}

  lemma QuotientCases(a: int, b: int, q: int, u: int)
    requires Fits(a) && Fits(b) && b != 0
    requires IsQuotient(Magnitude(a), Magnitude(b), q) && IsQuotient(Unsigned(a), Unsigned(b), u)
    requires a >= 0 && b > 0 ==> u == q
    requires Fits(if (a >= 0) == (b > 0) then q else -q)
    ensures u == Unsigned(if (a >= 0) == (b > 0) then q else -q) <==> QuotientsAgree(a, b)
  {}

  /** At one defined division the compiler's quotient and the debugger's agree exactly for these operands. */
  lemma QuotientsAgreeExactly(a: int, b: int)
    requires Fits(a) && Fits(b) && b != 0 && Fits(Truncated(a, b))
    ensures Wrap(b) != 0
    ensures Wrap(a) / Wrap(b) == Wrap(Truncated(a, b)) <==> QuotientsAgree(a, b)
  {
    WrapFits(a);
    WrapFits(b);
    WrapFits(Truncated(a, b));
    QuotientBounds(Magnitude(a), Magnitude(b));
    QuotientBounds(Unsigned(a), Unsigned(b));
    QuotientCases(a, b, Magnitude(a) / Magnitude(b), Unsigned(a) / Unsigned(b));
  }

  lemma ApplyAgrees(op: Kind, a: int, b: int)
    requires op in {Plus, Minus, Star, Slash} && Fits(a) && Fits(b) && IntApply(op, a, b).Int?
    ensures Apply(op, Wrap(a), Wrap(b)) == Value(Wrap(IntApply(op, a, b).i)) <==>
            (op == Slash ==> QuotientsAgree(a, b))
  {
    if op == Slash {
      QuotientsAgreeExactly(a, b);
    } else {
      WrapHomomorphic(a, b);
    }
  }

  lemma IntValueFits(e: Tree)
    requires IntValue(e).Int?
    ensures Fits(IntValue(e).i)
  {}

  /** The debugger's word for the expression is the compiler's int. */
  predicate ValuesAgree(e: Tree, env: Env) {
    IntValue(e).Int? && TreeValue(e, env) == Value(Wrap(IntValue(e).i))
  }

  /**
   The value the generator prints next to a text is the C compiler's int value; the debugger computes with
   unsigned words. They agree on every text the compiler defines if all its divisions have operands whose int
   and unsigned quotients agree.
   */
  lemma {:induction false} IntValueAgrees(e: Tree, env: Env)
    requires IntValue(e).Int? && DividesAlike(e)
    ensures ValuesAgree(e, env)
  {
    match e
    case Leaf(t) =>
    case Paren(b) => IntValueAgrees(b, env);
    case Binary(op, l, r) =>
      IntValueAgrees(l, env);
      IntValueAgrees(r, env);
      IntValueFits(l);
      IntValueFits(r);
      ApplyAgrees(op, IntValue(l).i, IntValue(r).i);
  }

  /** Where both operands agree, the result does exactly when the operator is no division or one of those. */
  lemma OperatorAgrees(e: Tree, env: Env)
    requires e.Binary? && IntValue(e).Int? && ValuesAgree(e.left, env) && ValuesAgree(e.right, env)
    ensures ValuesAgree(e, env) <==> (e.op == Slash ==> QuotientsAgree(IntValue(e.left).i, IntValue(e.right).i))
  {
    IntValueFits(e.left);
    IntValueFits(e.right);
    ApplyAgrees(e.op, IntValue(e.left).i, IntValue(e.right).i);
  }

  lemma OperandIsRead(n: nat, env: Env)
    requires n < 9999
    ensures var e := Reparse(Operand(n)); IntValue(e) == Int(n) && ValuesAgree(e, env)
  {
    DecimalTextIsRead(n);
  }

  lemma DifferenceIsRead(a: nat, b: nat, env: Env)
    requires a < 9999 && b < 9999
    ensures Possible(Bracket(Chain(Operand(a), Minus, Operand(b))))
    ensures var e := Reparse(Bracket(Chain(Operand(a), Minus, Operand(b))));
            && Clean(e) && e == Paren(Binary(Minus, Reparse(Operand(a)), Reparse(Operand(b))))
            && IntValue(e) == Int(a - b) && ValuesAgree(e, env)
  {
    OperandIsRead(a, env);
    OperandIsRead(b, env);
    var e := Binary(Minus, Reparse(Operand(a)), Reparse(Operand(b)));
    assert IntValue(e) == Int(a - b);
    OperatorAgrees(e, env);
  }

  lemma SmallQuotientFits(x: int, c: int)
    requires -9999 < x < 0 && 1 < c
    ensures -9999 < Truncated(x, c) <= 0
  {
    DivNonnegative(-x, c);
  }

  lemma QuotientDiffers(e: Tree, x: int, c: int, env: Env)
    requires e.Binary? && e.op == Slash && -9999 < x < 0 && 1 < c < 9999
    requires IntValue(e.left) == Int(x) && IntValue(e.right) == Int(c)
    requires ValuesAgree(e.left, env) && ValuesAgree(e.right, env)
    ensures IntValue(e).Int? && !ValuesAgree(e, env)
  {
    SmallQuotientFits(x, c);
    OperatorAgrees(e, env);
  }

  lemma SlashJoins(l: Tree, n: nat)
    requires l.Paren?
    ensures Join(l, Slash, Reparse(Operand(n))) == Binary(Slash, l, Reparse(Operand(n)))
  {}

  /** They differ on `(a-b)/c` whenever a is below b and c above 1, as on `(1-3)/2`: -1 against 0x7FFFFFFF. */
  lemma SignedDivisionDiffers(a: nat, b: nat, c: nat, env: Env)
    requires a < b < 9999 && 1 < c < 9999
    ensures var p := Chain(Bracket(Chain(Operand(a), Minus, Operand(b))), Slash, Operand(c));
            Possible(p) && Clean(Reparse(p)) && IntValue(Reparse(p)).Int? && !ValuesAgree(Reparse(p), env)
  {
    var difference := Bracket(Chain(Operand(a), Minus, Operand(b)));
    DifferenceIsRead(a, b, env);
    OperandIsRead(c, env);
    SlashJoins(Reparse(difference), c);
    QuotientDiffers(Reparse(Chain(difference, Slash, Operand(c))), a - b, c, env);
  }
}
