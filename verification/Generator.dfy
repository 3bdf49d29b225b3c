/**
 The random expression generator that feeds the debugger's tests. Its random choices are made explicit as a
 `Plan`; the generator appends the text of the plan to its buffer. A plan nests operators as they were
 chosen, which is not how their text is read back, so the tree of the text has to be found first.
 */
module Generator {
  import opened Arithmetic
  import opened Grammar
  import opened Lexer
  import opened Sequences

  datatype Plan = Operand(n: nat) | Bracket(inner: Plan) | Chain(left: Plan, op: Kind, right: Plan)

  /** Operands are below 9999 and the operators are the four arithmetic ones. */
  predicate Possible(p: Plan) {
    match p
    case Operand(n) => n < 9999
    case Bracket(b) => Possible(b)
    case Chain(l, op, r) => Possible(l) && op in {Plus, Minus, Star, Slash} && Possible(r)
  }

  /** printf's "%u". */
  function DecimalText(n: nat): (s: string)
    ensures s != "" && AllIn(s, Decimal)
  {
    var digit := '0' + (n % 10) as char;
    if n < 10 then [digit] else DecimalText(n / 10) + [digit]
  }

  function Text(p: Plan): string {
    match p
    case Operand(n) => DecimalText(n)
    case Bracket(b) => "(" + Text(b) + ")"
    case Chain(l, op, r) => Text(l) + Symbol(op) + Text(r)
  }

  class Buffer {
    var buf: string

    constructor ()
      ensures buf == ""
    {
      buf := "";
    }

    method GenRandExpr(flag: bool, plan: Plan)
      modifies this
      ensures buf == (if flag then "" else old(buf)) + Text(plan)
      decreases plan
    {
      if flag {
        buf := "";
      }
      match plan {
        case Operand(n) =>
          buf := buf + DecimalText(n);
        case Bracket(b) =>
          ghost var before := buf;
          buf := buf + "(";
          GenRandExpr(false, b);
          buf := buf + ")";
          Regroup(before, "", "(", Text(b), ")");
        case Chain(l, op, r) =>
          ghost var before := buf;
          GenRandExpr(false, l);
          buf := buf + Symbol(op);
          GenRandExpr(false, r);
          Regroup(before, "", Text(l), Symbol(op), Text(r));
      }
    }
  }

  // ---------- The tree of a generated text ----------

  /** The tree of the text of l, the operator and the text of r. */
  function Join(l: Tree, op: Kind, r: Tree): Tree {
    if Level(l) <= Priority(op) && Level(r) < Priority(op) then Binary(op, l, r)
    else if l.Binary? && Level(l) > Level(r) && Level(l) > Priority(op) then Binary(l.op, l.left, Join(l.right, op, r))
    else if r.Binary? then Binary(r.op, Join(l, op, r.left), r.right)
    else Binary(op, l, r)
  }

  lemma {:induction false} JoinIsWellFormed(l: Tree, op: Kind, r: Tree)
    requires WellFormed(l) && WellFormed(r) && LoadFree(l) && LoadFree(r) && IsBinary(op)
    ensures var e := Join(l, op, r);
            WellFormed(e) && LoadFree(e) && Level(e) == Max(Priority(op), Max(Level(l), Level(r)))
  {
    if Level(l) <= Priority(op) && Level(r) < Priority(op) {
    } else if l.Binary? && Level(l) > Level(r) && Level(l) > Priority(op) {
      JoinIsWellFormed(l.right, op, r);
    } else {
      JoinIsWellFormed(l, op, r.left);
    }
  }

  lemma {:induction false} JoinPrint(l: Tree, op: Kind, r: Tree)
    ensures Print(Join(l, op, r)) == Print(l) + [Token(op, "")] + Print(r)
  {
    if Level(l) <= Priority(op) && Level(r) < Priority(op) {
    } else if l.Binary? && Level(l) > Level(r) && Level(l) > Priority(op) {
      JoinPrint(l.right, op, r);
      Regroup(Print(l.left), [Token(l.op, "")], Print(l.right), [Token(op, "")], Print(r));
    } else if r.Binary? {
      JoinPrint(l, op, r.left);
      Regroup(Print(l), [Token(op, "")], Print(r.left), [Token(r.op, "")], Print(r.right));
    }
  }

  function Reparse(p: Plan): Tree {
    match p
    case Operand(n) => Leaf(Token(Num10, DecimalText(n)))
    case Bracket(b) => Paren(Reparse(b))
    case Chain(l, op, r) => Join(Reparse(l), op, Reparse(r))
  }

  lemma {:induction false} ReparseIsTree(p: Plan)
    requires Possible(p)
    ensures WellFormed(Reparse(p)) && LoadFree(Reparse(p))
  {
    match p
    case Operand(_) =>
    case Bracket(b) => ReparseIsTree(b);
    case Chain(l, op, r) =>
      ReparseIsTree(l);
      ReparseIsTree(r);
      JoinIsWellFormed(Reparse(l), op, Reparse(r));
  }

  // ---------- The text of a tree ----------

  /** Tokens spelled without blanks. */
  function Spell(ts: seq<Token>): string {
    if ts == [] then "" else Spelling(ts[0]) + Spell(ts[1..])
  }

  lemma {:induction false} SpellAppend(a: seq<Token>, b: seq<Token>)
    ensures Spell(a + b) == Spell(a) + Spell(b)
  {
    if a == [] {
      assert a + b == b;
    } else {
      assert (a + b)[1..] == a[1..] + b;
      SpellAppend(a[1..], b);
    }
  }

  lemma SpellOne(t: Token)
    ensures Spell([t]) == Spelling(t)
  {
    assert [t][1..] == [] && Spelling(t) + "" == Spelling(t);
  }

  lemma SpellAround(a: seq<Token>, t: Token, b: seq<Token>)
    ensures Spell(a + [t] + b) == Spell(a) + Spelling(t) + Spell(b)
  {
    SpellAppend(a + [t], b);
    SpellAppend(a, [t]);
    SpellOne(t);
  }

  lemma SpellBracket(ts: seq<Token>)
    ensures Spell([OPEN] + ts + [CLOSE]) == "(" + Spell(ts) + ")"
  {
    SpellAppend([OPEN] + ts, [CLOSE]);
    SpellAppend([OPEN], ts);
    SpellOne(OPEN);
    SpellOne(CLOSE);
  }

  lemma {:induction false} TextIsSpelled(p: Plan)
    requires Possible(p)
    ensures Text(p) == Spell(Print(Reparse(p)))
  {
    match p
    case Operand(n) => SpellOne(Token(Num10, DecimalText(n)));
    case Bracket(b) =>
      var ts := Print(Reparse(b));
      TextIsSpelled(b);
      SpellBracket(ts);
    case Chain(l, op, r) =>
      TextIsSpelled(l);
      TextIsSpelled(r);
      JoinPrint(Reparse(l), op, Reparse(r));
      SpellAround(Print(Reparse(l)), Token(op, ""), Print(Reparse(r)));
  }

  /** The gaps of a text without blanks. */
  function NoGaps(n: nat): (gaps: seq<nat>)
    ensures |gaps| == n && forall i | 0 <= i < n :: gaps[i] == 0
  {
    seq(n, _ => 0)
  }

  lemma {:induction false} SpellIsLayout(ts: seq<Token>)
    ensures Spell(ts) == Layout(ts, NoGaps(|ts|))
  {
    if ts != [] {
      SpellIsLayout(ts[1..]);
      assert NoGaps(|ts|)[1..] == NoGaps(|ts| - 1);
      assert Blanks(0) + Layout(ts[1..], NoGaps(|ts| - 1)) == Layout(ts[1..], NoGaps(|ts| - 1));
    }
  }
}
