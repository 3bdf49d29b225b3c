/** The pass that turns some `*` tokens into dereferences, left to right, looking at the token before. */
module Marking {
  import opened Grammar
  import opened Sequences

  /** Kinds after which a `*` is taken for a dereference; the start of the line counts as an opening parenthesis. */
  predicate BeforeLoad(k: Kind) {
    k in {LParen, Eq, NotEq, Plus, Minus, Slash, Star}
  }

  function MarkOne(prev: Kind, t: Token): Token {
    if t.kind == Star && BeforeLoad(prev) then Token(Deref, t.text) else t
  }

  /** The tokens after the pass, when the token before them has become of kind prev. */
  function Mark(prev: Kind, ts: seq<Token>): (ms: seq<Token>)
    ensures |ms| == |ts|
    decreases ts
  {
    if ts == [] then [] else
      var m := MarkOne(prev, ts[0]);
      [m] + Mark(m.kind, ts[1..])
  }

  /** The tokens before the pass: a dereference is typed as `*`. */
  function Typed(ts: seq<Token>): (us: seq<Token>)
    ensures |us| == |ts|
  {
    if ts == [] then [] else
      [if ts[0].kind == Deref then Token(Star, ts[0].text) else ts[0]] + Typed(ts[1..])
  }

  /** Every `*` and every dereference stands where the pass would put it. */
  predicate Placed(prev: Kind, ts: seq<Token>)
    decreases ts
  {
    ts == [] ||
    (&& (ts[0].kind == Star ==> !BeforeLoad(prev))
     && (ts[0].kind == Deref ==> BeforeLoad(prev))
     && Placed(ts[0].kind, ts[1..]))
  }

  /** The pass recovers what was meant exactly when everything is placed where it looks for it. */
  lemma {:induction false} MarkTyped(prev: Kind, ts: seq<Token>)
    ensures Mark(prev, Typed(ts)) == ts <==> Placed(prev, ts)
    decreases ts
  {
    if ts != [] {
      var us := Typed(ts);
      assert us[1..] == Typed(ts[1..]);
      var m := MarkOne(prev, us[0]);
      assert Mark(prev, us)[0] == m && Mark(prev, us)[1..] == Mark(m.kind, us[1..]);
      if m == ts[0] {
        MarkTyped(m.kind, ts[1..]);
        assert ts == [ts[0]] + ts[1..];
      }
    }
  }

  function LastKind(prev: Kind, ts: seq<Token>): Kind {
    if ts == [] then prev else ts[|ts| - 1].kind
  }

  lemma {:induction false} PlacedAppend(prev: Kind, a: seq<Token>, b: seq<Token>)
    ensures Placed(prev, a + b) <==> Placed(prev, a) && Placed(LastKind(prev, a), b)
    decreases a
  {
    if a == [] {
      assert a + b == b;
    } else {
      assert (a + b)[1..] == a[1..] + b;
      PlacedAppend(a[0].kind, a[1..], b);
    }
  }

  /** No dereference directly after `&&` or after another dereference, which the pass does not know. */
  predicate Markable(e: Tree) {
    match e
    case Leaf(_) => true
    case Paren(b) => Markable(b)
    case Load(a) => Markable(a) && !StartsWithLoad(a)
    case Binary(op, l, r) => Markable(l) && Markable(r) && !(op == And && StartsWithLoad(r))
  }

  lemma {:induction false} MarkableIsWellFormed(e: Tree)
    requires Expression(e) && Markable(e)
    ensures WellFormed(e)
  {
    match e
    case Leaf(_) =>
    case Paren(b) => MarkableIsWellFormed(b);
    case Load(a) => MarkableIsWellFormed(a);
    case Binary(_, l, r) =>
      MarkableIsWellFormed(l);
      MarkableIsWellFormed(r);
  }

  lemma {:induction false} PrintEndsOperand(e: Tree)
    requires Expression(e)
    ensures var ts := Print(e); |ts| >= 1 && EndsOperand(ts[|ts| - 1].kind)
  {
    match e
    case Leaf(_) =>
    case Paren(_) =>
    case Load(a) => PrintEndsOperand(a);
    case Binary(_, _, r) => PrintEndsOperand(r);
  }

  lemma PlacedOne(prev: Kind, t: Token)
    ensures Placed(prev, [t]) <==> (t.kind == Star ==> !BeforeLoad(prev)) && (t.kind == Deref ==> BeforeLoad(prev))
  {
    assert [t][1..] == [];
  }

  lemma PlacedAround(prev: Kind, a: seq<Token>, t: Token, b: seq<Token>)
    requires a != []
    ensures var k := a[|a| - 1].kind;
            Placed(prev, a + [t] + b) <==>
            Placed(prev, a) && (t.kind == Star ==> !BeforeLoad(k)) && (t.kind == Deref ==> BeforeLoad(k)) &&
            Placed(t.kind, b)
  {
    PlacedOne(LastKind(prev, a), t);
    PlacedAppend(prev, a, [t]);
    PlacedAppend(prev, a + [t], b);
  }

  lemma PlacedBracket(prev: Kind, ts: seq<Token>)
    ensures Placed(prev, [OPEN] + ts + [CLOSE]) <==> Placed(LParen, ts)
  {
    PlacedOne(prev, OPEN);
    PlacedOne(LastKind(LParen, ts), CLOSE);
    PlacedAppend(prev, [OPEN], ts);
    PlacedAppend(prev, [OPEN] + ts, [CLOSE]);
  }

  /** The tree's print is placed right when its tokens are. */
  ghost predicate PlacedRight(prev: Kind, e: Tree) {
    Placed(prev, Print(e)) <==> Markable(e) && (StartsWithLoad(e) ==> BeforeLoad(prev))
  }

  lemma BinaryPlaced(prev: Kind, op: Kind, l: Tree, r: Tree)
    requires Expression(Binary(op, l, r)) && PlacedRight(prev, l) && PlacedRight(op, r)
    ensures PlacedRight(prev, Binary(op, l, r))
  {
    PrintEndsOperand(l);
    OperatorPlaced(prev, op, Print(l), Print(r));
  }

  /** Behind an operand an operator is in its place. */
  lemma OperatorPlaced(prev: Kind, op: Kind, a: seq<Token>, b: seq<Token>)
    requires IsBinary(op) && a != [] && EndsOperand(a[|a| - 1].kind)
    ensures Placed(prev, a + [Token(op, "")] + b) <==> Placed(prev, a) && Placed(op, b)
  {
    PlacedAround(prev, a, Token(op, ""), b);
  }

  lemma {:induction false} PrintPlaced(prev: Kind, e: Tree)
    requires Expression(e)
    ensures PlacedRight(prev, e)
    decreases e
  {
    match e
    case Leaf(t) => PlacedOne(prev, t);
    case Paren(b) =>
      PrintPlaced(LParen, b);
      PlacedBracket(prev, Print(b));
    case Load(a) =>
      PrintPlaced(Deref, a);
      PlacedOne(prev, DEREF);
      PlacedAppend(prev, [DEREF], Print(a));
    case Binary(op, l, r) =>
      PrintPlaced(prev, l);
      PrintPlaced(op, r);
      BinaryPlaced(prev, op, l, r);
  }

  /**
   The pass finds the dereferences of an expression exactly when none of them directly follows `&&` or another
   dereference.
   */
  lemma MarkPrint(e: Tree)
    requires Expression(e)
    ensures Mark(LParen, Typed(Print(e))) == Print(e) <==> Markable(e)
  {
    MarkTyped(LParen, Print(e));
    PrintPlaced(LParen, e);
  }

  // ---------- The tokens after the pass, from the tree ----------

  /** The print of a tree as the pass leaves it behind a token of kind prev: some dereferences stay `*`. */
  function Marked(prev: Kind, e: Tree): (ts: seq<Token>)
    ensures |ts| >= 1
    decreases e
  {
    match e
    case Leaf(t) => [t]
    case Paren(b) => [OPEN] + Marked(LParen, b) + [CLOSE]
    case Load(a) => if BeforeLoad(prev) then [DEREF] + Marked(Deref, a) else [STAR] + Marked(Star, a)
    case Binary(op, l, r) => Marked(prev, l) + [Token(op, "")] + Marked(op, r)
  }

  lemma {:induction false} MarkAppend(prev: Kind, a: seq<Token>, b: seq<Token>)
    ensures Mark(prev, a + b) == Mark(prev, a) + Mark(LastKind(prev, Mark(prev, a)), b)
    decreases a
  {
    if a == [] {
      assert a + b == b;
    } else {
      var m, rest := MarkOne(prev, a[0]), a[1..];
      var marked := Mark(m.kind, rest);
      assert (a + b)[1..] == rest + b;
      MarkAppend(m.kind, rest, b);
      assert Mark(prev, a) == [m] + marked;
      LastKindOfRest(prev, m, marked);
      Associative([m], marked, Mark(LastKind(m.kind, marked), b));
    }
  }

  lemma {:induction false} TypedAppend(a: seq<Token>, b: seq<Token>)
    ensures Typed(a + b) == Typed(a) + Typed(b)
  {
    if a == [] {
      assert a + b == b;
    } else {
      assert (a + b)[1..] == a[1..] + b;
      TypedAppend(a[1..], b);
    }
  }

  lemma MarkTypedOne(prev: Kind, t: Token)
    ensures Mark(prev, Typed([t])) == [MarkOne(prev, if t.kind == Deref then Token(Star, t.text) else t)]
  {
    assert [t][1..] == [];
    assert Typed([t])[1..] == [];
  }

  lemma LastKindOfRest(prev: Kind, t: Token, ts: seq<Token>)
    ensures LastKind(prev, [t] + ts) == LastKind(t.kind, ts)
  {}

  lemma LastKindOfAppend(prev: Kind, a: seq<Token>, b: seq<Token>)
    requires b != []
    ensures LastKind(prev, a + b) == b[|b| - 1].kind
  {}

  /** The tokens of a dereference end as those of its address, and the tokens of an operator as its right side. */
  lemma MarkedLoadEnds(prev: Kind, a: Tree)
    ensures var k := if BeforeLoad(prev) then Deref else Star;
            LastKind(prev, Marked(prev, Load(a))) == LastKind(k, Marked(k, a))
  {
    var t := if BeforeLoad(prev) then DEREF else STAR;
    var ms := Marked(t.kind, a);
    assert Marked(prev, Load(a)) == [t] + ms;
    LastKindOfRest(prev, t, ms);
  }

  lemma MarkedBinaryEnds(prev: Kind, op: Kind, l: Tree, r: Tree)
    ensures LastKind(prev, Marked(prev, Binary(op, l, r))) == LastKind(op, Marked(op, r))
  {
    var before, ms := Marked(prev, l) + [Token(op, "")], Marked(op, r);
    assert Marked(prev, Binary(op, l, r)) == before + ms;
    LastKindOfAppend(prev, before, ms);
  }

  lemma {:induction false} MarkedEndsOperand(prev: Kind, e: Tree)
    requires Expression(e)
    ensures EndsOperand(LastKind(prev, Marked(prev, e)))
    decreases e
  {
    match e
    case Leaf(_) =>
    case Paren(_) =>
    case Load(a) =>
      MarkedEndsOperand(if BeforeLoad(prev) then Deref else Star, a);
      MarkedLoadEnds(prev, a);
    case Binary(op, l, r) =>
      MarkedEndsOperand(op, r);
      MarkedBinaryEnds(prev, op, l, r);
  }

  lemma MarkTypedAround(prev: Kind, a: seq<Token>, t: Token, b: seq<Token>)
    ensures var (ma, u) := (Mark(prev, Typed(a)), if t.kind == Deref then Token(Star, t.text) else t);
            var m := MarkOne(LastKind(prev, ma), u);
            Mark(prev, Typed(a + [t] + b)) == ma + [m] + Mark(m.kind, Typed(b))
  {
    var ma := Mark(prev, Typed(a));
    TypedAppend(a + [t], b);
    TypedAppend(a, [t]);
    MarkTypedOne(LastKind(prev, ma), t);
    MarkAppend(prev, Typed(a), Typed([t]));
    MarkAppend(prev, Typed(a) + Typed([t]), Typed(b));
  }

  lemma MarkTypedBracket(prev: Kind, b: seq<Token>)
    ensures Mark(prev, Typed([OPEN] + b + [CLOSE])) == [OPEN] + Mark(LParen, Typed(b)) + [CLOSE]
  {
    MarkTypedAround(prev, [OPEN] + b, CLOSE, []);
    MarkTypedAround(prev, [], OPEN, b);
    assert [OPEN] + b + [CLOSE] + [] == [OPEN] + b + [CLOSE] && [] + [OPEN] + b == [OPEN] + b;
  }

  lemma MarkTypedLoad(prev: Kind, b: seq<Token>)
    ensures Mark(prev, Typed([DEREF] + b)) ==
            if BeforeLoad(prev) then [DEREF] + Mark(Deref, Typed(b)) else [STAR] + Mark(Star, Typed(b))
  {
    MarkTypedAround(prev, [], DEREF, b);
    assert [] + [DEREF] + b == [DEREF] + b;
  }

  lemma MarkTypedOperator(prev: Kind, a: seq<Token>, op: Kind, b: seq<Token>)
    requires IsBinary(op) && EndsOperand(LastKind(prev, Mark(prev, Typed(a))))
    ensures Mark(prev, Typed(a + [Token(op, "")] + b)) ==
            Mark(prev, Typed(a)) + [Token(op, "")] + Mark(op, Typed(b))
  {
    MarkTypedAround(prev, a, Token(op, ""), b);
  }

  /** What the pass makes of a printed expression. */
  lemma {:induction false} MarkedPrint(prev: Kind, e: Tree)
    requires Expression(e)
    ensures Mark(prev, Typed(Print(e))) == Marked(prev, e)
    decreases e
  {
    match e
    case Leaf(t) => MarkTypedOne(prev, t);
    case Paren(b) =>
      MarkedPrint(LParen, b);
      MarkTypedBracket(prev, Print(b));
    case Load(a) =>
      MarkedPrint(if BeforeLoad(prev) then Deref else Star, a);
      MarkTypedLoad(prev, Print(a));
    case Binary(op, l, r) =>
      MarkedPrint(prev, l);
      MarkedPrint(op, r);
      MarkedEndsOperand(prev, l);
      MarkTypedOperator(prev, Print(l), op, Print(r));
  }
}
