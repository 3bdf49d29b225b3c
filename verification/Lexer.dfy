/**
 The tokenizer of the debugger: thirteen rules tried in table order at the current position, the first rule
 that matches taking its longest match.
 */
module Lexer {
  import opened Grammar

  datatype Rule = Spaces | Emit(kind: Kind)

  const NR_REGEX: nat := 13

  /** The rule table. */
  function RuleAt(i: nat): Rule
    requires i < NR_REGEX
  {
    match i
    case 0 => Spaces
    case 1 => Emit(Plus)
    case 2 => Emit(Minus)
    case 3 => Emit(Star)
    case 4 => Emit(Slash)
    case 5 => Emit(Eq)
    case 6 => Emit(LParen)
    case 7 => Emit(RParen)
    case 8 => Emit(Hex)
    case 9 => Emit(Num10)
    case 10 => Emit(Reg)
    case 11 => Emit(NotEq)
    case _ => Emit(And)
  }

  datatype Class = Blank | Decimal | HexDigit | Letter

  predicate InClass(c: char, cls: Class) {
    match cls
    case Blank => c == ' '
    case Decimal => '0' <= c <= '9'
    case HexDigit => '0' <= c <= '9' || 'A' <= c <= 'F'
    case Letter => 'a' <= c <= 'z' || 'A' <= c <= 'Z'
  }

  ghost predicate AllIn(s: string, cls: Class) {
    forall i | 0 <= i < |s| :: InClass(s[i], cls)
  }

  /** The spelling of an operator or parenthesis; empty for the other kinds. */
  function Symbol(k: Kind): string {
    match k
    case Plus => "+"
    case Minus => "-"
    case Star => "*"
    case Slash => "/"
    case Eq => "=="
    case NotEq => "!="
    case And => "&&"
    case LParen => "("
    case RParen => ")"
    case _ => ""
  }

  /** The language of a rule's regular expression. */
  ghost predicate Matches(rule: Rule, s: string) {
    match rule
    case Spaces => |s| >= 1 && AllIn(s, Blank)
    case Emit(Hex) => |s| >= 3 && "0x" <= s && AllIn(s[2..], HexDigit)
    case Emit(Num10) => |s| >= 1 && AllIn(s, Decimal)
    case Emit(Reg) => 3 <= |s| <= 4 && s[0] == '$' && AllIn(s[1..], Letter)
    case Emit(k) => s != "" && s == Symbol(k)
  }

  /** How many leading characters of s are in the class. */
  function Run(s: string, cls: Class): (n: nat)
    ensures n <= |s| && AllIn(s[..n], cls)
    ensures n < |s| ==> !InClass(s[n], cls)
  {
    if s != "" && InClass(s[0], cls) then
      var n := Run(s[1..], cls);
      assert forall i | 1 <= i <= n :: s[i] == s[1..][..n][i - 1];
      1 + n
    else 0
  }

  /** The length of the longest match of a rule at the start of s; 0 when it does not match. */
  function MatchLength(rule: Rule, s: string): (n: nat)
    ensures n <= |s|
  {
    match rule
    case Spaces => Run(s, Blank)
    case Emit(Hex) => if "0x" <= s && Run(s[2..], HexDigit) > 0 then 2 + Run(s[2..], HexDigit) else 0
    case Emit(Num10) => Run(s, Decimal)
    case Emit(Reg) =>
      if s == "" || s[0] != '$' || Run(s[1..], Letter) < 2 then 0
      else 1 + if Run(s[1..], Letter) < 3 then 2 else 3
    case Emit(k) => if Symbol(k) <= s then |Symbol(k)| else 0
  }

  /** A class run is the longest prefix in the class. */
  lemma RunIsLongest(s: string, cls: Class, k: nat)
    requires k <= |s|
    ensures AllIn(s[..k], cls) <==> k <= Run(s, cls)
  {
    var n := Run(s, cls);
    if k <= n {
      assert forall i | 0 <= i < k :: s[..k][i] == s[..n][i];
    } else {
      assert s[..k][n] == s[n];
    }
  }

  lemma HexIsLongest(s: string, k: nat)
    requires k <= |s|
    ensures var n := MatchLength(Emit(Hex), s);
            (n > 0 ==> Matches(Emit(Hex), s[..n])) && (Matches(Emit(Hex), s[..k]) ==> k <= n)
  {
    if "0x" <= s {
      var digits, n := s[2..], MatchLength(Emit(Hex), s);
      RunIsLongest(digits, HexDigit, if k < 2 then 0 else k - 2);
      assert k >= 2 ==> s[..k][2..] == digits[..k - 2];
      assert n >= 2 ==> s[..n][2..] == digits[..n - 2];
    } else if k >= 2 {
      assert s[..k][0] == s[0] && s[..k][1] == s[1];
    }
  }

  lemma RegIsLongest(s: string, k: nat)
    requires k <= |s|
    ensures var n := MatchLength(Emit(Reg), s);
            (n > 0 ==> Matches(Emit(Reg), s[..n])) && (Matches(Emit(Reg), s[..k]) ==> k <= n)
  {
    if |s| >= 1 {
      var name, n := s[1..], MatchLength(Emit(Reg), s);
      RunIsLongest(name, Letter, if k < 1 then 0 else k - 1);
      RunIsLongest(name, Letter, if n < 1 then 0 else n - 1);
      assert k >= 1 ==> s[..k][1..] == name[..k - 1];
      assert n >= 1 ==> s[..n][1..] == name[..n - 1];
    }
  }

  /** MatchLength is the longest nonempty match of the rule's regular expression. */
  lemma MatchIsLongest(rule: Rule, s: string, k: nat)
    requires k <= |s|
    ensures var n := MatchLength(rule, s);
            (n > 0 ==> Matches(rule, s[..n])) && (Matches(rule, s[..k]) ==> k <= n)
  {
    match rule
    case Spaces => RunIsLongest(s, Blank, k);
    case Emit(Hex) => HexIsLongest(s, k);
    case Emit(Num10) => RunIsLongest(s, Decimal, k);
    case Emit(Reg) => RegIsLongest(s, k);
    case Emit(op) =>
  }

  /** The first rule from index i on that matches at the start of s, or NR_REGEX. */
  function FirstMatch(s: string, i: nat): (r: nat)
    requires i <= NR_REGEX
    ensures i <= r <= NR_REGEX
    ensures r < NR_REGEX ==> MatchLength(RuleAt(r), s) > 0
    ensures forall j | i <= j < r :: MatchLength(RuleAt(j), s) == 0
    decreases NR_REGEX - i, s
  {
    if i == NR_REGEX || MatchLength(RuleAt(i), s) > 0 then i else FirstMatch(s, i + 1)
  }

  function Emitted(rule: Rule, lexeme: string): seq<Token> {
    match rule
    case Spaces => []
    case Emit(k) => [Token(k, if IsAtom(k) then lexeme else "")]
  }

  /** All tokens before the first position where no rule matches, and whether there is no such position. */
  function Lex(s: string): (seq<Token>, bool) {
    if s == "" then ([], true)
    else
      var r := FirstMatch(s, 0);
      if r == NR_REGEX then ([], false)
      else
        var n := MatchLength(RuleAt(r), s);
        var rest := Lex(s[n..]);
        (Emitted(RuleAt(r), s[..n]) + rest.0, rest.1)
  }

  lemma LexUnfold(s: string, r: nat, n: nat, lexeme: string, tail: string)
    requires s != "" && r == FirstMatch(s, 0) < NR_REGEX && n == MatchLength(RuleAt(r), s)
    requires lexeme == s[..n] && tail == s[n..]
    ensures Lex(s) == (Emitted(RuleAt(r), lexeme) + Lex(tail).0, Lex(tail).1)
  {}

  // ---------- Spelling tokens out ----------

  /** Tokens that some text spells: every lexeme is in the language of its rule. */
  ghost predicate Spellable(t: Token) {
    t.kind != Deref && if IsAtom(t.kind) then Matches(Emit(t.kind), t.text) else t.text == ""
  }

  function Spelling(t: Token): string {
    if IsAtom(t.kind) then t.text else Symbol(t.kind)
  }

  function Blanks(n: nat): (s: string)
    ensures |s| == n && AllIn(s, Blank)
  {
    seq(n, _ => ' ')
  }

  /** Tokens spelled one after the other, gaps[i] blanks following the i-th. */
  function Layout(ts: seq<Token>, gaps: seq<nat>): string
    requires |gaps| == |ts|
  {
    if ts == [] then "" else Spelling(ts[0]) + (Blanks(gaps[0]) + Layout(ts[1..], gaps[1..]))
  }

  /** Tokens that a layout spells unambiguously: two atoms in a row need a blank between them, nothing else does. */
  ghost predicate WellLaid(ts: seq<Token>, gaps: seq<nat>)
    requires |gaps| == |ts|
  {
    ts != [] ==>
      && Spellable(ts[0])
      && (|ts| > 1 && IsAtom(ts[0].kind) && IsAtom(ts[1].kind) ==> gaps[0] > 0)
      && WellLaid(ts[1..], gaps[1..])
  }

  /** What may follow a number or a name without prolonging it. */
  predicate Boundary(rest: string) {
    rest == "" || rest[0] in " +-*/()=!&"
  }

  lemma {:induction false} RunOfAppend(a: string, b: string, cls: Class)
    requires AllIn(a, cls) && (b == "" || !InClass(b[0], cls))
    ensures Run(a + b, cls) == |a|
  {
    if a == "" {
      assert a + b == b;
    } else {
      RunOfAppend(a[1..], b, cls);
      assert (a + b)[1..] == a[1..] + b;
    }
  }

  lemma BlanksVanish(n: nat, rest: string)
    requires rest == "" || rest[0] != ' '
    ensures Lex(Blanks(n) + rest) == Lex(rest)
  {
    var s := Blanks(n) + rest;
    if n == 0 {
      assert s == rest;
    } else {
      RunOfAppend(Blanks(n), rest, Blank);
      assert MatchLength(RuleAt(0), s) == n;
      assert FirstMatch(s, 0) == 0;
      assert s[n..] == rest && [] + Lex(rest).0 == Lex(rest).0;
    }
  }

  /** Where the rule of a token kind stands in the table. */
  function IndexOf(k: Kind): (i: nat)
    requires k != Deref
    ensures i < NR_REGEX && RuleAt(i) == Emit(k)
  {
    match k
    case Plus => 1
    case Minus => 2
    case Star => 3
    case Slash => 4
    case Eq => 5
    case LParen => 6
    case RParen => 7
    case Hex => 8
    case Num10 => 9
    case Reg => 10
    case NotEq => 11
    case And => 12
  }

  /** The characters a match of a rule can begin with. */
  predicate CanStart(rule: Rule, c: char) {
    match rule
    case Spaces => c == ' '
    case Emit(Hex) => c == '0'
    case Emit(Num10) => InClass(c, Decimal)
    case Emit(Reg) => c == '$'
    case Emit(k) => Symbol(k) != "" && c == Symbol(k)[0]
  }

  lemma MatchStarts(rule: Rule, s: string)
    ensures MatchLength(rule, s) > 0 ==> s != "" && CanStart(rule, s[0])
  {
    MatchIsLongest(rule, s, 0);
  }

  /** No rule but its own can start like a token, except that decimal and hexadecimal numbers both start with 0. */
  lemma OnlyRule(k: Kind, c: char, i: nat)
    requires k != Deref && i < NR_REGEX && CanStart(Emit(k), c) && CanStart(RuleAt(i), c)
    ensures i == IndexOf(k) || (k == Num10 && i == IndexOf(Hex)) || (k == Hex && i == IndexOf(Num10))
  {}

  lemma FirstMatchIs(k: Kind, s: string)
    requires k != Deref && MatchLength(Emit(k), s) > 0 && (k == Num10 ==> MatchLength(Emit(Hex), s) == 0)
    ensures FirstMatch(s, 0) == IndexOf(k)
  {
    MatchStarts(Emit(k), s);
    var r := FirstMatch(s, 0);
    assert MatchLength(RuleAt(IndexOf(k)), s) > 0;
    MatchStarts(RuleAt(r), s);
    OnlyRule(k, s[0], r);
  }

  lemma AtomMatch(t: Token, rest: string)
    requires IsAtom(t.kind) && Spellable(t) && Boundary(rest)
    ensures var s := t.text + rest;
            MatchLength(Emit(t.kind), s) == |t.text| && (t.kind == Num10 ==> MatchLength(Emit(Hex), s) == 0)
  {
    var s := t.text + rest;
    match t.kind
    case Hex =>
      assert s[0] == '0' && s[1] == 'x' && s[2..] == t.text[2..] + rest;
      RunOfAppend(t.text[2..], rest, HexDigit);
    case Num10 =>
      RunOfAppend(t.text, rest, Decimal);
      assert |s| > 1 ==> s[1] == if |t.text| > 1 then t.text[1] else rest[0];
    case Reg =>
      assert s[0] == '$' && s[1..] == t.text[1..] + rest;
      RunOfAppend(t.text[1..], rest, Letter);
  }

  lemma TokenLexes(t: Token, rest: string)
    requires Spellable(t) && (IsAtom(t.kind) ==> Boundary(rest))
    ensures Lex(Spelling(t) + rest) == ([t] + Lex(rest).0, Lex(rest).1)
  {
    var s := Spelling(t) + rest;
    if IsAtom(t.kind) {
      AtomMatch(t, rest);
    }
    FirstMatchIs(t.kind, s);
    var n := |Spelling(t)|;
    assert s[..n] == Spelling(t) && s[n..] == rest;
  }

  lemma SpellingStarts(t: Token)
    requires Spellable(t)
    ensures var s := Spelling(t); s != "" && s[0] != ' ' && (!IsAtom(t.kind) ==> Boundary(s))
  {}

  lemma {:induction false} LayoutStarts(ts: seq<Token>, gaps: seq<nat>)
    requires |gaps| == |ts| && ts != [] && Spellable(ts[0])
    ensures var s := Layout(ts, gaps); s != "" && s[0] != ' ' && (!IsAtom(ts[0].kind) ==> Boundary(s))
  {
    SpellingStarts(ts[0]);
    assert Layout(ts, gaps)[0] == Spelling(ts[0])[0];
  }

  /** A token, the gap after it and the layout of the tokens that follow. */
  lemma GapLexes(t: Token, gap: nat, rest: string)
    requires Spellable(t)
    requires rest == "" || rest[0] != ' '
    requires IsAtom(t.kind) && gap == 0 ==> Boundary(rest)
    ensures Lex(Spelling(t) + (Blanks(gap) + rest)) == ([t] + Lex(rest).0, Lex(rest).1)
  {
    var after := Blanks(gap) + rest;
    BlanksVanish(gap, rest);
    if gap == 0 {
      assert after == rest;
    } else {
      assert after[0] == Blanks(gap)[0] == ' ';
    }
    TokenLexes(t, after);
  }

  /** Whatever the layout, the tokenizer recovers the tokens of a text: it is a left inverse of spelling. */
  lemma {:induction false} LexLayout(ts: seq<Token>, gaps: seq<nat>)
    requires |gaps| == |ts| && WellLaid(ts, gaps)
    ensures Lex(Layout(ts, gaps)) == (ts, true)
  {
    if ts == [] {
    } else {
      var t, rest := ts[0], Layout(ts[1..], gaps[1..]);
      LexLayout(ts[1..], gaps[1..]);
      if |ts| > 1 {
        LayoutStarts(ts[1..], gaps[1..]);
      }
      calc {
        Lex(Layout(ts, gaps));
        Lex(Spelling(t) + (Blanks(gaps[0]) + rest));
        { GapLexes(t, gaps[0], rest); }
        ([t] + Lex(rest).0, Lex(rest).1);
        ([t] + ts[1..], true);
        { assert [t] + ts[1..] == ts; }
        (ts, true);
      }
    }
  }
}
