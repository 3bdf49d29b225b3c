/** The debugger's `expr` command: the token array, the loops that fill, mark and scan it, and the recursion over it. */
module Debugger {
  import opened Grammar
  import opened Lexer
  import opened Marking
  import opened Evaluator
  import opened Sequences

  /** `expr` either rejects the text or evaluates its tokens. */
  datatype Answer = Rejected | Evaluated(outcome: Outcome)

  ghost function ExprAnswer(s: string, env: Env): Answer {
    var (ts, ok) := Lex(s);
    if !ok then Rejected else Evaluated(Evaluate(Mark(LParen, ts), env))
  }

  class Session {
    var tokens: seq<Token>

    constructor ()
      ensures tokens == []
    {
      tokens := [];
    }

    /** The inner loop of the tokenizer: try all rules one by one. */
    method FindRule(rest: string) returns (i: nat)
      ensures i == FirstMatch(rest, 0)
    {
      i := 0;
      while i < NR_REGEX && MatchLength(RuleAt(i), rest) == 0
        invariant i <= NR_REGEX
        invariant forall j | 0 <= j < i :: MatchLength(RuleAt(j), rest) == 0
      {
        i := i + 1;
      }
    }

    /** The switch of the tokenizer: blanks are dropped, only numbers and names keep their text. */
    method Record(rule: Rule, lexeme: string)
      modifies this
      ensures tokens == old(tokens) + Emitted(rule, lexeme)
    {
      match rule {
        case Spaces =>
        case Emit(k) =>
          tokens := tokens + [Token(k, if IsAtom(k) then lexeme else "")];
      }
    }

    /** One round of the tokenizer: the position after the lexeme found, or none when no rule matches. */
    method NextToken(e: string, position: nat) returns (next: nat)
      requires position < |e|
      modifies this
      ensures next == position ==> tokens == old(tokens) && Lex(e[position..]) == ([], false)
      ensures next != position ==>
        && position < next <= |e|
        && tokens + Lex(e[next..]).0 == old(tokens) + Lex(e[position..]).0
        && Lex(e[next..]).1 == Lex(e[position..]).1
    {
      var rest := e[position..];
      var i := FindRule(rest);
      if i == NR_REGEX {
        return position;
      }
      next := position + MatchLength(RuleAt(i), rest);
      LexStep(tokens, e, position, i, next);
      Record(RuleAt(i), e[position..next]);
    }

    method MakeToken(e: string) returns (ok: bool)
      modifies this
      ensures (tokens, ok) == Lex(e)
    {
      var position := 0;
      tokens := [];
      ghost var all := Lex(e);
      assert e[0..] == e && tokens + all.0 == all.0;
      while position < |e|
        invariant position <= |e|
        invariant tokens + Lex(e[position..]).0 == all.0 && Lex(e[position..]).1 == all.1
      {
        var next := NextToken(e, position);
        if next == position {
          assert tokens + [] == tokens;
          return false;
        }
        position := next;
      }
      assert tokens + [] == tokens;
      return true;
    }

    method MarkLoads()
      modifies this
      ensures tokens == Mark(LParen, old(tokens))
    {
      ghost var given, prev := tokens, LParen;
      var i := 0;
      assert given[0..] == given;
      while i < |tokens|
        invariant i <= |tokens| == |given|
        invariant prev == if i == 0 then LParen else tokens[i - 1].kind
        invariant forall j | i <= j < |given| :: tokens[j] == given[j]
        invariant tokens[..i] + Mark(prev, given[i..]) == Mark(LParen, given)
      {
        MarkStep(tokens[..i], prev, given, i);
        ghost var before := tokens;
        if tokens[i].kind == Star && (i == 0 || BeforeLoad(tokens[i - 1].kind)) {
          tokens := tokens[i := tokens[i].(kind := Deref)];
        }
        UpdatedPrefix(before, i, tokens[i]);
        assert tokens == before[i := tokens[i]];
        prev := tokens[i].kind;
        i := i + 1;
      }
      assert tokens[..i] == tokens && given[i..] == [];
    }

    /** Counts parentheses; a nonzero total fails an assertion. */
    method CheckParentheses(start: int, end: int) returns (r: Check)
      requires 0 <= start <= end < |tokens|
      ensures r == CheckSegment(tokens[start..end + 1])
    {
      ghost var segment := tokens[start..end + 1];
      if tokens[start].kind != LParen || tokens[end].kind != RParen {
        return Keep;
      }
      var count := 0;
      var p := start;
      while p <= end
        invariant start <= p <= end + 1
        invariant count == Depth(segment, p - start)
      {
        assert segment[p - start] == tokens[p];
        if tokens[p].kind == LParen {
          count := count + 1;
        } else if tokens[p].kind == RParen {
          count := count - 1;
        }
        p := p + 1;
      }
      return if count == 0 then Strip else Unbalanced;
    }

    /** The scan at one token: parentheses change the depth, an operator outside of them may become the primary one. */
    static method ScanToken(kind: Kind, p: int, flag: int, priority: int, op: int)
      returns (flag': int, priority': int, op': int)
      requires -1 <= priority <= 4
      ensures flag' == if kind == LParen then flag + 1 else if kind == RParen then flag - 1 else flag
      ensures (priority', op') == if Takes(kind, flag, priority) then (Priority(kind), p) else (priority, op)
    {
      flag', priority', op' := flag, priority, op;
      if kind == LParen {
        flag' := flag + 1;
      } else if kind == RParen {
        flag' := flag - 1;
      } else if kind == And && flag == 0 {
        op', priority' := p, 4;
      } else if (kind == Eq || kind == NotEq) && priority < 4 && flag == 0 {
        op', priority' := p, 3;
      } else if (kind == Plus || kind == Minus) && priority < 3 && flag == 0 {
        op', priority' := p, 2;
      } else if (kind == Star || kind == Slash) && priority < 2 && flag == 0 {
        op', priority' := p, 1;
      } else if kind == Deref && priority < 1 && flag == 0 {
        op', priority' := p, 0;
      }
    }

    method FindPrimaryOperator(start: int, end: int, ghost segment: seq<Token>) returns (out: int)
      requires 0 <= start <= end < |tokens| && segment == tokens[start..end + 1]
      ensures out == start + SplitPosition(segment)
    {
      var flag, priority := 0, -1;
      out := start;
      var p := start;
      while p <= end
        invariant start <= p <= end + 1 && -1 <= priority <= 4
        invariant Scanned(segment, p - start, flag, priority, out - start)
      {
        ghost var n := p - start;
        ghost var flag0, priority0, at := flag, priority, out - start;
        assert segment[n] == tokens[p];
        flag, priority, out := ScanToken(tokens[p].kind, p, flag, priority, out);
        ScanNext(segment, n, segment[n].kind, flag0, priority0, at, flag, priority, out - start);
        p := p + 1;
      }
    }

    method Eval(start: int, end: int, env: Env, ghost segment: seq<Token>) returns (r: Outcome)
      requires 0 <= start <= end + 1 <= |tokens| && segment == tokens[start..end + 1]
      ensures r == Evaluate(segment, env)
      decreases end + 1 - start, 1
    {
      if start > end {
        return Abort;
      }
      if start == end {
        return AtomValue(tokens[start], env);
      }
      var check := CheckParentheses(start, end);
      match check {
        case Unbalanced =>
          return Abort;
        case Strip =>
          SliceInner(tokens, start, end + 1);
          r := Eval(start + 1, end - 1, env, segment[1..|segment| - 1]);
        case Keep =>
          r := EvalOperator(start, end, env, segment);
      }
    }

    /** The last branch of eval: split at the primary operator. */
    method EvalOperator(start: int, end: int, env: Env, ghost segment: seq<Token>) returns (r: Outcome)
      requires 0 <= start < end < |tokens| && segment == tokens[start..end + 1]
      ensures r == EvaluateSides(segment, env)
      decreases end + 1 - start, 0
    {
      var op := FindPrimaryOperator(start, end, segment);
      var kind := tokens[op].kind;
      ghost var p := SplitPosition(segment);
      ghost var left, right := CutAround(tokens, start, end + 1, segment, p);
      assert kind == segment[p].kind;
      if kind == Deref {
        var addr := Eval(op + 1, end, env, right);
        r := LoadFrom(addr, env);
        SplitAtLoad(segment, p, kind, right, addr, r, env);
      } else {
        var val1 := Eval(start, op - 1, env, left);
        var val2 := Eval(op + 1, end, env, right);
        r := Combine(kind, val1, val2);
        SplitAtOperator(segment, p, kind, left, right, val1, val2, r, env);
      }
    }

    method Expr(e: string, env: Env) returns (answer: Answer)
      modifies this
      ensures answer == ExprAnswer(e, env)
    {
      var ok := MakeToken(e);
      if !ok {
        return Rejected;
      }
      MarkLoads();
      assert tokens[0..|tokens|] == tokens;
      var outcome := Eval(0, |tokens| - 1, env, tokens);
      return Evaluated(outcome);
    }
  }

  /** One round of the marking loop. */
  lemma MarkStep(done: seq<Token>, prev: Kind, ts: seq<Token>, i: nat)
    requires i < |ts|
    ensures var m := MarkOne(prev, ts[i]);
            done + Mark(prev, ts[i..]) == done + [m] + Mark(m.kind, ts[i + 1..])
  {
    assert ts[i..][1..] == ts[i + 1..];
  }

  /** One round of the tokenizer's loop. */
  lemma LexStep(before: seq<Token>, s: string, position: nat, i: nat, next: nat)
    requires position < |s| && i == FirstMatch(s[position..], 0) < NR_REGEX
    requires next == position + MatchLength(RuleAt(i), s[position..])
    ensures position < next <= |s|
    ensures before + Emitted(RuleAt(i), s[position..next]) + Lex(s[next..]).0 == before + Lex(s[position..]).0
    ensures Lex(s[next..]).1 == Lex(s[position..]).1
  {
    var rest, tail := s[position..], s[next..];
    var lexeme := s[position..next];
    assert rest[next - position..] == tail && rest[..next - position] == lexeme;
    LexUnfold(rest, i, next - position, lexeme, tail);
    Associative(before, Emitted(RuleAt(i), lexeme), Lex(tail).0);
  }
}
