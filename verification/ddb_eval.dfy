/** The evaluator as mutually recursive procedures that consume tokens and put one back.

    TokensOf, Reads and LoopReads speak of every sequence that equals theirs, not of the sequence
    itself: that hides the recursive functions applied to it, which are then unfolded only in the
    lemmas that name them. */
module DdbEval {
  import opened Basics
  import opened DdbExpr
  import opened DdbLex
  import opened DdbReader

  /** A procedure's answer: a value, nothing here, or the line was abandoned. */
  datatype Answer = Got(value: Val) | Nothing | Failed

  /** A token put before others; the end of the line is not one. */
  function With(t: Tok, ts: seq<Tok>): (r: seq<Tok>) { if t.EOL? then ts else [t] + ts }

  /** ts are the tokens of the characters cs. */
  ghost predicate TokensOf(ts: seq<Tok>, cs: string, radix: Val) {
    forall c: string :: c == cs ==> ts == Toks(c, radix)
  }

  class Evaluator {
    const lexer: Lexer
    const env: Env
    var lookToken: Option<Tok>
    ghost var tokens: seq<Tok>

    constructor (lexer: Lexer, env: Env)
      requires lexer.Valid()
      ensures Ready() && this.lexer == lexer && this.env == env && tokens == Toks(lexer.Chars(), lexer.radix)
    {
      this.lexer, this.env, lookToken := lexer, env, None;
      tokens := Toks(lexer.Chars(), lexer.radix);
    }

    /** `tokens` are those still to be read: the one put back, then those of the line. */
    ghost predicate Ready()
      reads this, lexer
    {
      && lexer.Valid()
      && match lookToken
         case None => TokensOf(tokens, lexer.Chars(), lexer.radix)
         case Some(t) =>
           && !t.Bad? && (t.EOL? ==> tokens == [] && lexer.Chars() == "")
           && (!t.EOL? ==> tokens != [] && tokens[0] == Whole(t, lexer.tokNumber, lexer.tokString)
                           && TokensOf(tokens[1..], lexer.Chars(), lexer.radix))
    }

    /** t has been read, and may be put back: the place for it is free. */
    ghost predicate Holding(t: Tok)
      reads this, lexer
    {
      Ready() && lookToken.None? && !t.Bad? && (t.EOL? ==> tokens == [] && lexer.Chars() == "")
    }

    ghost function Held(t: Tok): (r: Tok)
      reads lexer
    {
      Whole(t, lexer.tokNumber, lexer.tokString)
    }

    method ReadToken() returns (t: Tok)
      requires Ready()
      modifies this, lexer
      ensures t.Bad? ==> Head(old(tokens)).Bad?
      ensures !t.Bad? ==> Holding(t) && Head(old(tokens)) == Held(t) && tokens == Tail(old(tokens))
      ensures !t.Bad? && t.EOL? ==> old(tokens) == []
    {
      if lookToken.Some? {
        t := lookToken.value;
        lookToken := None;
        if t.EOL? { NoTokens(lexer.radix); }
        tokens := Tail(tokens);
      } else {
        TokensStart(tokens, lexer.Chars(), lexer.radix);
        t := lexer.NextToken();
        if t.EOL? { NoTokens(lexer.radix); }
        tokens := Tail(tokens);
      }
    }

    /** The one place for a token put back must be free. */
    method UnreadToken(t: Tok)
      requires Holding(t)
      modifies `lookToken, `tokens
      ensures Ready() && tokens == With(Held(t), old(tokens))
    {
      lookToken := Some(t);
      tokens := With(Held(t), tokens);
      assert !t.EOL? ==> tokens[1..] == old(tokens);
    }

    /** What a procedure answers is what r says of the tokens it found. */
    ghost predicate Answers(a: Answer, r: Result, before: seq<Tok>)
      reads this, lexer
    {
      match a
      case Got(v) => Ready() && r == Yes(v, tokens)
      case Nothing => Ready() && r == No && tokens == before
      case Failed => r == Error
    }

    /** db_term */
    method DoTerm(ghost r: Result) returns (a: Answer)
      requires Ready() && Reads(7, r, tokens, env)
      modifies this, lexer
      ensures Answers(a, r, old(tokens))
      decreases |tokens|, 0
    {
      ghost var inner := TermReads(r, tokens, env);
      var t := ReadToken();
      if t.Bad? { return Failed; }
      if t.Dollar? {
        a := GetVariable();
      } else if t.LParen? {
        a := Parenthesised(inner);
      } else if Atomic(t) {
        a := Atom(t);
      } else {
        UnreadToken(t);
        WithParts(old(tokens), Held(t));
        a := Nothing;
      }
    }

    method Atom(t: Tok) returns (a: Answer)
      requires Holding(t) && Atomic(t)
      ensures var v := AtomOf(Held(t), env); a == if v.None? then Failed else Got(v.value)
    {
      match t
      case Ident(_) =>
        a := if lexer.tokString in env.symbols then Got(env.symbols[lexer.tokString]) else Failed;
      case Number(_) => a := Got(lexer.tokNumber);
      case Dot => a := Got(env.dot);
      case DotDot => a := Got(env.prev);
      case Plus => a := Got(env.next);
      case Ditto => a := Got(env.last);
    }

    /** The name after a dollar sign. */
    method GetVariable() returns (a: Answer)
      requires Ready()
      modifies this, lexer
      ensures Answers(a, From(Lookup(env.variables, Head(old(tokens))), Tail(old(tokens))), [])
    {
      var t := ReadToken();
      if t.Bad? { return Failed; }
      if t.Ident? && lexer.tokString in env.variables {
        a := Got(env.variables[lexer.tokString]);
      } else {
        a := Failed;
      }
    }

    /** What follows an opening parenthesis. */
    method Parenthesised(ghost inner: Result) returns (a: Answer)
      requires Ready() && Reads(0, inner, tokens, env)
      modifies this, lexer
      ensures Answers(a, Closed(inner), [])
      decreases |tokens|, 11
    {
      a := DoLevel(0, inner);
      if !a.Got? { return Failed; }
      var t := ReadToken();
      if t.Bad? || !t.RParen? { return Failed; }
    }

    /** db_unary */
    method DoUnary(ghost r: Result) returns (a: Answer)
      requires Ready() && Reads(6, r, tokens, env)
      modifies this, lexer
      ensures Answers(a, r, old(tokens))
      decreases |tokens|, 1
    {
      ghost var inner := UnaryReads(r, tokens, env);
      var t := ReadToken();
      if t.Bad? { return Failed; }
      if IsUnary(t) {
        a := Prefixed(t, inner, r);
      } else {
        UnreadToken(t);
        WithParts(old(tokens), Held(t));
        a := DoTerm(r);
      }
    }

    /** What follows a prefix operator. */
    method Prefixed(t: Tok, ghost inner: Result, ghost r: Result) returns (a: Answer)
      requires Ready() && Reads(6, inner, tokens, env)
      requires r == if inner.Yes? then From(ApplyUnary(t, inner.value, env), inner.rest) else Error
      modifies this, lexer
      ensures !a.Nothing? && Answers(a, r, [])
      decreases |tokens|, 2
    {
      a := DoUnary(inner);
      if !a.Got? { return Failed; }
      var v := ApplyUnary(t, a.value, env);
      a := if v.None? then Failed else Got(v.value);
    }

    /** The six procedures from db_logical_or_expr (k = 0) to db_mult_expr (k = 5). */
    method DoLevel(k: nat, ghost r: Result) returns (a: Answer)
      requires Ready() && k <= 5 && Reads(k, r, tokens, env)
      modifies this, lexer
      ensures Answers(a, r, old(tokens))
      decreases |tokens|, 10 - k
    {
      ghost var inner := LevelReads(k, r, tokens, env);
      if k == 5 { a := DoUnary(inner); } else { a := DoLevel(k + 1, inner); }
      if a.Got? { a := DoLoop(k, a.value, r); }
    }

    /** The loop of a level, over its operators and right operands. */
    method DoLoop(k: nat, first: Val, ghost r: Result) returns (a: Answer)
      requires Ready() && k <= 5 && LoopReads(k, first, r, tokens, env)
      modifies this, lexer
      ensures !a.Nothing? && Answers(a, r, [])
      decreases |tokens|, 2
    {
      var lhs := first;
      a := Got(lhs);
      var more := true;
      while more
        invariant !a.Nothing? && (more ==> Ready() && LoopReads(k, lhs, r, tokens, env) && |tokens| <= |old(tokens)|)
        invariant !more ==> Answers(a, r, [])
        decreases more, if more then |tokens| else 0
      {
        a, more := Operation(k, lhs, r);
        if a.Got? { lhs := a.value; }
      }
    }

    /** One operator of the level with its right operand, or none. */
    method Operation(k: nat, lhs: Val, ghost r: Result) returns (a: Answer, more: bool)
      requires Ready() && k <= 5 && LoopReads(k, lhs, r, tokens, env)
      modifies this, lexer
      ensures !a.Nothing? && (!more ==> Answers(a, r, []))
      ensures more ==> a.Got? && Ready() && LoopReads(k, a.value, r, tokens, env) && |tokens| < |old(tokens)|
      decreases |tokens|, 1
    {
      more := false;
      ghost var inner := OperationReads(k, lhs, r, tokens, env);
      var t := ReadToken();
      if t.Bad? { return Failed, false; }
      if Level(t) == k {
        if k == 5 { a := DoTerm(inner); } else { a := DoLevel(k + 1, inner); }
        if !a.Got? { return Failed, false; }
        var v := Apply(t, lhs, a.value);
        if v.None? { return Failed, false; }
        return Got(v.value), true;
      }
      UnreadToken(t);
      WithParts(old(tokens), Held(t));
      a := Got(lhs);
    }

    /** db_expression */
    method Expression() returns (a: Answer)
      requires Ready()
      modifies this, lexer
      ensures Answers(a, Climb(0, old(tokens), env), old(tokens))
    {
      a := DoLevel(0, Climb(0, tokens, env));
    }
  }

  // ------------------------------------------------------------ what the specification says, a step at a time

  /** r is what level k makes of the tokens ts. */
  ghost predicate Reads(k: nat, r: Result, ts: seq<Tok>, env: Env)
    requires k <= 7
  {
    forall s: seq<Tok> :: s == ts ==> r == Climb(k, s, env)
  }

  ghost predicate LoopReads(k: nat, lhs: Val, r: Result, ts: seq<Tok>, env: Env)
    requires k <= 5
  {
    forall s: seq<Tok> :: s == ts ==> r == Loop(k, lhs, s, env)
  }

  function Closed(r: Result): (result: Result) {
    if r.Yes? && Head(r.rest).RParen? then r.(rest := Tail(r.rest)) else Error
  }

  /** Tokens that are terms by themselves. */
  predicate Atomic(t: Tok) { t.Ident? || t.Number? || t.Dot? || t.DotDot? || t.Plus? || t.Ditto? }

  function AtomOf(t: Tok, env: Env): (r: Option<Val>)
    requires Atomic(t)
  {
    match t
    case Ident(_) => Lookup(env.symbols, t)
    case Number(n) => Some(n)
    case Dot => Some(env.dot)
    case DotDot => Some(env.prev)
    case Plus => Some(env.next)
    case Ditto => Some(env.last)
  }

  lemma TermReads(r: Result, ts: seq<Tok>, env: Env) returns (inner: Result)
    requires Reads(7, r, ts, env)
    ensures Atomic(Head(ts)) ==> r == From(AtomOf(Head(ts), env), Tail(ts))
    ensures Head(ts).Dollar? ==> r == From(Lookup(env.variables, Head(Tail(ts))), Tail(Tail(ts)))
    ensures Head(ts).LParen? ==> Reads(0, inner, Tail(ts), env) && r == Closed(inner) && |Tail(ts)| < |ts|
    ensures Head(ts).Bad? ==> r == Error
    ensures !Atomic(Head(ts)) && !Head(ts).Dollar? && !Head(ts).LParen? && !Head(ts).Bad? ==> r == No
  {
    assert r == Climb(7, ts, env) == Term(ts, env);
    inner := Climb(0, Tail(ts), env);
  }

  lemma UnaryReads(r: Result, ts: seq<Tok>, env: Env) returns (inner: Result)
    requires Reads(6, r, ts, env)
    ensures if IsUnary(Head(ts))
            then Reads(6, inner, Tail(ts), env) && |Tail(ts)| < |ts|
              && r == (if inner.Yes? then From(ApplyUnary(Head(ts), inner.value, env), inner.rest) else Error)
            else Reads(7, r, ts, env) && (Head(ts).Bad? ==> r == Error)
  {
    assert r == Climb(6, ts, env) == Unary(ts, env);
    inner := Climb(6, Tail(ts), env);
    assert inner == Unary(Tail(ts), env);
    assert Climb(7, ts, env) == Term(ts, env);
  }

  lemma LevelReads(k: nat, r: Result, ts: seq<Tok>, env: Env) returns (inner: Result)
    requires k <= 5 && Reads(k, r, ts, env)
    ensures Reads(k + 1, inner, ts, env)
    ensures if inner.Yes? then LoopReads(k, inner.value, r, inner.rest, env) && |inner.rest| < |ts| else r == inner
  {
    assert r == Climb(k, ts, env);
    inner := Climb(k + 1, ts, env);
  }

  /** The loop goes on from the operator's result, or ends in its error. */
  ghost predicate Operated(k: nat, lhs: Val, t: Tok, r: Result, inner: Result, env: Env)
    requires k <= 5 && inner.Yes?
  {
    var v := Apply(t, lhs, inner.value);
    if v.None? then r == Error else LoopReads(k, v.value, r, inner.rest, env)
  }

  lemma OperationReads(k: nat, lhs: Val, r: Result, ts: seq<Tok>, env: Env) returns (inner: Result)
    requires k <= 5 && LoopReads(k, lhs, r, ts, env)
    ensures Level(Head(ts)) == k ==> Reads(OperandLevel(k), inner, Tail(ts), env) && |Tail(ts)| < |ts|
    ensures Level(Head(ts)) == k && inner.Yes? ==> |inner.rest| < |ts| && Operated(k, lhs, Head(ts), r, inner, env)
    ensures Level(Head(ts)) == k && !inner.Yes? ==> r == Error
    ensures Level(Head(ts)) != k ==> r == if Head(ts).Bad? then Error else Yes(lhs, ts)
  {
    assert r == Loop(k, lhs, ts, env);
    inner := Climb(OperandLevel(k), Tail(ts), env);
  }

  lemma NoTokens(radix: Val)
    ensures TokensOf([], "", radix)
  {}

  lemma TokensStart(ts: seq<Tok>, cs: string, radix: Val)
    requires TokensOf(ts, cs, radix)
    ensures var (t, rest) := Lex(cs, radix);
      if t.EOL? then ts == [] else ts != [] && ts[0] == t && (!t.Bad? ==> TokensOf(ts[1..], rest, radix))
  {
    assert ts == Toks(cs, radix);
  }

  lemma WithParts(ts: seq<Tok>, t: Tok)
    requires Head(ts) == t && (t.EOL? ==> ts == [])
    ensures With(t, Tail(ts)) == ts
  {}
}
