/** The evaluator gives every expression, as written, its value.

    Parses speaks of every sequence that equals its own, not of the sequence itself: that hides the
    evaluator applied to it, which is then unfolded only in the lemmas that name it. */
module DdbParse {
  import opened Basics
  import opened DdbExpr

  /** What a level makes of a left operand v followed by ts. */
  function After(k: nat, v: Option<Val>, ts: seq<Tok>, env: Env): (r: Result)
    requires k <= 7
  {
    if v.None? then Error else if k <= 5 then Loop(k, v.value, ts, env) else Yes(v.value, ts)
  }

  /** A token that ends an operand of level k + 1: no operator that binds tighter than k. */
  predicate Ends(k: nat, t: Tok) { Level(t) <= k && !t.Bad? }

  lemma AfterEnds(k: nat, v: Option<Val>, ts: seq<Tok>, env: Env)
    requires 1 <= k <= 7 && Ends(k - 1, Head(ts))
    ensures After(k, v, ts, env) == From(v, ts)
  {}

  /** A term is an expression of every level. */
  lemma {:induction false} Ascend(k: nat, us: seq<Tok>, v: Option<Val>, ts: seq<Tok>, env: Env)
    requires k <= 7 && !IsUnary(Head(us)) && Term(us, env) == From(v, ts) && Ends(k, Head(ts))
    ensures Climb(k, us, env) == After(k, v, ts, env)
    decreases 7 - k
  {
    if k <= 5 {
      Ascend(k + 1, us, v, ts, env);
      AfterEnds(k + 1, v, ts, env);
    }
  }

  lemma ParseSimple(e: Expr, ts: seq<Tok>, env: Env)
    requires Good(e) && LevelOf(e) == 7
    ensures Term(Bare(e) + ts, env) == From(Value(e, env), ts) && !IsUnary(Head(Bare(e) + ts))
  {
    var us := Bare(e) + ts;
    if e.Variable? {
      assert Tail(us) == [Ident(e.name)] + ts && Tail(Tail(us)) == ts;
    } else {
      assert Tail(us) == ts;
    }
  }

  /** A parenthesised expression is a term. */
  lemma Parenthesised(us: seq<Tok>, v: Option<Val>, ts: seq<Tok>, env: Env)
    requires Climb(0, us + ([RParen] + ts), env) == After(0, v, [RParen] + ts, env)
    ensures var ws := [LParen] + us + [RParen] + ts; Term(ws, env) == From(v, ts) && !IsUnary(Head(ws))
  {
    var ws := [LParen] + us + [RParen] + ts;
    assert Tail(ws) == us + ([RParen] + ts);
    assert Tail([RParen] + ts) == ts;
  }

  lemma Prefixed(t: Tok, us: seq<Tok>, v: Option<Val>, ts: seq<Tok>, env: Env)
    requires IsUnary(t) && Climb(6, us + ts, env) == From(v, ts)
    ensures Climb(6, [t] + us + ts, env) == From(if v.None? then None else ApplyUnary(t, v.value, env), ts)
  {
    assert Tail([t] + us + ts) == us + ts;
  }

  /** The loop takes one more operator and operand. */
  lemma LoopTakes(t: Tok, k: nat, lhs: Val, us: seq<Tok>, b: Option<Val>, ts: seq<Tok>, env: Env)
    requires Level(t) == k && Climb(OperandLevel(k), us, env) == From(b, ts)
    ensures Loop(k, lhs, [t] + us, env) == After(k, if b.None? then None else Apply(t, lhs, b.value), ts, env)
  {
    assert Tail([t] + us) == us;
  }

  lemma Grouped(ls: seq<Tok>, t: Tok, rs: seq<Tok>, ts: seq<Tok>)
    ensures ls + [t] + rs + ts == ls + ([t] + (rs + ts))
  {}

  lemma Extended(t: Tok, k: nat, ls: seq<Tok>, a: Option<Val>, rs: seq<Tok>, b: Option<Val>, ts: seq<Tok>, env: Env)
    requires Level(t) == k && Climb(k, ls + ([t] + (rs + ts)), env) == After(k, a, [t] + (rs + ts), env)
    requires Climb(OperandLevel(k), rs + ts, env) == From(b, ts)
    ensures Climb(k, ls + [t] + rs + ts, env)
         == After(k, if a.None? || b.None? then None else Apply(t, a.value, b.value), ts, env)
  {
    Grouped(ls, t, rs, ts);
    if a.Some? { LoopTakes(t, k, a.value, rs + ts, b, ts, env); }
  }

  /** Level k reads the tokens us as the value v and goes on with ts. */
  ghost predicate Parses(k: nat, us: seq<Tok>, v: Option<Val>, ts: seq<Tok>, env: Env)
    requires k <= 7
  {
    forall s: seq<Tok> :: s == us + ts ==> Climb(k, s, env) == After(k, v, ts, env)
  }

  lemma ShowParens(e: Expr, k: nat, ts: seq<Tok>, env: Env)
    requires Good(e) && LevelOf(e) < k <= 7 && Ends(k, Head(ts))
      && Parses(0, Bare(e), Value(e, env), [RParen] + ts, env)
    ensures Parses(k, Show(e, k), Value(e, env), ts, env)
  {
    assert Climb(0, Bare(e) + ([RParen] + ts), env) == After(0, Value(e, env), [RParen] + ts, env);
    Parenthesised(Bare(e), Value(e, env), ts, env);
    Ascend(k, Show(e, k) + ts, Value(e, env), ts, env);
  }

  lemma ShowTerm(e: Expr, k: nat, ts: seq<Tok>, env: Env)
    requires Good(e) && LevelOf(e) == 7 && k <= 7 && Ends(k, Head(ts))
    ensures Parses(k, Show(e, k), Value(e, env), ts, env)
  {
    ParseSimple(e, ts, env);
    Ascend(k, Bare(e) + ts, Value(e, env), ts, env);
  }

  lemma ShowTighter(e: Expr, k: nat, ts: seq<Tok>, env: Env)
    requires Good(e) && k < LevelOf(e) <= 6 && Ends(k, Head(ts))
      && Parses(k + 1, Show(e, k + 1), Value(e, env), ts, env)
    ensures Parses(k, Show(e, k), Value(e, env), ts, env)
  {
    assert Climb(k + 1, Show(e, k + 1) + ts, env) == After(k + 1, Value(e, env), ts, env);
    AfterEnds(k + 1, Value(e, env), ts, env);
  }

  lemma ShowPrefix(e: Expr, ts: seq<Tok>, env: Env)
    requires Good(e) && e.Prefix? && Parses(6, Show(e.e, 6), Value(e.e, env), ts, env)
    ensures Parses(6, Show(e, 6), Value(e, env), ts, env)
  {
    assert Climb(6, Show(e.e, 6) + ts, env) == After(6, Value(e.e, env), ts, env);
    Prefixed(e.t, Show(e.e, 6), Value(e.e, env), ts, env);
  }

  lemma ShowBinary(e: Expr, k: nat, rs: seq<Tok>, ts: seq<Tok>, env: Env)
    requires Good(e) && e.Binary? && k == LevelOf(e) && rs == Show(e.right, OperandLevel(k)) && Ends(k, Head(ts))
    requires Parses(k, Show(e.left, k), Value(e.left, env), [e.t] + (rs + ts), env)
    requires Parses(OperandLevel(k), rs, Value(e.right, env), ts, env)
    ensures Parses(k, Show(e, k), Value(e, env), ts, env)
  {
    var a, b := Value(e.left, env), Value(e.right, env);
    assert Climb(k, Show(e.left, k) + ([e.t] + (rs + ts)), env) == After(k, a, [e.t] + (rs + ts), env);
    assert Climb(OperandLevel(k), rs + ts, env) == After(OperandLevel(k), b, ts, env);
    AfterEnds(OperandLevel(k), b, ts, env);
    Extended(e.t, k, Show(e.left, k), a, rs, b, ts, env);
  }

  /** An expression written for level k is read at level k: what follows goes on from its value. */
  lemma {:induction false} ParseShow(e: Expr, k: nat, ts: seq<Tok>, env: Env)
    requires Good(e) && k <= 7 && Ends(k, Head(ts))
    ensures Parses(k, Show(e, k), Value(e, env), ts, env)
    decreases e, if k > LevelOf(e) then 10 else LevelOf(e) - k
  {
    if LevelOf(e) < k {
      ParseShow(e, 0, [RParen] + ts, env);
      ShowParens(e, k, ts, env);
    } else if LevelOf(e) == 7 {
      ShowTerm(e, k, ts, env);
    } else if k < LevelOf(e) {
      ParseShow(e, k + 1, ts, env);
      ShowTighter(e, k, ts, env);
    } else if e.Prefix? {
      ParseShow(e.e, 6, ts, env);
      ShowPrefix(e, ts, env);
    } else {
      var rs := Show(e.right, OperandLevel(k));
      ParseShow(e.left, k, [e.t] + (rs + ts), env);
      ParseShow(e.right, OperandLevel(k), ts, env);
      ShowBinary(e, k, rs, ts, env);
    }
  }

  /** Whatever follows a written expression, if it is no operator, is left unread; the value is
      that of the tree: operators of a level associate to the left. */
  lemma Evaluates(e: Expr, ts: seq<Tok>, env: Env)
    requires Good(e) && Level(Head(ts)) == -1 && !Head(ts).Bad?
    ensures Climb(0, Show(e, 0) + ts, env) == From(Value(e, env), ts)
  {
    ParseShow(e, 0, ts, env);
  }

  /** A prefix operator cannot follow a multiplicative one without parentheses: the right
      operand there is a term. */
  lemma PrefixedFactorFails(op: Tok, t: Tok, us: seq<Tok>, lhs: Val, env: Env)
    requires Level(op) == 5 && IsUnary(t)
    ensures Loop(5, lhs, [op, t] + us, env) == Error
  {
    assert Tail([op, t] + us) == [t] + us;
    assert Term([t] + us, env) == No;
  }
}
