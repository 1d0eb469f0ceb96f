/** The debugger's expressions: tokens, what the recursive-descent evaluator makes of them,
    and, independently, expression trees with their values and their printed form. */
module DdbExpr {
  import opened Arithmetic
  import opened Basics

  type Val = x: int | -0x8000_0000 <= x < 0x8000_0000
    witness 0

  datatype Tok =
    | EOF | EOL | Number(value: Val) | Ident(name: string)
    | Plus | Minus | Dot | Star | Slash | Eq | LParen | RParen | Pct | Hash | Comma | Ditto | Dollar | Excl
    | ShiftL | ShiftR | DotDot | Semi | LogEq | LogNotEq | Less | LessEq | Greater | GreaterEq
    | BitAnd | BitOr | LogAnd | LogOr | Question | BitNot
    | Bad // an error in the lexer

  /** What names and memory stand for; a name or address that is missing is an error. */
  datatype Env = Env(dot: Val, prev: Val, next: Val, last: Val,
                     symbols: map<string, Val>, variables: map<string, Val>, memory: map<Val, Val>)

  // ------------------------------------------------------------ arithmetic of a 32-bit int

  function Wrap(x: int): (r: Val) { (x + 0x8000_0000) % 0x1_0000_0000 - 0x8000_0000 }

  function Unsigned(x: Val): (r: nat) { if x < 0 then x + 0x1_0000_0000 else x }

  /** C's division, towards zero. */
  function Quotient(a: int, b: int): (r: int)
    requires b != 0
  {
    if a >= 0 then a / b else -((-a) / b)
  }

  function And(a: nat, b: nat): (r: nat)
    decreases a
  {
    if a == 0 then 0 else 2 * And(a / 2, b / 2) + (a % 2) * (b % 2)
  }

  function Or(a: nat, b: nat): (r: nat)
    decreases a + b
  {
    if a == 0 && b == 0 then 0 else 2 * Or(a / 2, b / 2) + (if a % 2 == 1 || b % 2 == 1 then 1 else 0)
  }

  function Truth(b: bool): (r: Val) { if b then 1 else 0 }

  /** A binary operator; None where the evaluator reports an error or C defines no result. */
  function Apply(t: Tok, a: Val, b: Val): (r: Option<Val>) {
    match t
    case Star => Some(Wrap(a * b))
    case BitAnd => Some(Wrap(And(Unsigned(a), Unsigned(b))))
    case Slash => if b == 0 || (a == -0x8000_0000 && b == -1) then None else Some(Wrap(Quotient(a, b)))
    case Pct => if b == 0 || (a == -0x8000_0000 && b == -1) then None else Some(Wrap(a - b * Quotient(a, b)))
    case Hash =>
      if b == 0 then None
      else
        var up := Wrap(a + Wrap(b - 1));
        if up == -0x8000_0000 && b == -1 then None else Some(Wrap(Quotient(up, b) * b))
    case Plus => Some(Wrap(a + b))
    case Minus => Some(Wrap(a - b))
    case BitOr => Some(Wrap(Or(Unsigned(a), Unsigned(b))))
    case ShiftL => if b < 0 || b >= 32 then None else Some(Wrap(a * Pow2(b)))
    case ShiftR => if b < 0 || b >= 32 then None else Some(Wrap(Unsigned(a) / Pow2(b)))
    case LogEq => Some(Truth(a == b))
    case LogNotEq => Some(Truth(a != b))
    case Greater => Some(Truth(a > b))
    case GreaterEq => Some(Truth(a >= b))
    case Less => Some(Truth(a < b))
    case LessEq => Some(Truth(a <= b))
    case LogAnd => Some(Truth(a != 0 && b != 0))
    case LogOr => Some(Truth(a != 0 || b != 0))
    case _ => None
  }

  function ApplyUnary(t: Tok, a: Val, env: Env): (r: Option<Val>) {
    match t
    case Minus => Some(Wrap(-(a as int)))
    case Excl => Some(Truth(a == 0))
    case BitNot => Some(-1 - a)
    case Star => if a in env.memory then Some(env.memory[a]) else None
    case _ => None
  }

  // ------------------------------------------------------------ the evaluator

  /** The six levels of binary operators, || to * ; -1 for other tokens. */
  function Level(t: Tok): (k: int)
    ensures -1 <= k <= 5
  {
    match t
    case LogOr => 0
    case LogAnd => 1
    case LogEq | LogNotEq | Greater | GreaterEq | Less | LessEq => 2
    case ShiftL | ShiftR => 3
    case Plus | Minus | BitOr => 4
    case Star | Slash | Pct | Hash | BitAnd => 5
    case _ => -1
  }

  predicate IsUnary(t: Tok) { t.Minus? || t.Excl? || t.BitNot? || t.Star? }

  /** The next token: at the end of the line there is no other than EOL. */
  function Head(ts: seq<Tok>): (r: Tok) { if ts == [] then EOL else ts[0] }

  function Tail(ts: seq<Tok>): (r: seq<Tok>) { if ts == [] then [] else ts[1..] }

  /** A value with the tokens after it, no expression here, or an error that abandons the line. */
  datatype Result = Yes(value: Val, rest: seq<Tok>) | No | Error

  function From(v: Option<Val>, rest: seq<Tok>): (r: Result) { if v.None? then Error else Yes(v.value, rest) }

  function Lookup(names: map<string, Val>, t: Tok): (r: Option<Val>) {
    if t.Ident? && t.name in names then Some(names[t.name]) else None
  }

  /** db_term */
  function Term(ts: seq<Tok>, env: Env): (r: Result)
    ensures r.Yes? ==> |r.rest| < |ts|
    decreases |ts|, 0
  {
    var t, us := Head(ts), Tail(ts);
    match t
    case Ident(_) => From(Lookup(env.symbols, t), us)
    case Number(n) => Yes(n, us)
    case Dot => Yes(env.dot, us)
    case DotDot => Yes(env.prev, us)
    case Plus => Yes(env.next, us)
    case Ditto => Yes(env.last, us)
    case Dollar => From(Lookup(env.variables, Head(us)), Tail(us))
    case LParen =>
      var r := Climb(0, us, env);
      if r.Yes? && Head(r.rest).RParen? then r.(rest := Tail(r.rest)) else Error
    case Bad => Error
    case _ => No
  }

  /** db_unary */
  function Unary(ts: seq<Tok>, env: Env): (r: Result)
    ensures r.Yes? ==> |r.rest| < |ts|
    decreases |ts|, 1
  {
    if IsUnary(Head(ts)) then
      var r := Unary(Tail(ts), env);
      if r.Yes? then From(ApplyUnary(Head(ts), r.value, env), r.rest) else Error
    else Term(ts, env)
  }

  /** db_logical_or_expr (k = 0) to db_mult_expr (k = 5), then db_unary (6) and db_term (7). */
  function Climb(k: nat, ts: seq<Tok>, env: Env): (r: Result)
    requires k <= 7
    ensures r.Yes? ==> |r.rest| < |ts|
    decreases |ts|, 10 - k
  {
    if k == 7 then Term(ts, env)
    else if k == 6 then Unary(ts, env)
    else
      var r := Climb(k + 1, ts, env);
      if r.Yes? then Loop(k, r.value, r.rest, env) else r
  }

  /** The level of the right operands: a term at the multiplicative level. */
  function OperandLevel(k: nat): (r: nat) { if k == 5 then 7 else k + 1 }

  /** The while loop of a level. */
  function Loop(k: nat, lhs: Val, ts: seq<Tok>, env: Env): (r: Result)
    requires k <= 5
    ensures r.Yes? ==> |r.rest| <= |ts|
    decreases |ts|, 0
  {
    if Level(Head(ts)) == k then
      var r := Climb(OperandLevel(k), Tail(ts), env);
      if !r.Yes? then Error
      else
        var v := Apply(Head(ts), lhs, r.value);
        if v.None? then Error else Loop(k, v.value, r.rest, env)
    else if Head(ts).Bad? then Error
    else Yes(lhs, ts)
  }

  // ------------------------------------------------------------ expressions and how they are written

  datatype Expr =
    | Const(n: Val) | Symbol(name: string) | Variable(name: string) | Special(t: Tok)
    | Prefix(t: Tok, e: Expr) | Binary(t: Tok, left: Expr, right: Expr)

  predicate Good(e: Expr) {
    match e
    case Special(t) => t.Dot? || t.DotDot? || t.Plus? || t.Ditto?
    case Prefix(t, x) => IsUnary(t) && Good(x)
    case Binary(t, l, r) => Level(t) >= 0 && Good(l) && Good(r)
    case _ => true
  }

  /** The value of an expression; None where evaluating it is an error. */
  function Value(e: Expr, env: Env): (r: Option<Val>)
    requires Good(e)
  {
    match e
    case Const(n) => Some(n)
    case Symbol(s) => Lookup(env.symbols, Ident(s))
    case Variable(s) => Lookup(env.variables, Ident(s))
    case Special(t) =>
      Some(match t case Dot => env.dot case DotDot => env.prev case Plus => env.next case _ => env.last)
    case Prefix(t, x) =>
      var v := Value(x, env);
      if v.None? then None else ApplyUnary(t, v.value, env)
    case Binary(t, l, r) =>
      var a, b := Value(l, env), Value(r, env);
      if a.None? || b.None? then None else Apply(t, a.value, b.value)
  }

  function LevelOf(e: Expr): (r: nat)
    requires Good(e)
  {
    match e case Binary(t, _, _) => Level(t) case Prefix(_, _) => 6 case _ => 7
  }

  /** The expression written where level k is wanted, with the parentheses that needs. */
  function Show(e: Expr, k: nat): (r: seq<Tok>)
    requires Good(e) && k <= 7
    decreases e, 1
  {
    if LevelOf(e) < k then [LParen] + Bare(e) + [RParen] else Bare(e)
  }

  function Bare(e: Expr): (r: seq<Tok>)
    requires Good(e)
    decreases e, 0
  {
    match e
    case Const(n) => [Number(n)]
    case Symbol(s) => [Ident(s)]
    case Variable(s) => [Dollar, Ident(s)]
    case Special(t) => [t]
    case Prefix(t, x) => [t] + Show(x, 6)
    case Binary(t, l, r) => Show(l, Level(t)) + [t] + Show(r, OperandLevel(Level(t)))
  }
}
