/** What the operators of ddb's expressions mean, told without the evaluator: in plain integers, by
    bits, and by the classes of precedence as they are written. */
module DdbOperators {
  import opened Arithmetic
  import opened Basics
  import opened DdbExpr
  import opened DdbParse
  import opened DdbLex
  import opened DdbLine

  // ------------------------------------------------------------ what is meant

  /** v is n in 32 bits. */
  predicate Same(v: Val, n: int) { (n - v) % 0x1_0000_0000 == 0 }

  function Abs(x: int): (r: nat) { if x < 0 then -x else x }

  /** q is a divided by b towards zero: what is left is smaller than b and has a's sign. */
  predicate IsQuotient(a: int, b: int, q: int) {
    b != 0 && var r := a - q * b; Abs(r) < Abs(b) && (r == 0 || (r < 0 <==> a < 0))
  }

  predicate UBit(x: Val, k: nat) { Unsigned(x) / Pow2(k) % 2 == 1 }

  lemma Shorter(x: nat, m: nat)
    requires m > 0
    ensures 0 <= x / m <= x
  {
    NotNegative(m - 1, x / m);
    assert (m - 1) * (x / m) == m * (x / m) - x / m;
  }

  /** What is left of a, as an unsigned word, when b bits have gone. */
  function ShiftedOut(a: Val, b: nat): (n: nat)
    ensures n < 0x1_0000_0000
  {
    var x: nat, m: nat := Unsigned(a), Pow2(b);
    Shorter(x, m);
    x / m
  }

  /** The binary operators, each class binding tighter than the one before it. */
  const Classes: seq<seq<string>> :=
    [["||"], ["&&"], ["==", "!=", ">", ">=", "<", "<="], ["<<", ">>"], ["+", "-", "|"], ["*", "/", "%", "#", "&"]]

  /** v is the result of the operator; where none is, evaluating is an error. */
  ghost predicate Means(op: string, a: Val, b: Val, v: Val) {
    if op == "+" then Same(v, a + b)
    else if op == "-" then Same(v, a - b)
    else if op == "*" then Same(v, a * b)
    else if op == "/" then IsQuotient(a, b, v)
    else if op == "%" then exists q: Val :: IsQuotient(a, b, q) && v == a - q * b
    else if op == "#" then exists n: Val, q: Val :: Same(n, a + b - 1) && IsQuotient(n, b, q) && Same(v, q * b)
    else if op == "&" then forall k :: 0 <= k < 32 ==> (UBit(v, k) <==> UBit(a, k) && UBit(b, k))
    else if op == "|" then forall k :: 0 <= k < 32 ==> (UBit(v, k) <==> UBit(a, k) || UBit(b, k))
    else if op == "<<" then 0 <= b < 32 && Same(v, a * Pow2(b))
    else if op == ">>" then 0 <= b < 32 && Unsigned(v) == ShiftedOut(a, b)
    else (v == 0 || v == 1) && (v == 1 <==> Holds(op, a, b))
  }

  /** The conditions; && and || ask both operands. */
  predicate Holds(op: string, a: int, b: int) {
    if op == "==" then a == b
    else if op == "!=" then a < b || b < a
    else if op == "<" then a < b
    else if op == "<=" then !(b < a)
    else if op == ">" then b < a
    else if op == ">=" then !(a < b)
    else if op == "&&" then a != 0 && b != 0
    else op == "||" && !(a == 0 && b == 0)
  }

  // ------------------------------------------------------------ division

  lemma Multiple(q: int, p: int, b: int)
    requires b != 0 && Abs(q * b - p * b) < Abs(b)
    ensures q == p
  {
    assert q * b - p * b == b * (q - p) == (-b) * (p - q);
    if q != p {
      if b > 0 { Large(b, q - p); } else { Large(-b, p - q); }
    }
  }

  lemma QuotientIs(a: int, b: int)
    requires b != 0
    ensures IsQuotient(a, b, Quotient(a, b))
  {
    if a < 0 {
      var q := (-a) / b;
      assert (-q) * b == -(q * b);
      assert a - Quotient(a, b) * b == -((-a) % b);
    }
  }

  /** There is one quotient. */
  lemma QuotientIff(a: int, b: int, q: int)
    requires b != 0
    ensures IsQuotient(a, b, q) <==> q == Quotient(a, b)
  {
    QuotientIs(a, b);
    if IsQuotient(a, b, q) { Multiple(q, Quotient(a, b), b); }
  }

  lemma WrapIff(v: Val, n: int)
    ensures Same(v, n) <==> v == Wrap(n)
  {}

  lemma QuotientSmall(a: Val, b: Val)
    requires b != 0
    ensures -0x8000_0000 <= Quotient(a, b) < 0x8000_0000 <==> !(a == -0x8000_0000 && b == -1)
  {
    var q := Quotient(a, b);
    QuotientIs(a, b);
    if b != 1 && b != -1 { Halved(a, b, q); }
  }

  lemma AbsTimes(q: int, b: int)
    ensures Abs(q * b) == Abs(q) * Abs(b)
  {
    NotNegative(Abs(q), Abs(b));
    assert (-q) * b == -(q * b) == q * (-b) && (-q) * (-b) == q * b;
  }

  lemma AtLeastTwice(m: nat, n: nat)
    requires n >= 2
    ensures 2 * m <= m * n
  {
    NotNegative(m, n - 2);
    assert m * (n - 2) == m * n - 2 * m;
  }

  lemma Halved(a: Val, b: Val, q: int)
    requires IsQuotient(a, b, q) && Abs(b) >= 2
    ensures -0x8000_0000 <= q < 0x8000_0000
  {
    AbsTimes(q, b);
    AtLeastTwice(Abs(q), Abs(b));
    var r := a - q * b;
    assert Abs(q * b) <= Abs(a) + Abs(r) < Abs(a) + Abs(b);
  }

  // ------------------------------------------------------------ bits

  lemma {:induction false} AndBit(a: nat, b: nat, k: nat)
    ensures And(a, b) / Pow2(k) % 2 == 1 <==> a / Pow2(k) % 2 == 1 && b / Pow2(k) % 2 == 1
    decreases k
  {
    assert Pow2(0) == 1;
    var low := (a % 2) * (b % 2);
    assert low == if a % 2 == 1 && b % 2 == 1 then 1 else 0;
    if a == 0 {
      ZeroBit(k);
    } else if k > 0 {
      AndBit(a / 2, b / 2, k - 1);
      Halves(And(a, b), k);
      Halves(a, k);
      Halves(b, k);
      assert And(a, b) / 2 == And(a / 2, b / 2);
    }
  }

  lemma ZeroBit(k: nat)
    ensures 0 / Pow2(k) % 2 == 0
  {}

  lemma Halves(x: nat, k: nat)
    requires k > 0
    ensures x / Pow2(k) == x / 2 / Pow2(k - 1)
  {
    DivDiv(x, 2, Pow2(k - 1));
  }

  lemma {:induction false} OrBit(a: nat, b: nat, k: nat)
    ensures Or(a, b) / Pow2(k) % 2 == 1 <==> a / Pow2(k) % 2 == 1 || b / Pow2(k) % 2 == 1
    decreases k
  {
    assert Pow2(0) == 1;
    if a == 0 && b == 0 {
      ZeroBit(k);
    } else if k > 0 {
      OrBit(a / 2, b / 2, k - 1);
      Halves(Or(a, b), k);
      Halves(a, k);
      Halves(b, k);
      assert Or(a, b) / 2 == Or(a / 2, b / 2);
    }
  }

  lemma {:induction false} AndFits(a: nat, b: nat)
    ensures And(a, b) <= a
    decreases a
  {
    if a != 0 {
      AndFits(a / 2, b / 2);
      assert (a % 2) * (b % 2) <= a % 2;
    }
  }

  lemma {:induction false} OrFits(a: nat, b: nat, n: nat)
    requires a < Pow2(n) && b < Pow2(n)
    ensures Or(a, b) < Pow2(n)
    decreases n
  {
    if n > 0 && (a != 0 || b != 0) { OrFits(a / 2, b / 2, n - 1); }
  }

  /** Numbers with the same low n bits. */
  predicate SameBits(x: nat, y: nat, n: nat) {
    forall k :: 0 <= k < n ==> x / Pow2(k) % 2 == y / Pow2(k) % 2
  }

  lemma {:induction false} BitsDecide(x: nat, y: nat, n: nat)
    requires x < Pow2(n) && y < Pow2(n) && SameBits(x, y, n)
    ensures x == y
    decreases n
  {
    if n > 0 {
      forall k | 0 <= k < n - 1 ensures x / 2 / Pow2(k) % 2 == y / 2 / Pow2(k) % 2 {
        Halves(x, k + 1);
        Halves(y, k + 1);
      }
      BitsDecide(x / 2, y / 2, n - 1);
      assert Pow2(0) == 1 && x % 2 == y % 2;
    }
  }

  lemma BitsAre(v: Val, w: Val)
    requires forall k :: 0 <= k < 32 ==> (UBit(v, k) <==> UBit(w, k))
    ensures v == w
  {
    Pow2Values();
    forall k | 0 <= k < 32 ensures Unsigned(v) / Pow2(k) % 2 == Unsigned(w) / Pow2(k) % 2 {
      assert UBit(v, k) <==> UBit(w, k);
    }
    BitsDecide(Unsigned(v), Unsigned(w), 32);
  }

  lemma UnsignedBack(n: nat)
    requires n < 0x1_0000_0000
    ensures Unsigned(Wrap(n)) == n
  {}

  lemma AndMeans(a: Val, b: Val, v: Val)
    ensures Means("&", a, b, v) <==> v == Wrap(And(Unsigned(a), Unsigned(b)))
  {
    var x := And(Unsigned(a), Unsigned(b));
    AndFits(Unsigned(a), Unsigned(b));
    UnsignedBack(x);
    forall k | 0 <= k < 32 ensures UBit(Wrap(x), k) <==> UBit(a, k) && UBit(b, k) {
      AndBit(Unsigned(a), Unsigned(b), k);
    }
    if Means("&", a, b, v) {
      forall k | 0 <= k < 32 ensures UBit(v, k) <==> UBit(Wrap(x), k) {}
      BitsAre(v, Wrap(x));
    }
  }

  lemma OrMeans(a: Val, b: Val, v: Val)
    ensures Means("|", a, b, v) <==> v == Wrap(Or(Unsigned(a), Unsigned(b)))
  {
    var x := Or(Unsigned(a), Unsigned(b));
    Pow2Values();
    OrFits(Unsigned(a), Unsigned(b), 32);
    UnsignedBack(x);
    forall k | 0 <= k < 32 ensures UBit(Wrap(x), k) <==> UBit(a, k) || UBit(b, k) {
      OrBit(Unsigned(a), Unsigned(b), k);
    }
    if Means("|", a, b, v) {
      forall k | 0 <= k < 32 ensures UBit(v, k) <==> UBit(Wrap(x), k) {}
      BitsAre(v, Wrap(x));
    }
  }

  // ------------------------------------------------------------ every operator gives what is meant

  lemma RemainderIs(a: Val, b: Val)
    requires b != 0
    ensures var q := Quotient(a, b); -0x8000_0000 <= a - b * q < 0x8000_0000 && a - b * q == a - q * b
  {
    QuotientIs(a, b);
  }

  lemma RemainderGiven(a: Val, b: Val, v: Val)
    requires b != 0 && !(a == -0x8000_0000 && b == -1)
    ensures Apply(Pct, a, b) == Some(v) <==> v == a - Quotient(a, b) * b
  {
    RemainderIs(a, b);
  }

  lemma RemainderMeans(a: Val, b: Val, v: Val)
    ensures Means("%", a, b, v) <==> Apply(Pct, a, b) == Some(v)
  {
    if Means("%", a, b, v) {
      var q: Val :| IsQuotient(a, b, q) && v == a - q * b;
      QuotientIff(a, b, q);
      QuotientSmall(a, b);
      RemainderGiven(a, b, v);
    }
    if Apply(Pct, a, b) == Some(v) {
      QuotientIs(a, b);
      QuotientSmall(a, b);
      RemainderGiven(a, b, v);
      var q: Val := Quotient(a, b);
      assert IsQuotient(a, b, q);
    }
  }

  lemma DivisionMeans(a: Val, b: Val, v: Val)
    ensures Means("/", a, b, v) <==> Apply(Slash, a, b) == Some(v)
  {
    if b != 0 {
      QuotientIff(a, b, v);
      QuotientSmall(a, b);
    }
  }

  lemma WrapTwice(a: Val, b: Val)
    ensures Wrap(a + Wrap(b - 1)) == Wrap(a + b - 1)
  {}

  lemma RoundingGiven(a: Val, b: Val, n: Val, v: Val)
    requires n == Wrap(a + b - 1)
    ensures Apply(Hash, a, b) == Some(v)
       <==> b != 0 && !(n == -0x8000_0000 && b == -1) && v == Wrap(Quotient(n, b) * b)
  {
    WrapTwice(a, b);
  }

  lemma RoundingMeans(a: Val, b: Val, v: Val)
    ensures Means("#", a, b, v) <==> Apply(Hash, a, b) == Some(v)
  {
    var n: Val := Wrap(a + b - 1);
    RoundingGiven(a, b, n, v);
    WrapIff(n, a + b - 1);
    if Means("#", a, b, v) {
      var m: Val, q: Val :| Same(m, a + b - 1) && IsQuotient(m, b, q) && Same(v, q * b);
      WrapIff(m, a + b - 1);
      QuotientIff(n, b, q);
      QuotientSmall(n, b);
      WrapIff(v, q * b);
    }
    if Apply(Hash, a, b) == Some(v) {
      QuotientIs(n, b);
      QuotientSmall(n, b);
      var q: Val := Quotient(n, b);
      WrapIff(v, q * b);
      assert IsQuotient(n, b, q);
    }
  }

  lemma ShiftIsNegative(t: Tok, a: Val, b: Val)
    requires (t.ShiftL? || t.ShiftR?) && !(0 <= b < 32)
    ensures Apply(t, a, b) == None
  {}

  lemma LeftMeans(a: Val, b: Val, v: Val)
    ensures Means("<<", a, b, v) <==> Apply(ShiftL, a, b) == Some(v)
  {
    if 0 <= b < 32 { WrapIff(v, a * Pow2(b)); } else { ShiftIsNegative(ShiftL, a, b); }
  }

  lemma UnsignedIff(v: Val, n: nat)
    requires n < 0x1_0000_0000
    ensures Unsigned(v) == n <==> v == Wrap(n)
  {}

  lemma RightMeans(a: Val, b: Val, v: Val)
    ensures Means(">>", a, b, v) <==> Apply(ShiftR, a, b) == Some(v)
  {
    if 0 <= b < 32 { UnsignedIff(v, ShiftedOut(a, b)); } else { ShiftIsNegative(ShiftR, a, b); }
  }

  lemma SumMeans(t: Tok, a: Val, b: Val, v: Val)
    requires t.Plus? || t.Minus? || t.Star?
    ensures Means(SymbolText(t), a, b, v) <==> Apply(t, a, b) == Some(v)
  {
    WrapIff(v, if t.Plus? then a + b else if t.Minus? then a - b else a * b);
  }

  lemma ConditionMeans(t: Tok, a: Val, b: Val, v: Val)
    requires 0 <= Level(t) <= 2
    ensures Means(SymbolText(t), a, b, v) <==> Apply(t, a, b) == Some(v)
  {}

  /** Every binary operator has exactly the result that is meant, or none and is an error. */
  lemma ApplyMeans(t: Tok, a: Val, b: Val, v: Val)
    requires Level(t) >= 0
    ensures Means(SymbolText(t), a, b, v) <==> Apply(t, a, b) == Some(v)
  {
    match t
    case Pct => RemainderMeans(a, b, v);
    case Slash => DivisionMeans(a, b, v);
    case Hash => RoundingMeans(a, b, v);
    case BitAnd => AndMeans(a, b, v);
    case BitOr => OrMeans(a, b, v);
    case ShiftL => LeftMeans(a, b, v);
    case ShiftR => RightMeans(a, b, v);
    case Plus | Minus | Star => SumMeans(t, a, b, v);
    case _ => ConditionMeans(t, a, b, v);
  }

  lemma SameBack(a: Val, b: Val, s: Val)
    ensures Same(s, a + b) <==> Same(a, s - b)
  {}

  /** What is added can be taken away again. */
  lemma MinusUndoesPlus(a: Val, b: Val, s: Val)
    ensures Apply(Plus, a, b) == Some(s) <==> Apply(Minus, s, b) == Some(a)
  {
    SameBack(a, b, s);
    WrapIff(s, a + b);
    WrapIff(a, s - b);
  }

  /** Quotient and remainder belong together. */
  lemma QuotientAndRemainder(a: Val, b: Val, q: Val, r: Val)
    requires Apply(Slash, a, b) == Some(q) && Apply(Pct, a, b) == Some(r)
    ensures a == q * b + r && Abs(r) < Abs(b) && (r == 0 || (r < 0 <==> a < 0))
  {
    DivisionMeans(a, b, q);
    RemainderMeans(a, b, r);
    forall p: Val | IsQuotient(a, b, p) ensures p == q {
      QuotientIff(a, b, p);
      QuotientIff(a, b, q);
    }
  }

  // ------------------------------------------------------------ rounding up

  /** v is the least multiple of b that is not below a. */
  predicate RoundedUp(a: int, b: int, v: int)
    requires b > 0
  {
    v % b == 0 && a <= v < a + b
  }

  lemma OneRoundedUp(a: int, b: int, v: int, w: int)
    requires b > 0 && RoundedUp(a, b, v) && w % b == 0 && a <= w
    ensures v <= w
  {
    if w < v {
      var p, q := v / b, w / b;
      assert v - w == b * (p - q);
      Large(b, p - q);
    }
  }

  lemma UpQuotient(n: int, b: int, q: int)
    requires b > 0 && IsQuotient(n, b, q)
    ensures q * b <= n < q * b + b <==> n >= 0 || n % b == 0
    ensures q * b % b == 0
  {
    var r := n - q * b;
    if r >= 0 { DivModUnique(n, b, q, r); }
    DivModUnique(q * b, b, q, 0);
    if r < 0 {
      assert b * (q - 1) == q * b - b;
      DivModUnique(n, b, q - 1, r + b);
    }
  }

  lemma Truncated(m: nat, b: int)
    requires b > 0
    ensures 0 <= m / b * b <= m
  {
    NotNegative(m / b, b);
    assert m / b * b == m - m % b;
  }

  lemma QuotientBelow(n: int, b: int)
    requires b > 0
    ensures Abs(Quotient(n, b) * b) <= Abs(n)
  {
    Truncated(Abs(n), b);
    AbsTimes(Quotient(n, b), b);
    assert Abs(Quotient(n, b)) == Abs(n) / b;
  }

  lemma WrapSmall(p: int)
    requires -0x8000_0000 <= p < 0x8000_0000
    ensures Wrap(p) == p
  {}

  lemma HashIs(a: Val, b: Val, v: Val)
    requires b > 0 && a + b - 1 < 0x8000_0000 && Apply(Hash, a, b) == Some(v)
    ensures v == Quotient(a + b - 1, b) * b
  {
    var n: Val := a + b - 1;
    WrapSmall(n);
    RoundingGiven(a, b, n, v);
    QuotientBelow(n, b);
    WrapSmall(Quotient(n, b) * b);
  }

  lemma LessOne(a: int, b: int)
    requires b > 0
    ensures (a + b - 1) % b == (a - 1) % b
  {
    DivModUnique(a + b - 1, b, (a - 1) / b + 1, (a - 1) % b);
  }

  /** a # b is a rounded up to a multiple of b exactly when a is above -b or one more than a multiple;
      otherwise the division towards zero has gone up once too often. */
  lemma HashRoundsUpIff(a: Val, b: Val, v: Val)
    requires b > 0 && a + b - 1 < 0x8000_0000 && Apply(Hash, a, b) == Some(v)
    ensures RoundedUp(a, b, v) <==> a > -b || (a - 1) % b == 0
  {
    var q := Quotient(a + b - 1, b);
    HashIs(a, b, v);
    QuotientIs(a + b - 1, b);
    UpQuotient(a + b - 1, b, q);
    LessOne(a, b);
  }

  /** -5 # 4 is 0, though -4 is a multiple of 4 too. */
  lemma HashGoesTooFar()
    ensures Apply(Hash, -5, 4) == Some(0) && RoundedUp(-5, 4, -4)
  {
    assert Wrap(-5 + Wrap(4 - 1)) == -2 && Quotient(-2, 4) == 0;
  }

  // ------------------------------------------------------------ prefix operators

  lemma {:induction false} Complement(x: nat, n: nat, k: nat)
    requires k < n && x < Pow2(n)
    ensures (Pow2(n) - 1 - x) / Pow2(k) % 2 == 1 <==> x / Pow2(k) % 2 == 0
    decreases n
  {
    assert Pow2(0) == 1;
    var y := Pow2(n) - 1 - x;
    if k > 0 {
      assert y / 2 == Pow2(n - 1) - 1 - x / 2;
      Complement(x / 2, n - 1, k - 1);
      Halves(x, k);
      Halves(y, k);
    }
  }

  /** v has the bits that a has not. */
  predicate Flipped(a: Val, v: Val) { forall k :: 0 <= k < 32 ==> (UBit(v, k) <==> !UBit(a, k)) }

  lemma FlippedIff(a: Val, v: Val)
    ensures Flipped(a, v) <==> v == -1 - a
  {
    Pow2Values();
    forall k | 0 <= k < 32 ensures UBit(-1 - a, k) <==> !UBit(a, k) { Complement(Unsigned(a), 32, k); }
    if Flipped(a, v) {
      forall k | 0 <= k < 32 ensures UBit(v, k) <==> UBit(-1 - a, k) {}
      BitsAre(v, -1 - a);
    }
  }

  /** v is the result of the prefix operator. */
  predicate MeansPrefix(op: string, a: Val, v: Val, env: Env) {
    if op == "-" then Same(v, -(a as int))
    else if op == "~" then Flipped(a, v)
    else if op == "!" then v == (if a == 0 then 1 else 0)
    else op == "*" && a in env.memory && v == env.memory[a]
  }

  lemma NegationMeans(a: Val, v: Val, env: Env)
    ensures MeansPrefix("-", a, v, env) <==> ApplyUnary(Minus, a, env) == Some(v)
  {
    WrapIff(v, -(a as int));
  }

  lemma ComplementMeans(a: Val, v: Val, env: Env)
    ensures MeansPrefix("~", a, v, env) <==> ApplyUnary(BitNot, a, env) == Some(v)
  {
    FlippedIff(a, v);
  }

  lemma OtherPrefixMeans(t: Tok, a: Val, v: Val, env: Env)
    requires t.Excl? || t.Star?
    ensures MeansPrefix(SymbolText(t), a, v, env) <==> ApplyUnary(t, a, env) == Some(v)
  {}

  /** Every prefix operator has exactly the result that is meant. */
  lemma PrefixMeans(t: Tok, a: Val, v: Val, env: Env)
    requires IsUnary(t)
    ensures MeansPrefix(SymbolText(t), a, v, env) <==> ApplyUnary(t, a, env) == Some(v)
  {
    match t
    case Minus => NegationMeans(a, v, env);
    case BitNot => ComplementMeans(a, v, env);
    case _ => OtherPrefixMeans(t, a, v, env);
  }

  // ------------------------------------------------------------ two operators on a line

  /** x p y q z as one of the two trees it could be. */
  function Pair(t: Tok, u: Tok, a: Val, b: Val, c: Val): (e: Expr)
    requires Level(t) >= 0 && Level(u) >= 0
    ensures Good(e)
  {
    assert Good(Const(a)) && Good(Const(c));
    if Level(u) > Level(t) then Binary(t, Const(a), Two(u, b, c)) else Binary(u, Two(t, a, b), Const(c))
  }

  lemma {:induction false} PairShown(t: Tok, u: Tok, a: Val, b: Val, c: Val)
    requires Level(t) >= 0 && Level(u) >= 0
    ensures Show(Pair(t, u, a, b, c), 0) == [Number(a), t, Number(b), u, Number(c)]
  {
    if Level(u) > Level(t) {
      TwoShown(u, OperandLevel(Level(t)), b, c);
      ConstShown(a, Level(t));
    } else {
      TwoShown(t, Level(u), a, b);
      ConstShown(c, OperandLevel(Level(u)));
    }
  }

  lemma {:induction false} PairValue(t: Tok, u: Tok, a: Val, b: Val, c: Val, env: Env)
    requires Level(t) >= 0 && Level(u) >= 0
    ensures Value(Pair(t, u, a, b, c), env) ==
      if Level(u) > Level(t) then
        var m := Apply(u, b, c); if m.None? then None else Apply(t, a, m.value)
      else
        var m := Apply(t, a, b); if m.None? then None else Apply(u, m.value, c)
  {
    ConstValue(a, env);
    ConstValue(c, env);
    if Level(u) > Level(t) { TwoValue(u, b, c, env); } else { TwoValue(t, a, b, env); }
  }

  lemma RelationOf(p: string) returns (t: Tok)
    requires p in Classes[2]
    ensures Level(t) == 2 && SymbolText(t) == p
  {
    t := if p == "==" then LogEq else if p == "!=" then LogNotEq else if p == ">" then Greater
      else if p == ">=" then GreaterEq else if p == "<" then Less else LessEq;
  }

  lemma FactorOf(p: string) returns (t: Tok)
    requires p in Classes[5]
    ensures Level(t) == 5 && SymbolText(t) == p
  {
    t := if p == "*" then Star else if p == "/" then Slash else if p == "%" then Pct
      else if p == "#" then Hash else BitAnd;
  }

  lemma SummandOf(p: string) returns (t: Tok)
    requires p in Classes[4]
    ensures Level(t) == 4 && SymbolText(t) == p
  {
    t := if p == "+" then Plus else if p == "-" then Minus else BitOr;
  }

  lemma ShiftOf(p: string) returns (t: Tok)
    requires p in Classes[3]
    ensures Level(t) == 3 && SymbolText(t) == p
  {
    t := if p == "<<" then ShiftL else ShiftR;
  }

  lemma LogicalOf(i: nat, p: string) returns (t: Tok)
    requires i < 2 && p in Classes[i]
    ensures Level(t) == i && SymbolText(t) == p
  {
    t := if i == 0 then LogOr else LogAnd;
  }

  /** The operator that is written so. */
  lemma OperatorOf(i: nat, p: string) returns (t: Tok)
    requires i < 6 && p in Classes[i]
    ensures Level(t) == i && SymbolText(t) == p
  {
    if i < 2 { t := LogicalOf(i, p); }
    else if i == 2 { t := RelationOf(p); }
    else if i == 3 { t := ShiftOf(p); }
    else if i == 4 { t := SummandOf(p); }
    else { t := FactorOf(p); }
  }

  /** x p y q z without blanks. */
  lemma {:induction false} PairWords(ws: seq<DdbLine.Word>, t: Tok, u: Tok, a: Val, b: Val, c: Val, radix: Val)
    requires |ws| == 5 && forall i :: 0 <= i < 5 ==> ws[i].blanks == ""
    requires Level(t) >= 0 && Level(u) >= 0 && Tokens(ws) == [Number(a), t, Number(b), u, Number(c)]
    requires ws[1].text == SymbolText(t) && ws[3].text == SymbolText(u)
    requires SpellsNumber(ws[0].text, a, radix) && SpellsNumber(ws[2].text, b, radix)
    requires SpellsNumber(ws[4].text, c, radix)
    ensures WellWritten(ws, "", radix)
  {
    var ts := Tokens(ws);
    assert ws[0].token == ts[0] && ws[1].token == ts[1] && ws[2].token == ts[2] && ws[3].token == ts[3];
    assert ws[4].token == ts[4];
    FiveAdjacent(ws, radix);
    AdjacentIsWell(ws, radix);
  }

  lemma {:induction false} PairReads(x: string, a: Val, t: Tok, y: string, b: Val, u: Tok, z: string, c: Val,
                                     radix: Val, env: Env)
    requires Level(t) >= 0 && Level(u) >= 0
    requires SpellsNumber(x, a, radix) && SpellsNumber(y, b, radix) && SpellsNumber(z, c, radix)
    ensures Climb(0, Toks(x + SymbolText(t) + y + SymbolText(u) + z, radix), env)
         == From(Value(Pair(t, u, a, b, c), env), [])
  {
    var ws := [Word("", x, Number(a)), Word("", SymbolText(t), t), Word("", y, Number(b)),
               Word("", SymbolText(u), u), Word("", z, Number(c))];
    PairWords(ws, t, u, a, b, c, radix);
    PairShown(t, u, a, b, c);
    FiveTexts(ws);
    LineIs(Pair(t, u, a, b, c), ws, radix, env);
  }

  lemma {:induction false} LineIs(e: Expr, ws: seq<DdbLine.Word>, radix: Val, env: Env)
    requires Good(e) && Tokens(ws) == Show(e, 0) && WellWritten(ws, "", radix)
    ensures Climb(0, Toks(Line(ws), radix), env) == From(Value(e, env), [])
  {
    LineEvaluates(e, ws, "", radix, env);
    assert Line(ws) + "" == Line(ws);
  }

  /** Two operators on a line, typed without blanks: the one of a tighter class goes first, else the
      left one, and the value, if there is one, is what the two mean. */
  lemma {:induction false} TypedPair(x: string, a: Val, p: string, y: string, b: Val, q: string, z: string, c: Val,
                                     i: nat, j: nat, radix: Val, env: Env, v: Val)
    requires i < 6 && j < 6 && p in Classes[i] && q in Classes[j]
    requires SpellsNumber(x, a, radix) && SpellsNumber(y, b, radix) && SpellsNumber(z, c, radix)
    ensures Climb(0, Toks(x + p + y + q + z, radix), env) == Yes(v, []) <==>
      if j > i then exists m: Val :: Means(q, b, c, m) && Means(p, a, m, v)
      else exists m: Val :: Means(p, a, b, m) && Means(q, m, c, v)
  {
    var t := OperatorOf(i, p);
    var u := OperatorOf(j, q);
    PairReads(x, a, t, y, b, u, z, c, radix, env);
    PairValue(t, u, a, b, c, env);
    if j > i { BothMean(u, b, c, t, a, v); } else { ThenMeans(t, a, b, u, c, v); }
  }

  lemma BothMean(u: Tok, b: Val, c: Val, t: Tok, a: Val, v: Val)
    requires Level(t) >= 0 && Level(u) >= 0
    ensures (exists m: Val :: Means(SymbolText(u), b, c, m) && Means(SymbolText(t), a, m, v))
       <==> Apply(u, b, c).Some? && Apply(t, a, Apply(u, b, c).value) == Some(v)
  {
    forall m: Val
      ensures Means(SymbolText(u), b, c, m) <==> Apply(u, b, c) == Some(m)
      ensures Means(SymbolText(t), a, m, v) <==> Apply(t, a, m) == Some(v)
    {
      ApplyMeans(u, b, c, m);
      ApplyMeans(t, a, m, v);
    }
  }

  lemma ThenMeans(t: Tok, a: Val, b: Val, u: Tok, c: Val, v: Val)
    requires Level(t) >= 0 && Level(u) >= 0
    ensures (exists m: Val :: Means(SymbolText(t), a, b, m) && Means(SymbolText(u), m, c, v))
       <==> Apply(t, a, b).Some? && Apply(u, Apply(t, a, b).value, c) == Some(v)
  {
    forall m: Val
      ensures Means(SymbolText(t), a, b, m) <==> Apply(t, a, b) == Some(m)
      ensures Means(SymbolText(u), m, c, v) <==> Apply(u, m, c) == Some(v)
    {
      ApplyMeans(t, a, b, m);
      ApplyMeans(u, m, c, v);
    }
  }

  /** 7-2 and what follows it: subtraction goes on from the left. */
  lemma {:induction false} TypedDifference(x: string, a: Val, y: string, b: Val, z: string, c: Val,
                                           radix: Val, env: Env)
    requires SpellsNumber(x, a, radix) && SpellsNumber(y, b, radix) && SpellsNumber(z, c, radix)
    requires -0x8000_0000 <= a - b < 0x8000_0000 && -0x8000_0000 <= a - b - c < 0x8000_0000
    ensures Climb(0, Toks(x + "-" + y + "-" + z, radix), env) == Yes(a - b - c, [])
  {
    TypedPair(x, a, "-", y, b, "-", z, c, 4, 4, radix, env, a - b - c);
    assert Means("-", a, b, a - b) && Means("-", a - b, c, a - b - c);
  }

  // ------------------------------------------------------------ a prefix operator on a line

  const PrefixOperators: seq<string> := ["-", "!", "~", "*"]

  lemma PrefixOf(p: string) returns (t: Tok)
    requires p in PrefixOperators
    ensures IsUnary(t) && SymbolText(t) == p && forall c :: IsDigit(c) ==> Parts(t, c)
  {
    t := if p == "-" then Minus else if p == "!" then Excl else if p == "~" then BitNot else Star;
  }

  function Prefixed(t: Tok, u: Tok, a: Val, b: Val): (e: Expr)
    requires IsUnary(t) && Level(u) >= 0
    ensures Good(e)
  {
    assert Good(Const(a)) && Good(Const(b));
    assert Good(Prefix(t, Const(a)));
    Binary(u, Prefix(t, Const(a)), Const(b))
  }

  lemma {:induction false} PrefixedShown(t: Tok, u: Tok, a: Val, b: Val)
    requires IsUnary(t) && Level(u) >= 0
    ensures Show(Prefixed(t, u, a, b), 0) == [t, Number(a), u, Number(b)]
  {
    ConstShown(a, 6);
    ConstShown(b, OperandLevel(Level(u)));
    assert Good(Prefix(t, Const(a)));
    assert Show(Prefix(t, Const(a)), Level(u)) == [t, Number(a)];
  }

  lemma {:induction false} PrefixedValue(t: Tok, u: Tok, a: Val, b: Val, env: Env)
    requires IsUnary(t) && Level(u) >= 0
    ensures Value(Prefixed(t, u, a, b), env) ==
      var m := ApplyUnary(t, a, env); if m.None? then None else Apply(u, m.value, b)
  {
    ConstValue(a, env);
    ConstValue(b, env);
    assert Good(Prefix(t, Const(a)));
    assert Value(Prefix(t, Const(a)), env) == ApplyUnary(t, a, env);
  }

  lemma {:induction false} FourTexts(ws: seq<DdbLine.Word>)
    requires |ws| == 4 && forall i :: 0 <= i < 4 ==> ws[i].blanks == ""
    ensures Line(ws) == ws[0].text + ws[1].text + ws[2].text + ws[3].text
  {
    assert Line(ws[4..]) == "";
    assert Line(ws[3..]) == ws[3].text;
    assert Line(ws[2..]) == ws[2].text + Line(ws[3..]);
    assert Line(ws[1..]) == ws[1].text + Line(ws[2..]);
  }

  lemma {:induction false} FourAdjacent(ws: seq<DdbLine.Word>, radix: Val)
    requires |ws| == 4 && forall i :: 0 <= i < 4 ==> ws[i].blanks == ""
    requires IsUnary(ws[0].token) && Level(ws[2].token) >= 0 && forall c :: IsDigit(c) ==> Parts(ws[0].token, c)
    requires ws[0].text == SymbolText(ws[0].token) && ws[2].text == SymbolText(ws[2].token)
    requires ws[1].token.Number? && SpellsNumber(ws[1].text, ws[1].token.value, radix)
    requires ws[3].token.Number? && SpellsNumber(ws[3].text, ws[3].token.value, radix)
    ensures Adjacent(ws, radix)
  {
    AfterNumber(ws[2].token);
    BeforeNumber(ws[2].token, ws[3].text[0]);
  }

  lemma {:induction false} PrefixReads(t: Tok, x: string, a: Val, u: Tok, y: string, b: Val, radix: Val, env: Env)
    requires IsUnary(t) && Level(u) >= 0 && forall c :: IsDigit(c) ==> Parts(t, c)
    requires SpellsNumber(x, a, radix) && SpellsNumber(y, b, radix)
    ensures Climb(0, Toks(SymbolText(t) + x + SymbolText(u) + y, radix), env)
         == From(Value(Prefixed(t, u, a, b), env), [])
  {
    var ws := [Word("", SymbolText(t), t), Word("", x, Number(a)), Word("", SymbolText(u), u), Word("", y, Number(b))];
    FourAdjacent(ws, radix);
    AdjacentIsWell(ws, radix);
    FourTexts(ws);
    PrefixedShown(t, u, a, b);
    LineIs(Prefixed(t, u, a, b), ws, radix, env);
  }

  /** A prefix operator before a binary one is applied first. */
  lemma {:induction false} TypedPrefix(p: string, x: string, a: Val, q: string, y: string, b: Val,
                                       j: nat, radix: Val, env: Env, v: Val)
    requires p in PrefixOperators && j < 6 && q in Classes[j]
    requires SpellsNumber(x, a, radix) && SpellsNumber(y, b, radix)
    ensures Climb(0, Toks(p + x + q + y, radix), env) == Yes(v, [])
       <==> exists m: Val :: MeansPrefix(p, a, m, env) && Means(q, m, b, v)
  {
    var t := PrefixOf(p);
    var u := OperatorOf(j, q);
    PrefixReads(t, x, a, u, y, b, radix, env);
    PrefixedValue(t, u, a, b, env);
    forall m: Val
      ensures MeansPrefix(p, a, m, env) <==> ApplyUnary(t, a, env) == Some(m)
      ensures Means(q, m, b, v) <==> Apply(u, m, b) == Some(v)
    {
      PrefixMeans(t, a, m, env);
      ApplyMeans(u, m, b, v);
    }
  }
}
