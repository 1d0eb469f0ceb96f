/** The debugger's lexical analyser as a function of the characters left in the line. */
module DdbLex {
  import opened DdbExpr

  const TOK_STRING_SIZE := 120

  predicate IsDigit(c: char) { '0' <= c <= '9' }
  predicate IsLetter(c: char) { 'A' <= c <= 'Z' || 'a' <= c <= 'z' }

  /** The digit c stands for in radix r, or -1. */
  function DigitIn(c: char, r: Val): (d: int)
    ensures -1 <= d < 16
  {
    if '0' <= c <= (if r == 8 then '7' else '9') then c as int - '0' as int
    else if r == 16 && 'a' <= c <= 'f' then c as int - 'a' as int + 10
    else if r == 16 && 'A' <= c <= 'F' then c as int - 'A' as int + 10
    else -1
  }

  /** The digits from here on, accumulated in a 32-bit int. */
  function Digits(cs: string, r: Val, acc: Val): (result: (Val, string)) {
    if cs != "" && DigitIn(cs[0], r) >= 0
    then Digits(cs[1..], r, Wrap(Wrap((acc as int) * r) as int + DigitIn(cs[0], r)))
    else (acc, cs)
  }

  /** The radix a number is in, and where its digits start. */
  function Radix(cs: string, radix: Val): (r: (Val, string))
    requires cs != "" && IsDigit(cs[0])
    ensures |r.1| < |cs| || r.1 == cs
  {
    if cs[0] > '0' then (radix, cs)
    else if |cs| > 1 && (cs[1] == 'O' || cs[1] == 'o') then (8, cs[2..])
    else if |cs| > 1 && (cs[1] == 'T' || cs[1] == 't') then (10, cs[2..])
    else if |cs| > 1 && (cs[1] == 'X' || cs[1] == 'x') then (16, cs[2..])
    else (radix, cs[1..])
  }

  function LexNumber(cs: string, radix: Val): (r: (Tok, string))
    requires cs != "" && IsDigit(cs[0])
    ensures |r.1| < |cs| || r.0.Bad?
  {
    var (r, start) := Radix(cs, radix);
    DigitsShorten(start, r, 0);
    var (v, rest) := Digits(start, r, 0);
    if rest != "" && (IsDigit(rest[0]) || IsLetter(rest[0]) || rest[0] == '_') then (Bad, rest) else (Number(v), rest)
  }

  lemma {:induction false} DigitsShorten(cs: string, r: Val, acc: Val)
    ensures |Digits(cs, r, acc).1| <= |cs|
    ensures cs != "" && DigitIn(cs[0], r) >= 0 ==> |Digits(cs, r, acc).1| < |cs|
    ensures cs != "" && DigitIn(cs[0], r) < 0 ==> Digits(cs, r, acc).1 == cs
    decreases |cs|
  {
    if cs != "" && DigitIn(cs[0], r) >= 0 {
      DigitsShorten(cs[1..], r, Wrap(Wrap((acc as int) * r) as int + DigitIn(cs[0], r)));
    }
  }

  predicate IdentChar(c: char) { IsLetter(c) || IsDigit(c) || c == '_' || c == ':' || c == '.' }

  /** The rest of an identifier that began as name. */
  function LexIdent(cs: string, name: string): (r: (Tok, string))
    ensures |r.1| <= |cs| && (r.0.Ident? || r.0.Bad?)
    decreases |cs|
  {
    if cs != "" && cs[0] == '\\' then
      if |cs| == 1 || cs[1] == '\n' || |name| + 1 == TOK_STRING_SIZE then (Bad, "")
      else LexIdent(cs[2..], name + [cs[1]])
    else if cs != "" && IdentChar(cs[0]) then
      if |name| + 1 == TOK_STRING_SIZE then (Bad, "") else LexIdent(cs[1..], name + [cs[0]])
    else (Ident(name), cs)
  }

  /** A token of two characters if the second is next, else the token of one. */
  function Double(cs: string, second: char, two: Tok, one: (Tok, string)): (r: (Tok, string))
    requires cs != ""
  {
    if |cs| > 1 && cs[1] == second then (two, cs[2..]) else one
  }

  function LexSymbol(cs: string): (r: (Tok, string))
    requires cs != ""
    ensures |r.1| < |cs| && !r.0.EOL? && !r.0.Bad? && !r.0.Number? && !r.0.Ident?
  {
    var rest := cs[1..];
    match cs[0]
    case '+' => (Plus, rest)
    case '-' => (Minus, rest)
    case '.' => Double(cs, '.', DotDot, (Dot, rest))
    case '*' => (Star, rest)
    case '/' => (Slash, rest)
    case '=' => Double(cs, '=', LogEq, (Eq, rest))
    case '%' => (Pct, rest)
    case '#' => (Hash, rest)
    case '(' => (LParen, rest)
    case ')' => (RParen, rest)
    case ',' => (Comma, rest)
    case '"' => (Ditto, rest)
    case '$' => (Dollar, rest)
    case '!' => Double(cs, '=', LogNotEq, (Excl, rest))
    case ';' => (Semi, rest)
    case '&' => Double(cs, '&', LogAnd, (BitAnd, rest))
    case '|' => Double(cs, '|', LogOr, (BitOr, rest))
    case '<' => Double(cs, '<', ShiftL, Double(cs, '=', LessEq, (Less, rest)))
    case '>' => Double(cs, '>', ShiftR, Double(cs, '=', GreaterEq, (Greater, rest)))
    case '?' => (Question, rest)
    case '~' => (BitNot, rest)
    case _ => (EOF, "")
  }

  /** db_lex: the next token and the characters after it.  A character that starts no token
      discards the rest of the line. */
  function Lex(cs: string, radix: Val): (r: (Tok, string))
    ensures |r.1| < |cs| || r.0.EOL? || r.0.Bad?
    decreases |cs|
  {
    if cs == "" then (EOL, "")
    else if cs[0] == '\n' then (EOL, cs[1..])
    else if cs[0] <= ' ' || cs[0] > '~' then Lex(cs[1..], radix)
    else if IsDigit(cs[0]) then LexNumber(cs, radix)
    else if cs[0] == '\\' then
      if |cs| == 1 || cs[1] == '\n' then (Bad, "") else LexIdent(cs[2..], [cs[1]])
    else if IsLetter(cs[0]) || cs[0] == '_' then LexIdent(cs[1..], [cs[0]])
    else LexSymbol(cs)
  }

  /** The tokens up to the end of the line, or up to an error. */
  function Toks(cs: string, radix: Val): (r: seq<Tok>)
    decreases |cs|
  {
    var (t, rest) := Lex(cs, radix);
    if t.EOL? then [] else if t.Bad? then [Bad] else [t] + Toks(rest, radix)
  }
}
