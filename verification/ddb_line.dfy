/** Lines as they are typed: the ways a token can be written, what may follow it without a blank,
    and what the lexical analyser and the evaluator make of such a line. */
module DdbLine {
  import opened Basics
  import opened DdbExpr
  import opened DdbParse
  import opened DdbLex

  // ------------------------------------------------------------ writing tokens

  predicate AllDigits(ds: string, r: Val) { forall i :: 0 <= i < |ds| ==> DigitIn(ds[i], r) >= 0 }

  /** The number that digits stand for in radix r. */
  function ValueOf(ds: string, r: Val): (n: int) {
    if ds == "" then 0 else ValueOf(ds[..|ds| - 1], r) * r + DigitIn(ds[|ds| - 1], r)
  }

  /** Digits, with or without a prefix that gives the radix, for n modulo 2^32. */
  predicate SpellsNumber(text: string, n: Val, radix: Val) {
    text != "" && IsDigit(text[0])
    && var (r, ds) := Radix(text, radix); AllDigits(ds, r) && Wrap(ValueOf(ds, r)) == n
  }

  /** A character of a name, escaped if it could not stand there by itself. */
  function Escaped(c: char, first: bool): (r: string) {
    if IsLetter(c) || c == '_' || (!first && IdentChar(c)) then [c] else ['\\', c]
  }

  function NameText(name: string): (r: string) {
    if name == "" then "" else Escaped(name[0], true) + Continued(name[1..])
  }

  function Continued(s: string): (r: string) {
    if s == "" then "" else Escaped(s[0], false) + Continued(s[1..])
  }

  predicate OneLine(s: string) { forall i :: 0 <= i < |s| ==> s[i] != '\n' }

  /** Names the analyser has room for. */
  predicate NameFits(name: string) {
    0 < |name| < 120 && OneLine(name)
  }

  predicate IsSymbol(t: Tok) { !t.EOF? && !t.EOL? && !t.Bad? && !t.Ident? && !t.Number? }

  function SymbolText(t: Tok): (r: string) {
    match t
    case Plus => "+"
    case Minus => "-"
    case Dot => "."
    case Star => "*"
    case Slash => "/"
    case LParen => "("
    case RParen => ")"
    case Pct => "%"
    case Hash => "#"
    case Ditto => "\""
    case Dollar => "$"
    case Excl => "!"
    case ShiftL => "<<"
    case ShiftR => ">>"
    case DotDot => ".."
    case LogEq => "=="
    case LogNotEq => "!="
    case Less => "<"
    case LessEq => "<="
    case Greater => ">"
    case GreaterEq => ">="
    case BitAnd => "&"
    case BitOr => "|"
    case LogAnd => "&&"
    case LogOr => "||"
    case BitNot => "~"
    case Eq => "="
    case Comma => ","
    case Semi => ";"
    case Question => "?"
    case _ => ""
  }

  /** The text is one way to write the token. */
  predicate Spells(text: string, t: Tok, radix: Val) {
    match t
    case Number(n) => SpellsNumber(text, n, radix)
    case Ident(name) => NameFits(name) && text == NameText(name)
    case _ => IsSymbol(t) && text == SymbolText(t)
  }

  /** The character c does not go on with a token t before it. */
  predicate Parts(t: Tok, c: char) {
    match t
    case Number(_) => !IsDigit(c) && !IsLetter(c) && c != '_'
    case Ident(_) => !IdentChar(c) && c != '\\'
    case Dot => c != '.'
    case Eq | Excl => c != '='
    case BitAnd => c != '&'
    case BitOr => c != '|'
    case Less => c != '<' && c != '='
    case Greater => c != '>' && c != '='
    case _ => true
  }

  predicate PartsFrom(t: Tok, rest: string) { rest == "" || Parts(t, rest[0]) }

  // ------------------------------------------------------------ reading one token

  lemma WrapTimes(m: int, r: Val, d: int)
    ensures Wrap(Wrap((Wrap(m) as int) * r) as int + d) == Wrap(m * r + d)
  {
    var q, p := (m + 0x8000_0000) / 0x1_0000_0000, (Wrap(m) as int) * r;
    assert m == Wrap(m) as int + 0x1_0000_0000 * q;
    assert m * r == p + 0x1_0000_0000 * (q * r);
    WrapShifts(p + d, q * r);
    var q' := (p + 0x8000_0000) / 0x1_0000_0000;
    assert p == Wrap(p) as int + 0x1_0000_0000 * q';
    WrapShifts(Wrap(p) as int + d, q');
  }

  lemma WrapShifts(x: int, q: int)
    ensures Wrap(x + 0x1_0000_0000 * q) == Wrap(x)
  {
    assert (x + 0x1_0000_0000 * q + 0x8000_0000) % 0x1_0000_0000 == (x + 0x8000_0000) % 0x1_0000_0000;
  }

  lemma DigitTaken(c: char, rest: string, r: Val, m: int)
    requires DigitIn(c, r) >= 0
    ensures Digits([c] + rest, r, Wrap(m)) == Digits(rest, r, Wrap(m * r + DigitIn(c, r)))
  {
    assert ([c] + rest)[1..] == rest;
    WrapTimes(m, r, DigitIn(c, r));
  }

  /** Digits are read as the number they stand for, modulo 2^32. */
  lemma {:induction false} DigitsRead(ds: string, rest: string, r: Val)
    requires AllDigits(ds, r)
    ensures Digits(ds + rest, r, 0) == Digits(rest, r, Wrap(ValueOf(ds, r)))
    decreases |ds|
  {
    if ds == "" {
      assert ds + rest == rest;
    } else {
      var front, c := ds[..|ds| - 1], ds[|ds| - 1];
      DigitsRead(front, [c] + rest, r);
      assert ds + rest == front + ([c] + rest);
      DigitTaken(c, rest, r, ValueOf(front, r));
    }
  }

  lemma {:induction false} RadixStays(text: string, rest: string, radix: Val)
    requires text != "" && IsDigit(text[0]) && (rest == "" || !IsLetter(rest[0]))
    ensures Radix(text + rest, radix) == (Radix(text, radix).0, Radix(text, radix).1 + rest)
  {
    var cs := text + rest;
    assert cs[1..] == text[1..] + rest;
    if |text| > 1 { assert cs[2..] == text[2..] + rest; }
  }

  lemma {:induction false} NumberReads(text: string, n: Val, rest: string, radix: Val)
    requires SpellsNumber(text, n, radix) && PartsFrom(Number(n), rest)
    ensures Lex(text + rest, radix) == (Number(n), rest)
  {
    var (r, ds) := Radix(text, radix);
    RadixStays(text, rest, radix);
    DigitsRead(ds, rest, r);
    DigitsShorten(rest, r, n);
    assert Lex(text + rest, radix) == LexNumber(text + rest, radix);
  }

  lemma {:induction false} ContinuedReads(s: string, name: string, rest: string)
    requires |name| + |s| < TOK_STRING_SIZE && OneLine(s)
    ensures LexIdent(Continued(s) + rest, name) == LexIdent(rest, name + s)
    decreases |s|
  {
    var cs := Continued(s) + rest;
    if s == "" {
      assert name + s == name && cs == rest;
    } else {
      ContinuedReads(s[1..], name + [s[0]], rest);
      var e := Escaped(s[0], false);
      assert cs == e + (Continued(s[1..]) + rest);
      assert cs[|e|..] == Continued(s[1..]) + rest;
      assert name + [s[0]] + s[1..] == name + s;
    }
  }

  lemma {:induction false} FirstReads(c: char, cs: string, radix: Val)
    requires c != '\n'
    ensures Lex(Escaped(c, true) + cs, radix) == LexIdent(cs, [c])
  {
    var e := Escaped(c, true);
    assert (e + cs)[|e|..] == cs;
  }

  lemma {:induction false} NameReads(name: string, rest: string, radix: Val)
    requires NameFits(name)
    ensures Lex(NameText(name) + rest, radix) == LexIdent(rest, name)
  {
    var more := Continued(name[1..]) + rest;
    FirstReads(name[0], more, radix);
    assert NameText(name) + rest == Escaped(name[0], true) + more;
    ContinuedReads(name[1..], [name[0]], rest);
    assert [name[0]] + name[1..] == name;
  }

  lemma {:induction false} SymbolReads(t: Tok, rest: string, radix: Val)
    requires IsSymbol(t)
    ensures Lex(SymbolText(t) + rest, radix) == (t, rest) <==> PartsFrom(t, rest)
  {
    var cs := SymbolText(t) + rest;
    assert Lex(cs, radix) == LexSymbol(cs);
    if |SymbolText(t)| == 1 { OneReads(t, rest); } else { TwoRead(t, rest); }
  }

  lemma OneReads(t: Tok, rest: string)
    requires IsSymbol(t) && |SymbolText(t)| == 1
    ensures LexSymbol(SymbolText(t) + rest) == (t, rest) <==> PartsFrom(t, rest)
  {
    var cs := SymbolText(t) + rest;
    assert cs[1..] == rest;
  }

  lemma TwoRead(t: Tok, rest: string)
    requires IsSymbol(t) && |SymbolText(t)| == 2
    ensures LexSymbol(SymbolText(t) + rest) == (t, rest)
  {
    var cs := SymbolText(t) + rest;
    assert cs[2..] == rest;
  }

  /** A token is read as written if and only if what follows does not go on with it. */
  lemma {:induction false} TokenReadsIff(text: string, t: Tok, rest: string, radix: Val)
    requires Spells(text, t, radix)
    ensures Lex(text + rest, radix) == (t, rest) <==> PartsFrom(t, rest)
  {
    match t
    case Number(n) => if PartsFrom(t, rest) { NumberReads(text, n, rest, radix); }
    case Ident(name) => NameReads(name, rest, radix);
    case _ => SymbolReads(t, rest, radix);
  }

  // ------------------------------------------------------------ reading lines

  /** Characters passed over between tokens. */
  predicate Blank(s: string) { forall i :: 0 <= i < |s| ==> (s[i] <= ' ' || s[i] > '~') && s[i] != '\n' }

  /** A token as it stands in a line, with the blanks before it. */
  datatype Word = Word(blanks: string, text: string, token: Tok)

  function Line(ws: seq<Word>): (r: string) {
    if ws == [] then "" else ws[0].blanks + (ws[0].text + Line(ws[1..]))
  }

  function Tokens(ws: seq<Word>): (r: seq<Tok>) { seq(|ws|, i requires 0 <= i < |ws| => ws[i].token) }

  /** Every word spells its token and is parted from what follows, by blanks or without. */
  predicate WellWritten(ws: seq<Word>, rest: string, radix: Val) {
    ws == [] ||
    (Blank(ws[0].blanks) && Spells(ws[0].text, ws[0].token, radix)
     && PartsFrom(ws[0].token, Line(ws[1..]) + rest)
     && WellWritten(ws[1..], rest, radix))
  }

  lemma {:induction false} BlanksSkipped(blanks: string, rest: string, radix: Val)
    requires Blank(blanks)
    ensures Lex(blanks + rest, radix) == Lex(rest, radix)
    decreases |blanks|
  {
    if blanks == "" {
      assert blanks + rest == rest;
    } else {
      BlanksSkipped(blanks[1..], rest, radix);
      assert (blanks + rest)[1..] == blanks[1..] + rest;
    }
  }

  lemma {:induction false} WordReads(w: Word, rest: string, radix: Val)
    requires Blank(w.blanks) && Spells(w.text, w.token, radix) && PartsFrom(w.token, rest)
    ensures Toks(w.blanks + (w.text + rest), radix) == [w.token] + Toks(rest, radix)
  {
    BlanksSkipped(w.blanks, w.text + rest, radix);
    TokenReadsIff(w.text, w.token, rest, radix);
  }

  lemma {:induction false} LineSplits(ws: seq<Word>, rest: string)
    requires ws != []
    ensures Line(ws) + rest == ws[0].blanks + (ws[0].text + (Line(ws[1..]) + rest))
  {}

  lemma HeadBack(ws: seq<Word>, us: seq<Tok>)
    requires ws != []
    ensures [ws[0].token] + (Tokens(ws[1..]) + us) == Tokens(ws) + us
  {}

  /** The words of a line are read as their tokens, whatever follows. */
  lemma {:induction false} LineReads(ws: seq<Word>, rest: string, radix: Val)
    requires WellWritten(ws, rest, radix)
    ensures Toks(Line(ws) + rest, radix) == Tokens(ws) + Toks(rest, radix)
    decreases |ws|
  {
    if ws == [] {
      assert Line(ws) + rest == rest;
    } else {
      LineReads(ws[1..], rest, radix);
      WordReads(ws[0], Line(ws[1..]) + rest, radix);
      LineSplits(ws, rest);
      HeadBack(ws, Toks(rest, radix));
    }
  }

  // ------------------------------------------------------------ lines with expressions

  /** A line that begins with an expression, with any blanks and numbers in any form: its value is
      found, and what comes after it is left unread. */
  lemma {:induction false} LineEvaluates(e: Expr, ws: seq<Word>, rest: string, radix: Val, env: Env)
    requires Good(e) && Tokens(ws) == Show(e, 0) && WellWritten(ws, rest, radix)
    requires var next := Head(Toks(rest, radix)); Level(next) == -1 && !next.Bad?
    ensures Climb(0, Toks(Line(ws) + rest, radix), env) == From(Value(e, env), Toks(rest, radix))
  {
    LineReads(ws, rest, radix);
    Evaluates(e, Toks(rest, radix), env);
  }

  // ------------------------------------------------------------ every expression has a line

  function HexDigit(d: nat): (c: char)
    requires d < 16
    ensures DigitIn(c, 16) == d
  {
    if d < 10 then (d + 48) as char else (d + 87) as char
  }

  function Hex(n: nat): (s: string)
    decreases n
  {
    if n < 16 then [HexDigit(n)] else Hex(n / 16) + [HexDigit(n % 16)]
  }

  lemma {:induction false} HexIsValue(n: nat)
    ensures Hex(n) != "" && AllDigits(Hex(n), 16) && ValueOf(Hex(n), 16) == n
    decreases n
  {
    if n < 16 {
      assert ValueOf(Hex(n)[..0], 16) == 0;
    } else {
      HexIsValue(n / 16);
      assert Hex(n)[..|Hex(n)| - 1] == Hex(n / 16);
    }
  }

  predicate Writable(t: Tok) { t.Number? || (t.Ident? && NameFits(t.name)) || IsSymbol(t) }

  predicate AllWritable(ts: seq<Tok>) { forall i :: 0 <= i < |ts| ==> Writable(ts[i]) }

  /** A token as text that is right in every radix. */
  function Render(t: Tok): (r: string) {
    match t
    case Number(n) => "0x" + Hex(Unsigned(n))
    case Ident(name) => NameText(name)
    case _ => SymbolText(t)
  }

  lemma {:induction false} HexSpells(n: Val, radix: Val)
    ensures SpellsNumber("0x" + Hex(Unsigned(n)), n, radix)
  {
    var ds := Hex(Unsigned(n));
    HexIsValue(Unsigned(n));
    var text := "0x" + ds;
    assert text[0] == '0' && text[1] == 'x' && text[2..] == ds;
    assert Radix(text, radix) == (16, ds);
  }

  lemma {:induction false} RenderSpells(t: Tok, radix: Val)
    requires Writable(t)
    ensures Spells(Render(t), t, radix)
  {
    if t.Number? { HexSpells(t.value, radix); }
  }

  /** Words with the given blanks before the first and a space before each of the others. */
  function Spaced(ts: seq<Tok>, first: string): (ws: seq<Word>) {
    if ts == [] then [] else [Word(first, Render(ts[0]), ts[0])] + Spaced(ts[1..], " ")
  }

  lemma {:induction false} SpaceParts(t: Tok, ts: seq<Tok>, rest: string)
    requires rest == "" || rest[0] <= ' '
    ensures PartsFrom(t, Line(Spaced(ts, " ")) + rest)
  {
    if ts != [] { assert Line(Spaced(ts, " "))[0] == ' '; }
  }

  /** Every sequence of tokens can be written as a line. */
  lemma {:induction false} SpacedIsWell(ts: seq<Tok>, first: string, rest: string, radix: Val)
    requires AllWritable(ts) && Blank(first) && (rest == "" || rest[0] <= ' ')
    ensures WellWritten(Spaced(ts, first), rest, radix) && Tokens(Spaced(ts, first)) == ts
    decreases |ts|
  {
    if ts != [] {
      SpacedIsWell(ts[1..], " ", rest, radix);
      RenderSpells(ts[0], radix);
      SpaceParts(ts[0], ts[1..], rest);
      assert Spaced(ts, first)[1..] == Spaced(ts[1..], " ");
      assert Tokens(Spaced(ts, first)) == [ts[0]] + Tokens(Spaced(ts[1..], " "));
    }
  }

  /** Expressions whose names fit. */
  predicate Named(e: Expr) {
    match e
    case Symbol(s) => NameFits(s)
    case Variable(s) => NameFits(s)
    case Prefix(_, x) => Named(x)
    case Binary(_, l, r) => Named(l) && Named(r)
    case _ => true
  }

  lemma {:induction false} ShowWritable(e: Expr, k: nat)
    requires Good(e) && Named(e) && k <= 7
    ensures AllWritable(Show(e, k))
    decreases e
  {
    match e
    case Prefix(t, x) => ShowWritable(x, 6);
    case Binary(t, l, r) =>
      ShowWritable(l, Level(t));
      ShowWritable(r, OperandLevel(Level(t)));
    case _ =>
  }

  /** Every expression whose names fit can be written on a line, and its value is found there. */
  lemma {:induction false} ExpressionHasALine(e: Expr, rest: string, radix: Val, env: Env)
    requires Good(e) && Named(e) && (rest == "" || rest[0] <= ' ')
    requires var next := Head(Toks(rest, radix)); Level(next) == -1 && !next.Bad?
    ensures Climb(0, Toks(Line(Spaced(Show(e, 0), "")) + rest, radix), env) == From(Value(e, env), Toks(rest, radix))
  {
    ShowWritable(e, 0);
    SpacedIsWell(Show(e, 0), "", rest, radix);
    LineEvaluates(e, Spaced(Show(e, 0), ""), rest, radix, env);
  }

  // ------------------------------------------------------------ a line without blanks

  /** Every word spells its token, without blanks, and does not go on with the one before it. */
  predicate Adjacent(ws: seq<Word>, radix: Val) {
    (forall i :: 0 <= i < |ws| ==> ws[i].blanks == "" && ws[i].text != "" && Spells(ws[i].text, ws[i].token, radix))
    && forall i :: 1 <= i < |ws| ==> PartsFrom(ws[i - 1].token, ws[i].text)
  }

  lemma {:induction false} LineBegins(ws: seq<Word>)
    requires ws != [] && ws[0].blanks == "" && ws[0].text != ""
    ensures Line(ws) != "" && Line(ws)[0] == ws[0].text[0]
  {}

  lemma {:induction false} AdjacentIsWell(ws: seq<Word>, radix: Val)
    requires Adjacent(ws, radix)
    ensures WellWritten(ws, "", radix)
    decreases |ws|
  {
    if ws != [] {
      AdjacentIsWell(ws[1..], radix);
      assert Line(ws[1..]) + "" == Line(ws[1..]);
      if |ws| > 1 {
        assert PartsFrom(ws[0].token, ws[1].text);
        LineBegins(ws[1..]);
      }
    }
  }

  lemma {:induction false} LineGives(e: Expr, ws: seq<Word>, v: Val, radix: Val, env: Env)
    requires Good(e) && Value(e, env) == Some(v) && Tokens(ws) == Show(e, 0) && WellWritten(ws, "", radix)
    ensures Climb(0, Toks(Line(ws), radix), env) == Yes(v, [])
  {
    LineEvaluates(e, ws, "", radix, env);
    assert Line(ws) + "" == Line(ws);
  }

  lemma {:induction false} ConstShown(n: Val, k: nat)
    requires k <= 7
    ensures Good(Const(n)) && Show(Const(n), k) == [Number(n)]
  {
    assert LevelOf(Const(n)) == 7 && Bare(Const(n)) == [Number(n)];
  }

  lemma {:induction false} ConstValue(n: Val, env: Env)
    ensures Good(Const(n)) && Value(Const(n), env) == Some(n)
  {}

  /** Two numbers and an operator. */
  function Two(t: Tok, a: Val, b: Val): (e: Expr)
    requires Level(t) >= 0
    ensures Good(e)
  {
    assert Good(Const(a)) && Good(Const(b));
    Binary(t, Const(a), Const(b))
  }

  lemma {:induction false} TwoShown(t: Tok, k: nat, a: Val, b: Val)
    requires Level(t) >= k && k <= 5
    ensures Show(Two(t, a, b), k) == [Number(a), t, Number(b)]
  {
    ConstShown(a, Level(t));
    ConstShown(b, OperandLevel(Level(t)));
  }

  lemma {:induction false} TwoValue(t: Tok, a: Val, b: Val, env: Env)
    requires Level(t) >= 0
    ensures Value(Two(t, a, b), env) == Apply(t, a, b)
  {
    ConstValue(a, env);
    ConstValue(b, env);
  }

  function Sum(a: Val, b: Val, c: Val): (e: Expr)
    ensures Good(e)
  {
    assert Good(Const(a));
    Binary(Plus, Const(a), Two(Star, b, c))
  }

  lemma {:induction false} SumShown(a: Val, b: Val, c: Val)
    ensures Show(Sum(a, b, c), 0) == [Number(a), Plus, Number(b), Star, Number(c)]
  {
    TwoShown(Star, 5, b, c);
    ConstShown(a, 4);
  }

  lemma {:induction false} SumValue(a: Val, b: Val, c: Val, env: Env)
    ensures Value(Sum(a, b, c), env) == Some(Wrap(a + Wrap(b * c)))
  {
    TwoValue(Star, b, c, env);
    ConstValue(a, env);
  }

  /** What is typed without blanks, as 2+3*4 is: the operators keep their precedence. */
  lemma {:induction false} TypedTogether(x: string, a: Val, y: string, b: Val, z: string, c: Val, radix: Val, env: Env)
    requires SpellsNumber(x, a, radix) && SpellsNumber(y, b, radix) && SpellsNumber(z, c, radix)
    ensures Climb(0, Toks(x + "+" + y + "*" + z, radix), env) == Yes(Wrap(a + Wrap(b * c)), [])
  {
    var ws := [Word("", x, Number(a)), Word("", "+", Plus), Word("", y, Number(b)),
               Word("", "*", Star), Word("", z, Number(c))];
    FiveAdjacent(ws, radix);
    AdjacentIsWell(ws, radix);
    FiveTexts(ws);
    SumShown(a, b, c);
    SumValue(a, b, c, env);
    LineGives(Sum(a, b, c), ws, Wrap(a + Wrap(b * c)), radix, env);
  }

  /** Numbers with operators between them. */
  lemma {:induction false} FiveAdjacent(ws: seq<Word>, radix: Val)
    requires |ws| == 5 && forall i :: 0 <= i < 5 ==> ws[i].blanks == ""
    requires forall i :: 0 <= i < 5 && i % 2 == 1 ==> Level(ws[i].token) >= 0 && ws[i].text == SymbolText(ws[i].token)
    requires forall i :: 0 <= i < 5 && i % 2 == 0 ==>
      ws[i].token.Number? && SpellsNumber(ws[i].text, ws[i].token.value, radix)
    ensures Adjacent(ws, radix)
  {
    forall i | 0 <= i < 5 ensures ws[i].text != "" && Spells(ws[i].text, ws[i].token, radix) {}
    forall i | 1 <= i < 5 ensures PartsFrom(ws[i - 1].token, ws[i].text) {
      if i % 2 == 0 { BeforeNumber(ws[i - 1].token, ws[i].text[0]); } else { AfterNumber(ws[i].token); }
    }
  }

  lemma BeforeNumber(t: Tok, c: char)
    requires Level(t) >= 0 && IsDigit(c)
    ensures Parts(t, c)
  {}

  lemma AfterNumber(t: Tok)
    requires Level(t) >= 0
    ensures SymbolText(t) != "" && forall n: Val :: Parts(Number(n), SymbolText(t)[0])
  {}

  lemma {:induction false} FiveTexts(ws: seq<Word>)
    requires |ws| == 5 && forall i :: 0 <= i < 5 ==> ws[i].blanks == ""
    ensures Line(ws) == ws[0].text + ws[1].text + ws[2].text + ws[3].text + ws[4].text
  {
    assert Line(ws[5..]) == "";
    assert Line(ws[4..]) == ws[4].text;
    assert Line(ws[3..]) == ws[3].text + Line(ws[4..]);
    assert Line(ws[2..]) == ws[2].text + Line(ws[3..]);
    assert Line(ws[1..]) == ws[1].text + Line(ws[2..]);
  }
}
