/** The debugger's reader as the program has it: a pointer into the line, one character and one
    token that can be put back, and the mutually recursive evaluator over them. */
module DdbReader {
  import opened DdbExpr
  import opened DdbLex

  /** A line as the line editor leaves it: no character is zero, a newline only ends it. */
  predicate Plain(line: string) {
    forall i :: 0 <= i < |line| ==> 0 < line[i] as int < 127 && (line[i] == '\n' ==> i == |line| - 1)
  }

  /** A character read, or -1, put before those that follow it. */
  function Before(c: int, cs: string): (r: string)
    requires -1 <= c < 127
  {
    if c == -1 then cs else [c as char] + cs
  }

  /** A token's kind together with the value the lexer left aside. */
  function Whole(kind: Tok, number: Val, name: string): (r: Tok) {
    match kind case Number(_) => Number(number) case Ident(_) => Ident(name) case _ => kind
  }

  class Lexer {
    const line: string
    const radix: Val
    var lp: nat
    var lookChar: int
    var tokNumber: Val
    var tokString: string

    constructor (line: string, radix: Val)
      requires Plain(line)
      ensures Valid() && Chars() == line && this.line == line && this.radix == radix
    {
      this.line, this.radix := line, radix;
      lp, lookChar, tokNumber, tokString := 0, 0, 0, "";
    }

    ghost predicate Valid()
      reads `lp, `lookChar
    {
      && Plain(line) && lp <= |line| && -1 <= lookChar < 127 && (lookChar == -1 ==> lp == |line|)
      && (lookChar == 10 ==> lp == |line|)
    }

    /** The characters still to be read. */
    ghost function Chars(): (r: string)
      requires Valid()
      reads `lp, `lookChar
    {
      if lookChar == 0 then line[lp..] else Before(lookChar, line[lp..])
    }

    /** c has been read and may be put back: the place for it is free. */
    ghost predicate InHand(c: int)
      reads `lp, `lookChar
    {
      Valid() && lookChar == 0 && -1 <= c < 127 && c != 0 && (c == -1 || c == 10 ==> lp == |line|)
    }

    /** The characters from the one in hand on. */
    ghost function From(c: int): (r: string)
      requires InHand(c)
      reads `lp, `lookChar
    {
      Before(c, Chars())
    }

    method ReadChar() returns (c: int)
      requires Valid()
      modifies `lp, `lookChar
      ensures InHand(c)
      ensures c == -1 <==> old(Chars()) == ""
      ensures old(Chars()) == From(c)
    {
      if lookChar != 0 {
        c := lookChar;
        lookChar := 0;
      } else if lp >= |line| {
        c := -1;
      } else {
        c := line[lp] as int;
        lp := lp + 1;
      }
    }

    /** Puts a character back; the place for it must be free. */
    method UnreadChar(c: int)
      requires InHand(c)
      modifies `lookChar
      ensures Valid() && Chars() == Before(c, old(Chars()))
    {
      lookChar := c;
    }

    /** The digits of a number, from first on. */
    method ReadDigits(r: Val, first: int) returns (c: int)
      requires InHand(first)
      modifies `lp, `lookChar, `tokNumber
      ensures InHand(c)
      ensures (tokNumber, From(c)) == Digits(old(From(first)), r, 0)
    {
      ghost var goal := Digits(From(first), r, 0);
      tokNumber := 0;
      c := first;
      while c != -1 && DigitIn(c as char, r) >= 0
        invariant InHand(c)
        invariant Digits(From(c), r, tokNumber) == goal
        decreases |line| - lp, c != -1
      {
        DigitTaken(c as char, Chars(), r, tokNumber);
        tokNumber := Wrap(Wrap((tokNumber as int) * r) as int + DigitIn(c as char, r));
        c := ReadChar();
      }
      DigitsEnd(c, Chars(), r, tokNumber);
    }

    /** The radix a number is in, and the character after its prefix. */
    method Prefix(first: int) returns (c: int, r: Val)
      requires InHand(first) && first != -1 && IsDigit(first as char)
      modifies `lp, `lookChar
      ensures InHand(c) && (r, From(c)) == Radix(old(From(first)), radix)
    {
      c, r := first, radix;
      ghost var cs := Chars();
      if c <= '0' as int {
        c := ReadChar();
        RadixOf(first as char, cs, radix);
        if c == 'O' as int || c == 'o' as int {
          r := 8;
        } else if c == 'T' as int || c == 't' as int {
          r := 10;
        } else if c == 'X' as int || c == 'x' as int {
          r := 16;
        } else {
          UnreadChar(c);
        }
        c := ReadChar();
      }
    }

    /** A number that begins with the digit first. */
    method Number(first: int) returns (t: Tok)
      requires InHand(first) && first != -1 && IsDigit(first as char)
      modifies `lp, `lookChar, `tokNumber
      ensures Valid() && Gives(t, LexNumber(old(From(first)), radix))
    {
      var c, r := Prefix(first);
      c := ReadDigits(r, c);
      if c != -1 && (IsDigit(c as char) || IsLetter(c as char) || c == '_' as int) { return Bad; }
      UnreadChar(c);
      t := Tok.Number(0);
    }

    /** t, with the value beside it, and the characters left are what the specification says. */
    ghost predicate Gives(t: Tok, r: (Tok, string))
      requires Valid()
      reads `lp, `lookChar, `tokNumber, `tokString
    {
      (t.Bad? <==> r.0.Bad?) && (!t.Bad? ==> (Whole(t, tokNumber, tokString), Chars()) == r)
    }

    /** An identifier, from its first character or from a backslash on. */
    method Identifier(first: int) returns (t: Tok)
      requires InHand(first) && first != -1 && (IsLetter(first as char) || first == '_' as int || first == '\\' as int)
      modifies `lp, `lookChar, `tokString
      ensures Valid() && Gives(t, Lex(old(From(first)), radix))
    {
      var c := first;
      ghost var cs := Chars();
      IdentStarts(first as char, cs, radix);
      if c == '\\' as int {
        c := ReadChar();
        if c == 10 || c == -1 { return Bad; }
      }
      tokString := [c as char];
      t := MoreOfName();
    }

    /** One character of a name: stored, and the next one read.  Not ok for a bad escape or a
        name that is too long. */
    method TakeOfName(first: int) returns (ok: bool, c: int)
      requires InHand(first) && first != -1 && (IdentChar(first as char) || first == '\\' as int)
      modifies `lp, `lookChar, `tokString
      ensures Valid() && (!ok ==> LexIdent(old(From(first)), old(tokString)).0.Bad?)
      ensures ok ==> InHand(c) && LexIdent(From(c), tokString) == LexIdent(old(From(first)), old(tokString))
      ensures ok ==> lp > old(lp) || (lp == old(lp) && c == -1)
    {
      ghost var cs := Chars();
      IdentTaken(first as char, cs, tokString);
      c := first;
      if c == '\\' as int {
        c := ReadChar();
        BeforeParts(c, Chars());
        if c == 10 || c == -1 { return false, c; }
      }
      tokString := tokString + [c as char];
      if |tokString| == TOK_STRING_SIZE { return false, c; }
      c := ReadChar();
      ok := true;
    }

    method MoreOfName() returns (t: Tok)
      requires Valid() && lookChar == 0
      modifies `lp, `lookChar, `tokString
      ensures Valid() && Gives(t, LexIdent(old(Chars()), old(tokString)))
    {
      ghost var goal := LexIdent(Chars(), tokString);
      var c := ReadChar();
      while c != -1 && (IdentChar(c as char) || c == '\\' as int)
        invariant InHand(c)
        invariant LexIdent(From(c), tokString) == goal
        decreases |line| - lp, c != -1
      {
        var ok;
        ok, c := TakeOfName(c);
        if !ok { return Bad; }
      }
      t := EndName(c);
    }

    method EndName(c: int) returns (t: Tok)
      requires InHand(c) && (c == -1 || (!IdentChar(c as char) && c != '\\' as int))
      modifies `lookChar
      ensures Valid() && Gives(t, LexIdent(old(From(c)), tokString))
    {
      IdentEnd(c, Chars(), tokString);
      UnreadChar(c);
      t := Ident("");
    }

    /** The token two if the next character is second, else one. */
    method Second(second: char, two: Tok, one: Tok) returns (t: Tok)
      requires Valid() && lookChar == 0
      modifies `lp, `lookChar
      ensures Valid() && (t, Chars()) == SecondOf(old(Chars()), second, two, (one, old(Chars())))
    {
      var c := ReadChar();
      BeforeParts(c, Chars());
      if c == second as int { return two; }
      UnreadChar(c);
      t := one;
    }

    method SecondOrThird(a: char, ta: Tok, b: char, tb: Tok, one: Tok) returns (t: Tok)
      requires Valid() && lookChar == 0 && a != b
      modifies `lp, `lookChar
      ensures Valid()
      ensures (t, Chars()) == SecondOf(old(Chars()), a, ta, SecondOf(old(Chars()), b, tb, (one, old(Chars()))))
    {
      var c := ReadChar();
      Choice(c, Chars(), a, ta, b, tb, one);
      if c == a as int { return ta; }
      if c == b as int { return tb; }
      UnreadChar(c);
      t := one;
    }

    /** The switch of the lexer. */
    method Switch(first: int) returns (t: Tok)
      requires InHand(first) && first != -1
      modifies `lp, `lookChar
      ensures Valid() && (t, Chars()) == LexSymbol(old(From(first)))
    {
      ghost var cs := Chars();
      SymbolOf(first as char, cs);
      match first as char
      case '+' => t := Plus;
      case '-' => t := Minus;
      case '.' => t := Second('.', DotDot, Dot);
      case '*' => t := Star;
      case '/' => t := Slash;
      case '=' => t := Second('=', LogEq, Eq);
      case '%' => t := Pct;
      case '#' => t := Hash;
      case '(' => t := LParen;
      case ')' => t := RParen;
      case ',' => t := Comma;
      case '"' => t := Ditto;
      case '$' => t := Dollar;
      case '!' => t := Second('=', LogNotEq, Excl);
      case ';' => t := Semi;
      case '&' => t := Second('&', LogAnd, BitAnd);
      case '|' => t := Second('|', LogOr, BitOr);
      case '<' => t := SecondOrThird('<', ShiftL, '=', LessEq, Less);
      case '>' => t := SecondOrThird('>', ShiftR, '=', GreaterEq, Greater);
      case '?' => t := Question;
      case '~' => t := BitNot;
      case _ =>
        lp, lookChar := |line|, 0;
        assert Chars() == "";
        t := EOF;
    }

    /** The next character that is not blank, a line end or -1. */
    method SkipBlanks() returns (c: int)
      requires Valid()
      modifies `lp, `lookChar
      ensures InHand(c) && Lex(From(c), radix) == Lex(old(Chars()), radix)
      ensures c == 10 || c == -1 || ' ' as int < c <= '~' as int
    {
      ghost var goal := Lex(Chars(), radix);
      c := ReadChar();
      while c <= ' ' as int || c > '~' as int
        invariant InHand(c) && Lex(From(c), radix) == goal
        decreases |line| - lp, c != -1
      {
        if c == 10 || c == -1 { return; }
        BlankTaken(c as char, Chars(), radix);
        c := ReadChar();
      }
    }

    /** db_lex */
    method NextToken() returns (t: Tok)
      requires Valid()
      modifies `lp, `lookChar, `tokNumber, `tokString
      ensures Valid() && Gives(t, Lex(old(Chars()), radix)) && (t.EOL? ==> Chars() == "")
    {
      var c := SkipBlanks();
      LexDispatch(c, Chars(), radix);
      if c == 10 || c == -1 {
        t := EOL;
      } else if IsDigit(c as char) {
        t := Number(c);
      } else if IsLetter(c as char) || c == '_' as int || c == '\\' as int {
        t := Identifier(c);
      } else {
        t := Switch(c);
      }
    }
  }

  lemma BeforeParts(c: int, cs: string)
    requires -1 <= c < 127
    ensures c == -1 ==> Before(c, cs) == cs
    ensures c != -1 ==> Before(c, cs) != "" && Before(c, cs)[0] == c as char && Before(c, cs)[1..] == cs
  {}

  lemma Choice(c: int, cs: string, a: char, ta: Tok, b: char, tb: Tok, one: Tok)
    requires -1 <= c < 127 && (c == -1 ==> cs == "")
    ensures var s := Before(c, cs);
      SecondOf(s, a, ta, SecondOf(s, b, tb, (one, s)))
      == if c == a as int then (ta, cs) else if c == b as int then (tb, cs) else (one, s)
  {
    BeforeParts(c, cs);
  }

  lemma LexDispatch(c: int, cs: string, radix: Val)
    requires c == 10 || c == -1 || ' ' as int < c <= '~' as int
    requires c == 10 || c == -1 ==> cs == ""
    ensures c == 10 || c == -1 ==> Lex(Before(c, cs), radix) == (EOL, "")
    ensures c != 10 && c != -1 && IsDigit(c as char) ==> Lex(Before(c, cs), radix) == LexNumber(Before(c, cs), radix)
    ensures c != 10 && c != -1 && !IsDigit(c as char) && !IsLetter(c as char) && c != '_' as int && c != '\\' as int
      ==> Lex(Before(c, cs), radix) == LexSymbol(Before(c, cs))
  {}

  // what the specification does with the character in hand

  lemma DigitTaken(c: char, cs: string, r: Val, acc: Val)
    requires DigitIn(c, r) >= 0
    ensures Digits([c] + cs, r, acc) == Digits(cs, r, Wrap(Wrap((acc as int) * r) as int + DigitIn(c, r)))
  {
    assert ([c] + cs)[1..] == cs;
  }

  lemma DigitsEnd(c: int, cs: string, r: Val, acc: Val)
    requires -1 <= c < 127 && (c == -1 ==> cs == "") && (c != -1 ==> DigitIn(c as char, r) < 0)
    ensures Digits(Before(c, cs), r, acc) == (acc, Before(c, cs))
  {}

  lemma RadixOf(first: char, cs: string, radix: Val)
    requires first == '0'
    ensures Radix([first] + cs, radix)
         == if cs != "" && (cs[0] == 'O' || cs[0] == 'o') then (8, cs[1..])
            else if cs != "" && (cs[0] == 'T' || cs[0] == 't') then (10, cs[1..])
            else if cs != "" && (cs[0] == 'X' || cs[0] == 'x') then (16, cs[1..])
            else (radix, cs)
  {
    var s := [first] + cs;
    assert s[1..] == cs;
    if cs != "" { assert s[2..] == cs[1..]; }
  }

  lemma IdentStarts(first: char, cs: string, radix: Val)
    requires IsLetter(first) || first == '_' || first == '\\'
    ensures Lex([first] + cs, radix)
         == if first != '\\' then LexIdent(cs, [first])
            else if cs == "" || cs[0] == '\n' then (Bad, "")
            else LexIdent(cs[1..], [cs[0]])
  {
    var s := [first] + cs;
    assert s[1..] == cs;
    if cs != "" { assert s[2..] == cs[1..]; }
  }

  lemma IdentTaken(c: char, cs: string, name: string)
    requires IdentChar(c) || c == '\\'
    ensures LexIdent([c] + cs, name)
         == if c != '\\' then (if |name| + 1 == TOK_STRING_SIZE then (Bad, "") else LexIdent(cs, name + [c]))
            else if cs == "" || cs[0] == '\n' || |name| + 1 == TOK_STRING_SIZE then (Bad, "")
            else LexIdent(cs[1..], name + [cs[0]])
  {
    var s := [c] + cs;
    assert s[1..] == cs;
    if cs != "" { assert s[2..] == cs[1..]; }
  }

  lemma IdentEnd(c: int, cs: string, name: string)
    requires -1 <= c < 127 && (c == -1 ==> cs == "") && (c != -1 ==> !IdentChar(c as char) && c as char != '\\')
    ensures LexIdent(Before(c, cs), name) == (Ident(name), Before(c, cs))
  {}

  function SecondOf(cs: string, second: char, two: Tok, one: (Tok, string)): (r: (Tok, string)) {
    if cs != "" && cs[0] == second then (two, cs[1..]) else one
  }

  lemma SymbolOf(first: char, cs: string)
    ensures LexSymbol([first] + cs) == match first
      case '+' => (Plus, cs)
      case '-' => (Minus, cs)
      case '.' => SecondOf(cs, '.', DotDot, (Dot, cs))
      case '*' => (Star, cs)
      case '/' => (Slash, cs)
      case '=' => SecondOf(cs, '=', LogEq, (Eq, cs))
      case '%' => (Pct, cs)
      case '#' => (Hash, cs)
      case '(' => (LParen, cs)
      case ')' => (RParen, cs)
      case ',' => (Comma, cs)
      case '"' => (Ditto, cs)
      case '$' => (Dollar, cs)
      case '!' => SecondOf(cs, '=', LogNotEq, (Excl, cs))
      case ';' => (Semi, cs)
      case '&' => SecondOf(cs, '&', LogAnd, (BitAnd, cs))
      case '|' => SecondOf(cs, '|', LogOr, (BitOr, cs))
      case '<' => SecondOf(cs, '<', ShiftL, SecondOf(cs, '=', LessEq, (Less, cs)))
      case '>' => SecondOf(cs, '>', ShiftR, SecondOf(cs, '=', GreaterEq, (Greater, cs)))
      case '?' => (Question, cs)
      case '~' => (BitNot, cs)
      case _ => (EOF, "")
  {
    var s := [first] + cs;
    assert s[1..] == cs;
    if cs != "" { assert s[2..] == cs[1..]; }
  }

  lemma BlankTaken(c: char, cs: string, radix: Val)
    requires (c <= ' ' || c > '~') && c != '\n'
    ensures Lex([c] + cs, radix) == Lex(cs, radix)
  {
    assert ([c] + cs)[1..] == cs;
  }
}
