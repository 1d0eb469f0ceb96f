/** The forms of numbers and names, and the lines that are errors. */
module DdbForms {
  import opened Basics
  import opened DdbExpr
  import opened DdbParse
  import opened DdbLex
  import opened DdbLine

  // ------------------------------------------------------------ numbers

  const Lower: string := "0123456789abcdef"
  const Upper: string := "0123456789ABCDEF"

  /** The digits of the three radices and their values. */
  lemma DigitsAre(d: nat)
    requires d < 16
    ensures DigitIn(Lower[d], 16) == DigitIn(Upper[d], 16) == d
    ensures DigitIn(Lower[d], 10) == DigitIn(Upper[d], 10) == if d < 10 then d else -1
    ensures DigitIn(Lower[d], 8) == DigitIn(Upper[d], 8) == if d < 8 then d else -1
  {}

  lemma NoOtherDigits(c: char, r: Val)
    requires DigitIn(c, r) >= 0
    ensures c in Lower || c in Upper
  {
    var d := DigitIn(c, r);
    assert c == Lower[d] || c == Upper[d];
  }

  /** A number's radix by what it starts with: 0o, 0t and 0x, in either case, are octal, decimal and
      hexadecimal; anything else is in the current radix. */
  lemma {:induction false} PrefixedForms(c: char, ds: string, radix: Val)
    requires c in "oOtTxX"
    requires var r := if c in "oO" then 8 else if c in "tT" then 10 else 16; AllDigits(ds, r)
    ensures var r := if c in "oO" then 8 else if c in "tT" then 10 else 16;
      SpellsNumber(['0', c] + ds, Wrap(ValueOf(ds, r)), radix)
  {
    var text := ['0', c] + ds;
    assert text[0] == '0' && text[1] == c && text[2..] == ds;
  }

  lemma {:induction false} PlainForms(ds: string, radix: Val)
    requires ds != "" && '1' <= ds[0] <= '9' && AllDigits(ds, radix)
    ensures SpellsNumber(ds, Wrap(ValueOf(ds, radix)), radix) && SpellsNumber("0" + ds, Wrap(ValueOf(ds, radix)), radix)
  {
    var text := "0" + ds;
    assert text[0] == '0' && text[1] == ds[0] && text[1..] == ds;
  }

  // ------------------------------------------------------------ names

  predicate StartsName(c: char) { 'A' <= c <= 'Z' || 'a' <= c <= 'z' || c == '_' }

  predicate ContinuesName(c: char) { StartsName(c) || '0' <= c <= '9' || c == ':' || c == '.' }

  /** Letters and the underscore, then also digits, colons and dots, stand for themselves. */
  lemma {:induction false} PlainNames(name: string)
    requires name != "" && StartsName(name[0]) && forall i :: 0 < i < |name| ==> ContinuesName(name[i])
    ensures NameText(name) == name
  {
    PlainRest(name[1..]);
    assert name == [name[0]] + name[1..];
  }

  lemma {:induction false} PlainRest(s: string)
    requires forall i :: 0 <= i < |s| ==> ContinuesName(s[i])
    ensures Continued(s) == s
    decreases |s|
  {
    if s != "" {
      PlainRest(s[1..]);
      assert ContinuesName(s[0]) && s == [s[0]] + s[1..];
    }
  }

  /** Once a name has 119 characters, one more is an error. */
  lemma {:induction false} TooLong(s: string, name: string, rest: string)
    requires |name| < 120 <= |name| + |s| && OneLine(s)
    ensures LexIdent(Continued(s) + rest, name) == (Bad, "")
    decreases |s|
  {
    var cs, e := Continued(s) + rest, Escaped(s[0], false);
    assert cs == e + (Continued(s[1..]) + rest);
    if |name| + 1 < 120 {
      TooLong(s[1..], name + [s[0]], rest);
      assert cs[|e|..] == Continued(s[1..]) + rest;
    }
  }

  lemma {:induction false} LongNameIsError(name: string, rest: string, radix: Val)
    requires |name| >= 120 && OneLine(name)
    ensures Toks(NameText(name) + rest, radix) == [Bad]
  {
    var more := Continued(name[1..]) + rest;
    assert NameText(name) + rest == Escaped(name[0], true) + more;
    FirstReads(name[0], more, radix);
    TooLong(name[1..], [name[0]], rest);
  }

  /** A symbol has the value it is given, and none is an error; so has a variable, after $. */
  lemma {:induction false} NamesMean(s: string, ts: seq<Tok>, env: Env)
    ensures Term([Ident(s)] + ts, env) == if s in env.symbols then Yes(env.symbols[s], ts) else Error
    ensures Term([Dollar, Ident(s)] + ts, env) == if s in env.variables then Yes(env.variables[s], ts) else Error
  {
    assert Tail([Ident(s)] + ts) == ts;
    assert Tail([Dollar, Ident(s)] + ts) == [Ident(s)] + ts;
  }

  // ------------------------------------------------------------ errors

  /** A character that starts no token ends the line, whatever comes after it. */
  lemma {:induction false} JunkEndsLine(c: char, rest: string, radix: Val)
    requires c in "'@[]^`{}:"
    ensures Toks([c] + rest, radix) == [EOF]
  {
    var cs := [c] + rest;
    assert Lex(cs, radix) == LexSymbol(cs) == (EOF, "");
    assert Lex("", radix) == (EOL, "");
  }

  /** An expression in parentheses that are not closed is an error. */
  lemma {:induction false} UnclosedIsError(e: Expr, ts: seq<Tok>, env: Env)
    requires Good(e) && Level(Head(ts)) == -1 && !Head(ts).Bad? && !Head(ts).RParen?
    ensures Climb(0, [LParen] + Show(e, 0) + ts, env) == Error
  {
    var us := [LParen] + Show(e, 0) + ts;
    assert Tail(us) == Show(e, 0) + ts;
    Evaluates(e, ts, env);
    TermError(7, us, env);
  }

  lemma {:induction false} TermError(j: nat, us: seq<Tok>, env: Env)
    requires !IsUnary(Head(us)) && Term(us, env) == Error && j <= 7
    ensures Climb(7 - j, us, env) == Error
    decreases j
  {
    if j > 0 { TermError(j - 1, us, env); }
  }

  /** An error of the analyser right after an operand abandons the line. */
  lemma {:induction false} BadIsError(j: nat, us: seq<Tok>, v: Val, ts: seq<Tok>, env: Env)
    requires !IsUnary(Head(us)) && Term(us, env) == Yes(v, ts) && Head(ts).Bad? && 2 <= j <= 7
    ensures Climb(7 - j, us, env) == Error
    decreases j
  {
    if j == 2 {
      assert Climb(6, us, env) == Yes(v, ts);
    } else {
      BadIsError(j - 1, us, v, ts, env);
    }
  }
}
