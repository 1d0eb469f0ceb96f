/** atob gives back exactly what btoa was given. */
module Base85Laws {
  import opened Basics
  import opened Sequences
  import opened Base85

  // ------------------------------------------------------------ one group

  lemma FiveDigits(w: DWord)
    ensures var a, b, c, d, e := w / 52200625, w % 52200625 / 614125, w % 614125 / 7225, w % 7225 / 85, w % 85;
      0 <= a < 85 && 0 <= b < 85 && 0 <= c < 85 && 0 <= d < 85 && (((a * 85 + b) * 85 + c) * 85 + d) * 85 + e == w
  {
    assert w / 85 / 85 == w / 7225;
    assert w / 7225 / 85 == w / 614125;
    assert w / 614125 / 85 == w / 52200625;
    assert w % 7225 / 85 == w / 85 % 85;
    assert w % 614125 / 7225 == w / 7225 % 85;
    assert w % 52200625 / 614125 == w / 614125 % 85;
  }

  /** A data character is decoded, and reading goes on after it. */
  lemma CharTaken(c: char, rest: string, d: DState, d': DState)
    requires c != '\n' && c != 'x' && DecodeChar(d, c) == Some(d')
    ensures ReadData([c] + rest, d) == ReadData(rest, d')
  {
    var s := [c] + rest;
    assert s[0] == c && s[1..] == rest;
  }

  /** One digit of a group. */
  lemma DigitDecodes(word: DWord, k: nat, v: nat, rest: string, bytes: seq<Byte>)
    requires v < 85 && k < 5 && word * 85 + v < 0x1_0000_0000 && (k == 0 ==> word == 0)
    ensures ReadData([En(v)] + rest, DState(word, k, bytes))
         == ReadData(rest, if k < 4 then DState(word * 85 + v, k + 1, bytes)
                           else DState(0, 0, bytes + FourBytes(word * 85 + v)))
  {
    CharTaken(En(v), rest, DState(word, k, bytes), DecodeChar(DState(word, k, bytes), En(v)).value);
  }

  lemma DigitsDecode(a: nat, b: nat, c: nat, d: nat, e: nat, rest: string, bytes: seq<Byte>)
    requires a < 85 && b < 85 && c < 85 && d < 85 && e < 85
    requires (((a * 85 + b) * 85 + c) * 85 + d) * 85 + e < 0x1_0000_0000
    ensures ReadData([En(a), En(b), En(c), En(d), En(e)] + rest, DState(0, 0, bytes))
         == ReadData(rest, DState(0, 0, bytes + FourBytes((((a * 85 + b) * 85 + c) * 85 + d) * 85 + e)))
  {
    var r4 := [En(e)] + rest;
    var r3 := [En(d)] + r4;
    var r2 := [En(c)] + r3;
    var r1 := [En(b)] + r2;
    assert [En(a), En(b), En(c), En(d), En(e)] + rest == [En(a)] + r1;
    var ab := a * 85 + b;
    var abc := ab * 85 + c;
    var abcd := abc * 85 + d;
    DigitDecodes(0, 0, a, r1, bytes);
    DigitDecodes(a, 1, b, r2, bytes);
    DigitDecodes(ab, 2, c, r3, bytes);
    DigitDecodes(abc, 3, d, r4, bytes);
    DigitDecodes(abcd, 4, e, rest, bytes);
  }

  /** A group is decoded to the four bytes of its word. */
  lemma GroupDecodes(w: DWord, rest: string, bytes: seq<Byte>)
    ensures ReadData(Group(w) + rest, DState(0, 0, bytes)) == ReadData(rest, DState(0, 0, bytes + FourBytes(w)))
  {
    if w == 0 {
      assert (Group(w) + rest)[1..] == rest;
    } else {
      FiveDigits(w);
      DigitsDecode(w / 52200625, w % 52200625 / 614125, w % 614125 / 7225, w % 7225 / 85, w % 85, rest, bytes);
    }
  }

  lemma FourBytesOfWord(b: seq<Byte>)
    requires |b| == 4
    ensures FourBytes(WordOf(b)) == b
  {
    var b3, b2, b1 := b[..3], b[..2], b[..1];
    assert b3[..2] == b2 && b2[..1] == b1 && b1[..0] == [];
    var x, y, z: int, t: int := b[0] as int, b[1] as int, b[2], b[3];
    assert Number(b1) == x;
    assert Number(b2) == 256 * x + y;
    assert Number(b3) == 256 * (256 * x + y) + z;
    assert Number(b) == 256 * (256 * (256 * x + y) + z) + t;
    Divisions(x, y, z, t);
  }

  lemma Divisions(x: nat, y: nat, z: nat, t: nat)
    requires x < 256 && y < 256 && z < 256 && t < 256
    ensures var w := 256 * (256 * (256 * x + y) + z) + t;
      w / 0x100_0000 == x && w / 0x1_0000 % 0x100 == y && w / 0x100 % 0x100 == z && w % 0x100 == t
  {}

  // ------------------------------------------------------------ the data

  /** Reading s from d comes to the same as reading t from e: it speaks of every string that equals s
      or t, so that ReadData is unfolded only in the lemmas that name it. */
  ghost predicate ReadsOn(s: string, d: DState, t: string, e: DState) {
    forall a: string, b: string {:trigger ReadData(a, d), ReadData(b, e)} :: a == s && b == t ==>
      ReadData(a, d) == ReadData(b, e)
  }

  lemma Onwards(s: string, d: DState, t: string, e: DState, u: string, f: DState)
    requires ReadsOn(s, d, t, e) && ReadsOn(t, e, u, f)
    ensures ReadsOn(s, d, u, f)
  {
    assert ReadData(s, d) == ReadData(t, e) == ReadData(u, f);
  }

  lemma WordReads(last: seq<Byte>, rest: string, bytes: seq<Byte>)
    requires |last| == 4
    ensures ReadsOn(Group(WordOf(last)) + rest, DState(0, 0, bytes), rest, DState(0, 0, bytes + last))
  {
    GroupDecodes(WordOf(last), rest, bytes);
    FourBytesOfWord(last);
  }

  lemma GroupAppended(x: string, g: string, rest: string, d: DState, e: DState, f: DState)
    requires ReadsOn(x + (g + rest), d, g + rest, e) && ReadsOn(g + rest, e, rest, f)
    ensures ReadsOn((x + g) + rest, d, rest, f)
  {
    Associative(x, g, rest);
    Onwards((x + g) + rest, d, g + rest, e, rest, f);
  }

  lemma LastGroup(b: seq<Byte>) returns (b': seq<Byte>, last: seq<Byte>)
    requires |b| % 4 == 0 && b != []
    ensures |b'| % 4 == 0 && |b'| < |b| && |last| == 4 && b == b' + last && Body(b) == Body(b') + Group(WordOf(last))
  {
    b', last := b[..|b| - 4], b[|b| - 4..];
  }

  lemma {:induction false} BodyReads(b: seq<Byte>, rest: string)
    requires |b| % 4 == 0
    ensures ReadsOn(Body(b) + rest, DState(0, 0, []), rest, DState(0, 0, b))
  {
    if b == [] {
      assert Body(b) + rest == rest;
    } else {
      var b', last := LastGroup(b);
      var g := Group(WordOf(last));
      BodyReads(b', g + rest);
      WordReads(last, rest, b');
      GroupAppended(Body(b'), g, rest, DState(0, 0, []), DState(0, 0, b'), DState(0, 0, b));
    }
  }

  /** The data part: no matter what follows, all groups are decoded. */
  lemma BodyDecodes(b: seq<Byte>, rest: string)
    requires |b| % 4 == 0
    ensures ReadData(Body(b) + rest, DState(0, 0, [])) == ReadData(rest, DState(0, 0, b))
  {
    BodyReads(b, rest);
  }

  predicate NoEnd(s: string) { forall i :: 0 <= i < |s| ==> s[i] != 'x' }

  lemma {:induction false} DropNewline(s: string, rest: string, d: DState)
    requires NoEnd(s)
    ensures ReadData(s + "\n" + rest, d) == ReadData(s + rest, d)
    decreases |s|
  {
    if s == "" {
      assert s + "\n" + rest == "\n" + rest && ("\n" + rest)[1..] == rest && s + rest == rest;
    } else {
      assert (s + "\n" + rest)[1..] == s[1..] + "\n" + rest && (s + rest)[1..] == s[1..] + rest;
      if s[0] == '\n' {
        DropNewline(s[1..], rest, d);
      } else if DecodeChar(d, s[0]).Some? {
        DropNewline(s[1..], rest, DecodeChar(d, s[0]).value);
      }
    }
  }

  /** Line breaks do not matter to the decoder. */
  lemma {:induction false} UnwrapDecodes(s: string, rest: string, d: DState)
    requires NoEnd(s)
    ensures ReadData(Wrapped(s) + rest, d) == ReadData(s + rest, d)
    decreases |s|
  {
    if s == "" {
      assert Wrapped(s) + rest == s + rest;
    } else {
      var s', c := s[..|s| - 1], [s[|s| - 1]];
      var nl := if |s| % MAXPERLINE == 0 then "\n" else "";
      UnwrapDecodes(s', c + nl + rest, d);
      assert Wrapped(s) + rest == Wrapped(s') + (c + nl + rest);
      assert s' + (c + nl + rest) == s + nl + rest by { assert s' + c == s; }
      if nl == "\n" { DropNewline(s, rest, d); } else { assert s + nl + rest == s + rest; }
    }
  }

  lemma {:induction false} BodyHasNoEnd(b: seq<Byte>)
    requires |b| % 4 == 0
    ensures NoEnd(Body(b))
  {
    if b != [] {
      BodyHasNoEnd(b[..|b| - 4]);
      FiveDigits(WordOf(b[|b| - 4..]));
    }
  }

  // ------------------------------------------------------------ the layout of the lines

  /** Every 78th character is followed by a line break, and nothing else is added. */
  lemma {:induction false} WrappedLayout(s: string)
    ensures |Wrapped(s)| == |s| + |s| / MAXPERLINE
    ensures forall i :: 0 <= i < |s| ==> i + i / MAXPERLINE < |Wrapped(s)| && Wrapped(s)[i + i / MAXPERLINE] == s[i]
    ensures forall k :: 1 <= k <= |s| / MAXPERLINE ==> k * 79 - 1 < |Wrapped(s)| && Wrapped(s)[k * 79 - 1] == '\n'
    decreases |s|
  {
    if s != "" {
      var s' := s[..|s| - 1];
      WrappedLayout(s');
      var w, w' := Wrapped(s), Wrapped(s');
      assert |w'| == |s'| + |s'| / MAXPERLINE && w[|w'|] == s[|s| - 1];
      forall k | 1 <= k <= |s| / MAXPERLINE ensures k * 79 - 1 < |w| && w[k * 79 - 1] == '\n' {
        if k <= |s'| / MAXPERLINE { assert w'[k * 79 - 1] == '\n'; }
      }
    }
  }

  // ------------------------------------------------------------ the trailer

  lemma DigitScans(d: nat, base: nat, value: nat, rest: string)
    requires d < base && (base == 10 || base == 16)
    ensures ScanDigits([Digit(d)] + rest, base, value) == ScanDigits(rest, base, value * base + d)
  {
    assert ([Digit(d)] + rest)[1..] == rest;
  }

  lemma Smaller(n: nat, base: nat)
    requires n >= base && (base == 10 || base == 16)
    ensures n / base < n
  {}

  lemma PrintedLast(n: nat, base: nat, rest: string)
    requires n >= base && (base == 10 || base == 16)
    ensures Printed(n, base) + rest == Printed(n / base, base) + ([Digit(n % base)] + rest) && n / base < n
  {
    Smaller(n, base);
    Associative(Printed(n / base, base), [Digit(n % base)], rest);
  }

  lemma {:induction false} PrintedScans(n: nat, base: nat, rest: string)
    requires base == 10 || base == 16
    ensures ScanDigits(Printed(n, base) + rest, base, 0) == ScanDigits(rest, base, n)
    decreases n
  {
    if n < base {
      DigitScans(n, base, 0, rest);
    } else {
      PrintedLast(n, base, rest);
      PrintedScans(n / base, base, [Digit(n % base)] + rest);
      DigitScans(n % base, base, n / base, rest);
      QuotientBack(n, base);
    }
  }

  lemma QuotientBack(n: nat, base: nat)
    requires base == 10 || base == 16
    ensures n / base * base + n % base == n
  {}

  lemma {:induction false} PrintedStarts(n: nat, base: nat)
    requires base == 10 || base == 16
    ensures var c := Printed(n, base)[0]; !Blank(c) && DigitValue(c) < base
    decreases n
  {
    if n >= base { PrintedStarts(n / base, base); }
  }

  /** A number printed is scanned back, up to the next character that is no digit. */
  lemma NumberScans(n: DWord, base: nat, rest: string)
    requires base == 10 || base == 16
    requires rest == "" || DigitValue(rest[0]) >= base
    ensures ScanNumber(Printed(n, base) + rest, base) == Some((n, rest))
  {
    PrintedStarts(n, base);
    PrintedScans(n, base, rest);
    NumberTaken(Printed(n, base) + rest, base, n, rest);
  }

  lemma NumberTaken(s: string, base: nat, n: DWord, rest: string)
    requires s != "" && !Blank(s[0]) && DigitValue(s[0]) < base
    requires ScanDigits(s, base, 0) == ScanDigits(rest, base, n) && (rest == "" || DigitValue(rest[0]) >= base)
    ensures ScanNumber(s, base) == Some((n, rest))
  {
    assert ScanDigits(rest, base, n) == (n, rest);
    assert SkipBlanks(s) == s;
  }

  lemma {:induction false} LiteralScans(l: string, s: string)
    requires s != "" && !Blank(s[0])
    requires forall i :: 0 <= i < |l| - 1 && Blank(l[i]) ==> !Blank(l[i + 1])
    ensures ScanLiteral(l + s, l) == Some(s)
    decreases |l|
  {
    if l == "" {
      assert l + s == s;
    } else {
      assert (l + s)[1..] == l[1..] + s;
      if Blank(l[0]) {
        if |l| > 1 { assert !Blank(l[1]); }
        assert SkipBlanks(l + s) == l[1..] + s;
      }
      LiteralScans(l[1..], s);
    }
  }

  lemma FieldScans(f: Format, n: DWord, rest: string)
    requires GoodFormat(f) && (rest == "" || DigitValue(rest[0]) >= f.base)
    ensures ScanField(f.literal + (Printed(n, f.base) + rest), f) == Some((n, rest))
  {
    PrintedStarts(n, f.base);
    assert (Printed(n, f.base) + rest)[0] == Printed(n, f.base)[0];
    LiteralScans(f.literal, Printed(n, f.base) + rest);
    NumberScans(n, f.base, rest);
  }

  /** The fields are read back as they were written, if each after the first starts with a blank. */
  lemma {:induction false} FieldsScan(fs: seq<Format>, ns: seq<DWord>)
    requires |fs| == |ns| && forall i :: 0 <= i < |fs| ==> GoodFormat(fs[i])
    requires forall i :: 1 <= i < |fs| ==> fs[i].literal != "" && fs[i].literal[0] == ' '
    ensures ScanFields(PrintFields(fs, ns), fs) == Some(ns)
    decreases |fs|
  {
    if fs == [] {
      assert ns == [];
    } else {
      var rest := PrintFields(fs[1..], ns[1..]);
      FieldsScan(fs[1..], ns[1..]);
      assert rest[0] == if |fs| > 1 then fs[1].literal[0] else '\n';
      FieldScans(fs[0], ns[0], rest);
      assert [ns[0]] + ns[1..] == ns;
    }
  }

  // ------------------------------------------------------------ the header

  lemma {:induction false} LineEnds(line: string, rest: string, k: nat)
    requires |line| < 99 && k <= |line| && forall i :: 0 <= i < |line| ==> line[i] != '\n'
    ensures LineLength(line + "\n" + rest, k) == |line| + 1
    decreases |line| - k
  {
    if k < |line| { LineEnds(line, rest, k + 1); }
  }

  /** A line that is not the header is skipped. */
  lemma LineSkipped(line: string, rest: string)
    requires |line| < 99 && forall i :: 0 <= i < |line| ==> line[i] != '\n'
    requires line + "\n" != HEADER
    ensures AfterHeader(line + "\n" + rest) == AfterHeader(rest)
  {
    LineEnds(line, rest, 0);
    var s := line + "\n" + rest;
    assert s[..|line| + 1] == line + "\n" && s[|line| + 1..] == rest;
  }

  lemma HeaderFound(rest: string)
    ensures AfterHeader(HEADER + rest) == Some(rest)
  {
    var line := "xbtoa Begin";
    LineEnds(line, rest, 0);
    var s := HEADER + rest;
    assert line + "\n" == HEADER;
    assert s[..12] == HEADER && s[12..] == rest;
  }

  // ------------------------------------------------------------ both programs

  lemma EndReached(d: DState, rest: string)
    ensures ReadData("\nx" + rest, d) == Some((d, rest))
  {
    assert ("\nx" + rest)[1..] == "x" + rest && ("x" + rest)[1..] == rest;
  }

  lemma DataDecodes(bytes: seq<Byte>, rest: string)
    ensures ReadData(Wrapped(Body(Padded(bytes))) + "\nx" + rest, DState(0, 0, []))
         == Some((DState(0, 0, Padded(bytes)), rest))
  {
    var p := Padded(bytes);
    BodyHasNoEnd(p);
    UnwrapDecodes(Body(p), "\nx" + rest, DState(0, 0, []));
    BodyDecodes(p, "\nx" + rest);
    EndReached(DState(0, 0, p), rest);
    Associative(Wrapped(Body(p)), "\nx", rest);
  }

  lemma ChecksPass(bytes: seq<Byte>)
    requires |bytes| < 0x8000_0000
    ensures Checked(Padded(bytes), Trailer(bytes)) == Some(bytes)
  {
    var ns := Numbers(|bytes|, CheckAll(Padded(bytes)));
    FieldsScan(Formats(), ns);
    assert FirstBytes(Padded(bytes), |bytes|) == bytes;
  }

  lemma BtoaParts(bytes: seq<Byte>)
    requires |bytes| < 0x8000_0000
    ensures Btoa(bytes) == HEADER + (Wrapped(Body(Padded(bytes))) + "\nx" + Trailer(bytes))
  {
    var body, trailer := Wrapped(Body(Padded(bytes))), Trailer(bytes);
    Associative(HEADER, body, "\nx");
    Associative(HEADER, body + "\nx", trailer);
  }

  /** What atob does with a header, data that are decoded and a trailer that agrees. */
  lemma AtobParts(data: string, bytes: seq<Byte>, trailer: string)
    requires ReadData(data, DState(0, 0, [])) == Some((DState(0, 0, bytes), trailer))
    ensures Atob(HEADER + data) == Checked(bytes, trailer)
  {
    HeaderFound(data);
  }

  /** atob inverts btoa, for every file shorter than 2^31 bytes. */
  lemma RoundTrip(bytes: seq<Byte>)
    requires |bytes| < 0x8000_0000
    ensures Atob(Btoa(bytes)) == Some(bytes)
  {
    BtoaParts(bytes);
    DataDecodes(bytes, Trailer(bytes));
    AtobParts(Wrapped(Body(Padded(bytes))) + "\nx" + Trailer(bytes), Padded(bytes), Trailer(bytes));
    ChecksPass(bytes);
  }
}
