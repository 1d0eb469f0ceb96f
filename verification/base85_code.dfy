/** btoa and atob as programs: words built up byte by byte in globals that are never cleared. */
module Base85Code {
  import opened Arithmetic
  import opened Basics
  import opened Base85

  // ------------------------------------------------------------ shifting bytes into a word

  /** A byte shifted into a 32-bit word; what was above falls off. */
  function ShiftIn(word: DWord, c: Byte): (r: DWord) {
    word * 256 % 0x1_0000_0000 + c
  }

  lemma Scaled(q: int, p: int, n: int, t: int, parts: int)
    ensures (q * p + n) * 256 - t * (p * 256 * parts) == (256 * p) * (q - t * parts) + 256 * n
  {
    assert t * (p * 256 * parts) == (256 * p) * (t * parts);
    assert (256 * p) * (q - t * parts) == (256 * p) * q - (256 * p) * (t * parts);
  }

  lemma ShiftInParts(word: DWord, c: Byte, p: nat, parts: nat, n: nat)
    requires p > 0 && p * 256 * parts == 0x1_0000_0000 && word % p == n
    ensures ShiftIn(word, c) % (256 * p) == 256 * n + c
  {
    var q, t := word / p, word * 256 / 0x1_0000_0000;
    assert word == q * p + n;
    assert ShiftIn(word, c) == word * 256 - t * 0x1_0000_0000 + c;
    Scaled(q, p, n, t, parts);
    DivModUnique(ShiftIn(word, c), 256 * p, q - t * parts, 256 * n + c);
  }

  /** The low k bytes of a word. */
  function Low(word: DWord, k: nat): (r: DWord)
    requires k <= 4
  {
    if k == 0 then 0
    else if k == 1 then word % 0x100
    else if k == 2 then word % 0x1_0000
    else if k == 3 then word % 0x100_0000
    else word
  }

  /** The low k bytes of the word move up, whatever was above them. */
  lemma ShiftInKeeps(word: DWord, c: Byte, k: nat)
    requires k <= 3
    ensures Low(ShiftIn(word, c), k + 1) == 256 * Low(word, k) + c
  {
    if k == 0 { ShiftInParts(word, c, 1, 0x100_0000, 0); }
    else if k == 1 { ShiftInParts(word, c, 0x100, 0x1_0000, word % 0x100); }
    else if k == 2 { ShiftInParts(word, c, 0x1_0000, 0x100, word % 0x1_0000); }
    else { ShiftInParts(word, c, 0x100_0000, 1, word % 0x100_0000); }
  }

  lemma NumberAppends(bytes: seq<Byte>, c: Byte)
    ensures Number(bytes + [c]) == 256 * Number(bytes) + c
  {
    assert (bytes + [c])[..|bytes|] == bytes;
  }

  lemma ChecksAppend(bytes: seq<Byte>, c: Byte)
    ensures CheckAll(bytes + [c]) == CheckByte(CheckAll(bytes), c)
  {
    assert (bytes + [c])[..|bytes|] == bytes;
  }

  lemma NextColumn(n: nat)
    ensures (n + 1) % MAXPERLINE == if n % MAXPERLINE == MAXPERLINE - 1 then 0 else n % MAXPERLINE + 1
  {}

  lemma WrappedAppends(s: string, c: char)
    ensures Wrapped(s + [c]) == Wrapped(s) + [c] + (if (|s| + 1) % MAXPERLINE == 0 then "\n" else "")
  {
    assert (s + [c])[..|s|] == s;
  }

  lemma BodyAppends(b: seq<Byte>, four: seq<Byte>)
    requires |b| % 4 == 0 && |four| == 4
    ensures Body(b + four) == Body(b) + Group(WordOf(four))
  {
    assert (b + four)[..|b|] == b && (b + four)[|b|..] == four;
  }

  // ------------------------------------------------------------ the encoder

  /** The bytes of complete groups, and those still in the word. */
  function Grouped(fed: seq<Byte>): (g: seq<Byte>)
    ensures |g| % 4 == 0
  {
    fed[..|fed| - |fed| % 4]
  }

  function Pending(fed: seq<Byte>): (p: seq<Byte>)
    ensures |p| == |fed| % 4
  {
    fed[|fed| - |fed| % 4..]
  }

  lemma OneMoreByte(fed: seq<Byte>, c: Byte)
    ensures |fed| % 4 < 3 ==> Grouped(fed + [c]) == Grouped(fed) && Pending(fed + [c]) == Pending(fed) + [c]
    ensures |fed| % 4 == 3 ==> Grouped(fed + [c]) == Grouped(fed) + (Pending(fed) + [c]) && Pending(fed + [c]) == []
  {
    var n := |fed|;
    NextFourth(n);
    var q := n - n % 4;
    var more := fed + [c];
    assert more[..q] == fed[..q] && more[q..] == fed[q..] + [c];
    if n % 4 == 3 { assert more == fed[..q] + (fed[q..] + [c]); }
  }

  lemma NextFourth(n: nat)
    ensures (n + 1) % 4 == if n % 4 == 3 then 0 else n % 4 + 1
  {}

  /** The word's low bytes are those fed since the last group. */
  ghost predicate Holds(word: DWord, fed: seq<Byte>) {
    Low(word, |fed| % 4) == Number(Pending(fed))
  }

  lemma NextWord(fed: seq<Byte>, word: DWord, c: Byte)
    requires Holds(word, fed)
    ensures Low(ShiftIn(word, c), |fed| % 4 + 1) == Number(Pending(fed) + [c])
  {
    ShiftInKeeps(word, c, |fed| % 4);
    NumberAppends(Pending(fed), c);
  }

  /** A byte that does not complete a group. */
  lemma StaysInGroup(fed: seq<Byte>, word: DWord, c: Byte)
    requires Holds(word, fed) && |fed| % 4 < 3
    ensures |fed + [c]| % 4 == |fed| % 4 + 1
    ensures Holds(ShiftIn(word, c), fed + [c]) && Body(Grouped(fed + [c])) == Body(Grouped(fed))
  {
    NextWord(fed, word, c);
    OneMoreByte(fed, c);
  }

  /** A byte that does. */
  lemma CompletesGroup(fed: seq<Byte>, word: DWord, c: Byte)
    requires Holds(word, fed) && |fed| % 4 == 3
    ensures |fed + [c]| % 4 == 0 && Holds(ShiftIn(word, c), fed + [c])
    ensures Body(Grouped(fed + [c])) == Body(Grouped(fed)) + Group(ShiftIn(word, c))
  {
    var four := Pending(fed) + [c];
    NextWord(fed, word, c);
    OneMoreByte(fed, c);
    assert WordOf(four) == ShiftIn(word, c);
    BodyAppends(Grouped(fed), four);
  }

  lemma Remainders(w: DWord)
    ensures w % 52200625 % 614125 == w % 614125 && w % 52200625 % 614125 % 7225 == w % 7225
    ensures w % 52200625 % 614125 % 7225 % 85 == w % 85
  {
    ModOfMod(w, 614125, 85);
    ModOfMod(w, 7225, 85);
    ModOfMod(w, 85, 85);
  }

  lemma GroupOut(sent: string, w: DWord)
    requires w != 0
    ensures var r1 := w % 52200625; var r2 := r1 % 614125; var r3 := r2 % 7225;
      sent + [En(w / 52200625)] + [En(r1 / 614125)] + [En(r2 / 7225)] + [En(r3 / 85)] + [En(r3 % 85)] == sent + Group(w)
  {
    Remainders(w);
  }

  class Encoder {
    var eor: Byte
    var sum: DWord
    var rot: DWord
    var ccount: nat
    var bcount: nat
    var word: DWord
    var out: string
    ghost var fed: seq<Byte>
    ghost var sent: string

    /** The line being written: what has been sent, broken into lines. */
    ghost predicate Line()
      reads `out, `ccount, `sent
    {
      out == HEADER + Wrapped(sent) && ccount == |sent| % MAXPERLINE
    }

    ghost predicate Valid()
      reads this
    {
      && Checks(eor, sum, rot) == CheckAll(fed)
      && bcount == |fed| % 4 && Holds(word, fed)
      && sent == Body(Grouped(fed)) && Line()
    }

    constructor ()
      ensures Valid() && fed == []
    {
      eor, sum, rot, ccount, bcount, word := 0, 0, 0, 0, 0, 0;
      out := HEADER;
      fed, sent := [], "";
    }

    method CharOut(c: char)
      requires Line()
      modifies `out, `ccount, `sent
      ensures Line() && sent == old(sent) + [c]
    {
      WrappedAppends(sent, c);
      NextColumn(|sent|);
      out := out + [c];
      ccount := ccount + 1;
      if ccount == MAXPERLINE {
        out := out + "\n";
        ccount := 0;
      }
      sent := sent + [c];
    }

    method WordOut(w: DWord)
      requires Line()
      modifies `out, `ccount, `sent
      ensures Line() && sent == old(sent) + Group(w)
    {
      if w == 0 {
        CharOut('z');
      } else {
        ghost var start := sent;
        var r := w;
        CharOut(En(r / 52200625));
        r := r % 52200625;
        CharOut(En(r / 614125));
        r := r % 614125;
        CharOut(En(r / 7225));
        r := r % 7225;
        CharOut(En(r / 85));
        r := r % 85;
        CharOut(En(r));
        GroupOut(start, w);
      }
    }

    method Checksum(c: Byte)
      requires Checks(eor, sum, rot) == CheckAll(fed)
      modifies `eor, `sum, `rot
      ensures Checks(eor, sum, rot) == CheckAll(fed + [c])
    {
      ChecksAppend(fed, c);
      eor := Xor(eor, c);
      sum := (sum + c + 1) % 0x1_0000_0000;
      rot := RotateAdd(rot, c);
    }

    method Shift(c: Byte)
      requires bcount == |fed| % 4 && Holds(word, fed) && sent == Body(Grouped(fed)) && Line()
      modifies `word, `bcount, `out, `ccount, `sent
      ensures bcount == |fed + [c]| % 4 && Holds(word, fed + [c]) && sent == Body(Grouped(fed + [c])) && Line()
    {
      if bcount == 3 { CompletesGroup(fed, word, c); } else { StaysInGroup(fed, word, c); }
      word := ShiftIn(word, c);
      if bcount == 3 {
        WordOut(word);
        bcount := 0;
      } else {
        bcount := bcount + 1;
      }
    }

    method Encode(c: Byte)
      requires Valid()
      modifies this
      ensures Valid() && fed == old(fed) + [c]
    {
      Checksum(c);
      Shift(c);
      fed := fed + [c];
    }
  }

  method EncodeAll(e: Encoder, input: seq<Byte>)
    requires e.Valid() && e.fed == []
    modifies e
    ensures e.Valid() && e.fed == input
  {
    var n := 0;
    while n < |input|
      invariant 0 <= n <= |input| && e.Valid() && e.fed == input[..n]
    {
      assert input[..n + 1] == input[..n] + [input[n]];
      e.Encode(input[n]);
      n := n + 1;
    }
  }

  lemma OneMoreZero(input: seq<Byte>, zeros: nat)
    requires zeros < 4 && |input + seq(zeros, i => 0)| % 4 != 0 && zeros <= (4 - |input| % 4) % 4
    ensures zeros < (4 - |input| % 4) % 4
    ensures input + seq(zeros, i => 0) + [0] == input + seq(zeros + 1, i => 0)
  {}

  lemma ZerosComplete(input: seq<Byte>, zeros: nat)
    requires zeros <= (4 - |input| % 4) % 4 && |input + seq(zeros, i => 0)| % 4 == 0
    ensures input + seq(zeros, i => 0) == Padded(input)
  {}

  /** Zeros until the last group is complete. */
  method PadOut(e: Encoder, ghost input: seq<Byte>)
    requires e.Valid() && e.fed == input
    modifies e
    ensures e.Valid() && e.fed == Padded(input)
  {
    ghost var zeros := 0;
    assert input == input + seq(0, i => 0);
    while e.bcount != 0
      invariant e.Valid() && zeros <= (4 - |input| % 4) % 4 && e.fed == input + seq(zeros, i => 0)
      decreases 4 - zeros
    {
      OneMoreZero(input, zeros);
      e.Encode(0);
      zeros := zeros + 1;
    }
    ZerosComplete(input, zeros);
  }

  lemma Complete(fed: seq<Byte>)
    requires |fed| % 4 == 0
    ensures Grouped(fed) == fed
  {}

  /** btoa's main. */
  method EncodeFile(input: seq<Byte>) returns (text: string)
    requires |input| < 0x8000_0000
    ensures text == Btoa(input)
  {
    var e := new Encoder();
    EncodeAll(e, input);
    PadOut(e, input);
    text := PrintEnd(e, |input|);
  }

  /** The end mark and the trailer. */
  method PrintEnd(e: Encoder, n: DWord) returns (text: string)
    requires e.Valid() && |e.fed| % 4 == 0
    ensures text == HEADER + Wrapped(Body(e.fed)) + "\nx" + PrintFields(Formats(), Numbers(n, CheckAll(e.fed)))
  {
    Complete(e.fed);
    var numbers: seq<DWord> := [n, n, e.eor, e.sum, e.rot];
    assert numbers == Numbers(n, CheckAll(e.fed));
    text := e.out + "\nx" + PrintFields(Formats(), numbers);
  }

  // ------------------------------------------------------------ the decoder

  function Pow85(k: nat): (r: nat)
    requires k < 5
  {
    if k == 0 then 1 else if k == 1 then 85 else if k == 2 then 7225 else if k == 3 then 614125 else 52200625
  }

  class Reader {
    var checks: Checks
    var bcount: nat
    var word: DWord
    var tmpfile: seq<Byte>

    ghost predicate Valid()
      reads this
    {
      checks == CheckAll(tmpfile) && bcount < 5 && (0 < bcount ==> word < Pow85(bcount))
    }

    ghost function Now(): (r: DState)
      reads this
    {
      DState(word, bcount, tmpfile)
    }

    constructor ()
      ensures Valid() && Now() == DState(0, 0, [])
    {
      checks, bcount, word, tmpfile := Checks(0, 0, 0), 0, 0, [];
    }

    method ByteOut(c: Byte)
      requires checks == CheckAll(tmpfile)
      modifies `checks, `tmpfile
      ensures checks == CheckAll(tmpfile) && tmpfile == old(tmpfile) + [c]
    {
      ChecksAppend(tmpfile, c);
      checks := CheckByte(checks, c);
      tmpfile := tmpfile + [c];
    }

    method FourOut(a: Byte, b: Byte, c: Byte, d: Byte)
      requires checks == CheckAll(tmpfile)
      modifies `checks, `tmpfile
      ensures checks == CheckAll(tmpfile) && tmpfile == old(tmpfile) + [a, b, c, d]
    {
      ByteOut(a);
      ByteOut(b);
      ByteOut(c);
      ByteOut(d);
    }

    /** One data character; ok is false when the program gives up. */
    method Decode(c: char) returns (ok: bool)
      requires Valid()
      modifies this
      ensures ok <==> DecodeChar(old(Now()), c).Some?
      ensures ok ==> Valid() && Now() == DecodeChar(old(Now()), c).value
    {
      ok := true;
      if c == 'z' {
        if bcount != 0 { ok := false; } else { FourOut(0, 0, 0, 0); }
      } else if ' ' <= c < 'u' {
        var v := c as int - 32;
        if bcount == 0 {
          word := v;
          bcount := bcount + 1;
        } else if bcount < 4 {
          word := word * 85 + v;
          bcount := bcount + 1;
        } else {
          word := (word * 85 + v) % 0x1_0000_0000;
          FourOut(word / 0x100_0000, word / 0x1_0000 % 0x100, word / 0x100 % 0x100, word % 0x100);
          word := 0;
          bcount := 0;
        }
      } else {
        ok := false;
      }
    }
  }

  method SearchHeader(s: string) returns (rest: Option<string>)
    ensures rest == AfterHeader(s)
  {
    var t := s;
    while t != ""
      invariant AfterHeader(t) == AfterHeader(s)
      decreases |t|
    {
      var n := LineLength(t, 0);
      var buf := t[..n];
      t := t[n..];
      if buf == HEADER { return Some(t); }
    }
    rest := None;
  }

  /** atob's loop over the data lines. */
  method DecodeLines(r: Reader, s: string) returns (rest: Option<string>)
    requires r.Valid() && r.Now() == DState(0, 0, [])
    modifies r
    ensures rest.None? <==> ReadData(s, DState(0, 0, [])).None?
    ensures rest.Some? ==> r.Valid() && ReadData(s, DState(0, 0, [])) == Some((r.Now(), rest.value))
  {
    var t := s;
    while t != "" && t[0] != 'x'
      invariant r.Valid() && ReadData(t, r.Now()) == ReadData(s, DState(0, 0, []))
      decreases |t|
    {
      if t[0] != '\n' {
        var ok := r.Decode(t[0]);
        if !ok { return None; }
      }
      t := t[1..];
    }
    rest := Some(if t == "" then "" else t[1..]);
  }

  lemma SameNumbers(ns: seq<DWord>, k: Checks)
    requires |ns| == 5
    ensures ns == Numbers(ns[0], k) <==> ns[1] == ns[0] && ns[2] == k.eor && ns[3] == k.sum && ns[4] == k.rot
  {}

  method CheckTrailer(r: Reader, u: string) returns (bytes: Option<seq<Byte>>)
    requires r.Valid()
    ensures bytes == Checked(r.tmpfile, u)
  {
    var f := ScanFields(u, Formats());
    if f.None? { return None; }
    var ns := f.value;
    SameNumbers(ns, r.checks);
    if ns[0] != ns[1] || ns[2] != r.checks.eor || ns[3] != r.checks.sum || ns[4] != r.checks.rot { return None; }
    bytes := Some(FirstBytes(r.tmpfile, ns[0]));
  }

  /** atob's main. */
  method DecodeFile(text: string) returns (bytes: Option<seq<Byte>>)
    ensures bytes == Atob(text)
  {
    var t := SearchHeader(text);
    if t.None? { return None; }
    var r := new Reader();
    var u := DecodeLines(r, t.value);
    if u.None? { return None; }
    bytes := CheckTrailer(r, u.value);
  }
}
