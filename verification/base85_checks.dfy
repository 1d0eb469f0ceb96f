/** What the checksums of btoa and atob are, and that a wrong byte is noticed. */
module Base85Checks {
  import opened Arithmetic
  import opened Basics
  import opened Sequences
  import opened Base85
  import opened Base85Laws

  predicate BitOf(x: nat, k: nat) { x / Pow2(k) % 2 == 1 }

  lemma HalfBit(x: nat, k: nat)
    requires k > 0
    ensures BitOf(x, k) <==> BitOf(x / 2, k - 1)
  {
    DivDiv(x, 2, Pow2(k - 1));
  }

  lemma FirstBit(x: nat)
    ensures BitOf(x, 0) <==> x % 2 == 1
  {
    assert Pow2(0) == 1;
  }

  lemma {:induction false} XorHalves(a: nat, b: nat, bits: nat)
    requires bits > 0
    ensures XorBits(a, b, bits) % 2 == (a + b) % 2 && XorBits(a, b, bits) / 2 == XorBits(a / 2, b / 2, bits - 1)
  {}

  lemma {:induction false} LowestXor(a: nat, b: nat, x: nat)
    requires x % 2 == (a + b) % 2
    ensures BitOf(x, 0) <==> BitOf(a, 0) != BitOf(b, 0)
  {
    FirstBit(x);
    FirstBit(a);
    FirstBit(b);
  }

  /** A bit of the exclusive or is set where exactly one of the two has it. */
  lemma {:induction false} XorBitwise(a: nat, b: nat, bits: nat, k: nat)
    requires k < bits
    ensures BitOf(XorBits(a, b, bits), k) <==> BitOf(a, k) != BitOf(b, k)
    decreases bits
  {
    XorHalves(a, b, bits);
    if k == 0 {
      LowestXor(a, b, XorBits(a, b, bits));
    } else {
      XorBitwise(a / 2, b / 2, bits - 1, k - 1);
      HalfBit(XorBits(a, b, bits), k);
      HalfBit(a, k);
      HalfBit(b, k);
    }
  }

  /** How many of the bytes have bit k. */
  function WithBit(bytes: seq<Byte>, k: nat): (n: nat) {
    if bytes == [] then 0 else WithBit(bytes[..|bytes| - 1], k) + if BitOf(bytes[|bytes| - 1], k) then 1 else 0
  }

  function Total(bytes: seq<Byte>): (n: nat) {
    if bytes == [] then 0 else Total(bytes[..|bytes| - 1]) + bytes[|bytes| - 1]
  }

  /** The checksums with one more byte. */
  lemma ChecksOn(bytes: seq<Byte>)
    requires bytes != []
    ensures var k, c := CheckAll(bytes[..|bytes| - 1]), bytes[|bytes| - 1];
      CheckAll(bytes) == Checks(Xor(k.eor, c), (k.sum + c + 1) % 0x1_0000_0000, RotateAdd(k.rot, c))
  {}

  lemma OneMoreOdd(n: nat, b: bool)
    ensures (n + if b then 1 else 0) % 2 == 1 <==> (n % 2 == 1) != b
  {}

  lemma {:induction false} EorStep(e: Byte, c: Byte, n: nat, k: nat)
    requires k < 8 && (BitOf(e, k) <==> n % 2 == 1)
    ensures BitOf(Xor(e, c), k) <==> (n + if BitOf(c, k) then 1 else 0) % 2 == 1
  {
    XorBitwise(e, c, 8, k);
    OneMoreOdd(n, BitOf(c, k));
  }

  lemma NoBits(k: nat)
    ensures !BitOf(0, k)
  {}

  /** A bit of the first checksum is set when an odd number of bytes have it. */
  lemma {:induction false} EorIs(bytes: seq<Byte>, k: nat)
    requires k < 8
    ensures BitOf(CheckAll(bytes).eor, k) <==> WithBit(bytes, k) % 2 == 1
    decreases |bytes|
  {
    if bytes == [] {
      NoBits(k);
    } else {
      var init, c := bytes[..|bytes| - 1], bytes[|bytes| - 1];
      EorIs(init, k);
      ChecksOn(bytes);
      EorStep(CheckAll(init).eor, c, WithBit(init, k), k);
    }
  }

  lemma SumOn(s: int, n: int, c: int)
    ensures ((s + n) % 0x1_0000_0000 + c + 1) % 0x1_0000_0000 == (s + c + (n + 1)) % 0x1_0000_0000
  {}

  /** The second is the sum of the bytes and their number. */
  lemma {:induction false} SumIs(bytes: seq<Byte>)
    ensures CheckAll(bytes).sum == (Total(bytes) + |bytes|) % 0x1_0000_0000
    decreases |bytes|
  {
    if bytes != [] {
      SumIs(bytes[..|bytes| - 1]);
      ChecksOn(bytes);
      SumOn(Total(bytes[..|bytes| - 1]), |bytes| - 1, bytes[|bytes| - 1]);
    }
  }

  lemma Rotated(r: DWord, c: Byte)
    ensures RotateAdd(r, c) == (2 * (r % 0x8000_0000) + r / 0x8000_0000 + c) % 0x1_0000_0000
  {
    if r >= 0x8000_0000 { assert 2 * r % 0x1_0000_0000 == 2 * (r - 0x8000_0000); }
  }

  /** The third is turned to the left by one bit before a byte is added. */
  lemma RotationIs(bytes: seq<Byte>, c: Byte)
    ensures var r := CheckAll(bytes).rot;
      CheckAll(bytes + [c]).rot == (2 * (r % 0x8000_0000) + r / 0x8000_0000 + c) % 0x1_0000_0000
  {
    assert (bytes + [c])[..|bytes|] == bytes;
    ChecksOn(bytes + [c]);
    Rotated(CheckAll(bytes).rot, c);
  }

  // ------------------------------------------------------------ one wrong byte

  /** The two differ at place i and nowhere else. */
  predicate OnlyAt(s: seq<Byte>, t: seq<Byte>, i: nat) {
    |s| == |t| && i < |s| && s[i] != t[i] && forall j :: 0 <= j < |s| && j != i ==> s[j] == t[j]
  }

  lemma {:induction false} BitsDiffer(a: nat, b: nat, n: nat) returns (k: nat)
    requires a < Pow2(n) && b < Pow2(n) && a != b
    ensures k < n && BitOf(a, k) != BitOf(b, k)
    decreases n
  {
    if a % 2 != b % 2 {
      k := 0;
      FirstBit(a);
      FirstBit(b);
    } else {
      var j := BitsDiffer(a / 2, b / 2, n - 1);
      k := j + 1;
      HalfBit(a, k);
      HalfBit(b, k);
    }
  }

  lemma {:induction false} OneMoreBit(s: seq<Byte>, t: seq<Byte>, i: nat, k: nat)
    requires OnlyAt(s, t, i)
    ensures WithBit(t, k) - WithBit(s, k) == (if BitOf(t[i], k) then 1 else 0) - if BitOf(s[i], k) then 1 else 0
    decreases |s|
  {
    var n := |s| - 1;
    if i == n { assert s[..n] == t[..n]; } else { OneMoreBit(s[..n], t[..n], i, k); }
  }

  lemma {:induction false} ByteBits(a: Byte, b: Byte) returns (k: nat)
    requires a != b
    ensures k < 8 && BitOf(a, k) != BitOf(b, k)
  {
    Pow2Values();
    k := BitsDiffer(a, b, 8);
  }

  /** One wrong byte changes the first checksum. */
  lemma {:induction false} OneByteNoticed(s: seq<Byte>, t: seq<Byte>, i: nat)
    requires OnlyAt(s, t, i)
    ensures CheckAll(s).eor != CheckAll(t).eor
  {
    var k := ByteBits(s[i], t[i]);
    EorIs(s, k);
    EorIs(t, k);
    OneMoreBit(s, t, i, k);
    Parities(WithBit(s, k), WithBit(t, k));
  }

  lemma Parities(m: nat, n: nat)
    requires m - n == 1 || n - m == 1
    ensures m % 2 != n % 2
  {}

  lemma OtherRefused(bytes: seq<Byte>, got: seq<Byte>)
    requires |bytes| < 0x8000_0000 && CheckAll(got).eor != CheckAll(Padded(bytes)).eor
    ensures Checked(got, Trailer(bytes)) == None
  {
    var ns := Numbers(|bytes|, CheckAll(Padded(bytes)));
    FieldsScan(Formats(), ns);
    assert ns[2] != Numbers(ns[0], CheckAll(got))[2];
  }

  lemma PaddedOnlyAt(s: seq<Byte>, t: seq<Byte>, i: nat)
    requires OnlyAt(s, t, i)
    ensures OnlyAt(Padded(s), Padded(t), i)
  {}

  /** A text whose body stands for a file that differs in one byte from the one its trailer is for is
      refused. */
  lemma WrongByteRefused(bytes: seq<Byte>, wrong: seq<Byte>, i: nat)
    requires |bytes| < 0x8000_0000 && OnlyAt(bytes, wrong, i)
    ensures Atob(HEADER + (Wrapped(Body(Padded(wrong))) + "\nx" + Trailer(bytes))) == None
  {
    DataDecodes(wrong, Trailer(bytes));
    AtobParts(Wrapped(Body(Padded(wrong))) + "\nx" + Trailer(bytes), Padded(wrong), Trailer(bytes));
    PaddedOnlyAt(bytes, wrong, i);
    OneByteNoticed(Padded(bytes), Padded(wrong), i);
    OtherRefused(bytes, Padded(wrong));
  }

  // ------------------------------------------------------------ on paper

  function Dec(n: nat): (s: string) { Printed(n, 10) }
  function HexOf(n: nat): (s: string) { Printed(n, 16) }

  /** The trailer: the count in decimal and in hexadecimal, then the three checksums. */
  lemma {:induction false} TrailerLayout(bytes: seq<Byte>)
    requires |bytes| < 0x8000_0000
    ensures var n, k := |bytes|, CheckAll(Padded(bytes));
      Trailer(bytes) == "btoa End N " + (Dec(n) + (" " + (HexOf(n) + (" E " + (HexOf(k.eor)
                        + (" S " + (HexOf(k.sum) + (" R " + (HexOf(k.rot) + "\n")))))))))
  {
    var fs, ns := Formats(), Numbers(|bytes|, CheckAll(Padded(bytes)));
    assert PrintFields(fs[5..], ns[5..]) == "\n";
    FieldOf(fs, ns, 4);
    FieldOf(fs, ns, 3);
    FieldOf(fs, ns, 2);
    FieldOf(fs, ns, 1);
    FieldOf(fs, ns, 0);
    assert fs[0..] == fs && ns[0..] == ns;
  }

  lemma {:induction false} FieldOf(fs: seq<Format>, ns: seq<DWord>, i: nat)
    requires |fs| == |ns| > i && forall j :: 0 <= j < |fs| ==> GoodFormat(fs[j])
    ensures PrintFields(fs[i..], ns[i..])
      == fs[i].literal + (Printed(ns[i], fs[i].base) + PrintFields(fs[i + 1..], ns[i + 1..]))
  {
    assert fs[i..][1..] == fs[i + 1..] && ns[i..][1..] == ns[i + 1..];
  }

  /** Between the header line and it the body, in lines of at most 78 characters. */
  lemma {:induction false} TextLayout(bytes: seq<Byte>)
    requires |bytes| < 0x8000_0000
    ensures Btoa(bytes) == "xbtoa Begin\n" + (Wrapped(Body(Padded(bytes))) + ("\nx" + Trailer(bytes)))
  {
    BtoaParts(bytes);
    Associative(Wrapped(Body(Padded(bytes))), "\nx", Trailer(bytes));
  }

  // ------------------------------------------------------------ what is refused

  /** A character is refused when it is none of the 85 digits, and a z within a group. */
  lemma RefusedIff(d: DState, c: char)
    ensures DecodeChar(d, c) == None <==> if c == 'z' then d.bcount != 0 else c < ' ' || c > 't'
  {}

  /** The count decides how much is written: what was decoded, cut short, or followed by bytes of 255. */
  lemma CountDecides(bytes: seq<Byte>, n: DWord, i: nat)
    requires n < 0x8000_0000 && i < n
    ensures |FirstBytes(bytes, n)| == n && FirstBytes(bytes, n)[i] == if i < |bytes| then bytes[i] else 255
  {}
}
