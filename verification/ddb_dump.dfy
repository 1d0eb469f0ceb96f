/** The text dump: what its blocks are, and that reading them gives the files back. */
module DdbDump {
  import opened Basics

  const BLOCKSIZE := 512
  const SIZEOF_METADATA := 0x1_0000

  type Block = b: seq<Byte> | |b| == BLOCKSIZE witness Zeros(BLOCKSIZE)

  function Zeros(n: nat): (z: seq<Byte>)
    ensures |z| == n
  {
    seq(n, i => 0)
  }

  // ------------------------------------------------------------ ustar headers

  /** printf's %o. */
  function Octal(n: nat): (s: seq<Byte>)
    ensures s != [] && forall i :: 0 <= i < |s| ==> 48 <= s[i] < 56
    decreases n
  {
    if n < 8 then [48 + n] else Octal(n / 8) + [48 + n % 8]
  }

  /** The octal digits at the start, as a number. */
  function OctalOf(s: seq<Byte>, value: nat): (r: nat)
    decreases |s|
  {
    if s != [] && 48 <= s[0] < 56 then OctalOf(s[1..], value * 8 + s[0] - 48) else value
  }

  lemma {:induction false} OctalBack(n: nat, rest: seq<Byte>)
    ensures OctalOf(Octal(n) + rest, 0) == OctalOf(rest, n)
    decreases n
  {
    if n < 8 {
      assert (Octal(n) + rest)[1..] == rest;
    } else {
      var last := [48 + n % 8];
      OctalBack(n / 8, last + rest);
      assert Octal(n) + rest == Octal(n / 8) + (last + rest);
      assert (last + rest)[1..] == rest;
    }
  }

  /** A string in a field of n bytes: cut to n - 1, then zeros. */
  function Field(s: seq<Byte>, n: nat): (f: seq<Byte>)
    requires n > 0
    ensures |f| == n
  {
    if |s| >= n then s[..n - 1] + [0] else s + Zeros(n - |s|)
  }

  const TAR_MODE: seq<Byte> := [48, 54, 48, 48]
  const TAR_ID: seq<Byte> := [48]
  const TAR_USER: seq<Byte> := [114, 111, 111, 116]
  const TAR_GROUP: seq<Byte> := [119, 104, 101, 101, 108]
  const TAR_USTAR: seq<Byte> := [117, 115, 116, 97, 114]

  /** The fields of a header before its checksum. */
  function Front(name: seq<Byte>, size: nat, time: nat): (h: seq<Byte>)
    ensures |h| == 148 && h[..100] == Field(name, 100) && h[124..136] == Field(Octal(size), 12)
  {
    var ids := Field(TAR_MODE, 8) + Field(TAR_ID, 8) + Field(TAR_ID, 8);
    Field(name, 100) + ids + Field(Octal(size), 12) + Field(Octal(time), 12)
  }

  /** Those after it. */
  function Rear(): (h: seq<Byte>)
    ensures |h| == 356
  {
    [0] + Zeros(100) + Field(TAR_USTAR, 6) + Zeros(2) + Field(TAR_USER, 32) + Field(TAR_GROUP, 32) + Zeros(183)
  }

  function Head(name: seq<Byte>, size: nat, time: nat, sum: seq<Byte>): (h: Block)
    requires |sum| == 8
    ensures h[..100] == Field(name, 100) && h[124..136] == Field(Octal(size), 12)
  {
    var f := Front(name, size, time);
    var h := f + (sum + Rear());
    assert h[..100] == f[..100] && h[124..136] == f[124..136];
    h
  }

  function Sum(b: seq<Byte>): (r: nat) { if b == [] then 0 else Sum(b[..|b| - 1]) + b[|b| - 1] }

  /** A number in octal, in a field of six, blanks before it. */
  function Octal6(n: nat): (s: seq<Byte>)
    ensures |s| >= 6
  {
    if |Octal(n)| >= 6 then Octal(n) else seq(6 - |Octal(n)|, i => 32) + Octal(n)
  }

  /** textdump_mkustar: the header of a file, with its checksum taken over blanks in its place. */
  function Ustar(name: seq<Byte>, size: nat, time: nat): (r: Block) {
    var s := Octal6(Sum(Head(name, size, time, seq(8, i => 32))));
    Head(name, size, time, (if |s| >= 8 then s[..7] else s) + [0] + seq(if |s| >= 8 then 0 else 7 - |s|, i => 32))
  }

  /** The size a header gives. */
  function SizeIn(h: Block): (r: nat) { OctalOf(h[124..136], 0) }

  /** A header's size is read back, if its octal digits fit. */
  lemma {:induction false} SizeBack(name: seq<Byte>, size: nat, time: nat)
    requires |Octal(size)| <= 11
    ensures SizeIn(Ustar(name, size, time)) == size
  {
    var h := Ustar(name, size, time);
    assert h[124..136] == Octal(size) + Zeros(12 - |Octal(size)|);
    OctalBack(size, Zeros(12 - |Octal(size)|));
  }

  function NameIn(h: Block): (r: seq<Byte>) { UpToZero(h[..100]) }

  function UpToZero(s: seq<Byte>): (r: seq<Byte>) {
    if s == [] || s[0] == 0 then [] else [s[0]] + UpToZero(s[1..])
  }

  lemma {:induction false} UpToZeroBack(s: seq<Byte>, k: nat)
    requires forall i :: 0 <= i < |s| ==> s[i] != 0
    ensures UpToZero(s + Zeros(k)) == s
    decreases |s|
  {
    if s != [] {
      assert (s + Zeros(k))[1..] == s[1..] + Zeros(k);
      UpToZeroBack(s[1..], k);
    } else {
      assert s + Zeros(k) == Zeros(k);
    }
  }

  lemma NameBack(name: seq<Byte>, size: nat, time: nat)
    requires |name| < 100 && forall i :: 0 <= i < |name| ==> name[i] != 0
    ensures NameIn(Ustar(name, size, time)) == name
  {
    assert Ustar(name, size, time)[..100] == name + Zeros(100 - |name|);
    UpToZeroBack(name, 100 - |name|);
  }

  // ------------------------------------------------------------ files as blocks

  function Pad(s: seq<Byte>): (b: Block)
    requires |s| <= BLOCKSIZE
  {
    s + Zeros(BLOCKSIZE - |s|)
  }

  /** The data in blocks, the last one filled with zeros. */
  function Blocks(data: seq<Byte>): (r: seq<Block>) {
    if data == [] then []
    else if |data| <= BLOCKSIZE then [Pad(data)]
    else [data[..BLOCKSIZE]] + Blocks(data[BLOCKSIZE..])
  }

  function Concat(bs: seq<Block>): (s: seq<Byte>)
    ensures |s| == BLOCKSIZE * |bs|
  {
    if bs == [] then [] else bs[0] + Concat(bs[1..])
  }

  function Ceiling(n: nat): (r: nat) { (n + BLOCKSIZE - 1) / BLOCKSIZE }

  lemma {:induction false} BlocksHold(data: seq<Byte>)
    ensures |Blocks(data)| == Ceiling(|data|) && |data| <= |Concat(Blocks(data))|
    ensures Concat(Blocks(data))[..|data|] == data
    decreases |data|
  {
    if data == [] {
    } else if |data| <= BLOCKSIZE {
      var b := Pad(data);
      assert Concat([b]) == b + Concat([b][1..]) == b;
    } else {
      var rest := data[BLOCKSIZE..];
      BlocksHold(rest);
      var bs := Blocks(data);
      assert bs[1..] == Blocks(rest);
      assert Concat(bs) == data[..BLOCKSIZE] + Concat(Blocks(rest));
      assert Concat(bs)[..|data|] == data[..BLOCKSIZE] + Concat(Blocks(rest))[..|rest|];
    }
  }

  /** A file of the dump. */
  datatype File = File(name: seq<Byte>, data: seq<Byte>)

  function FileBlocks(f: File, time: nat): (r: seq<Block>) { [Ustar(f.name, |f.data|, time)] + Blocks(f.data) }

  /** Reading a stream of blocks as an archive. */
  function Untar(bs: seq<Block>): (r: Option<seq<File>>)
    decreases |bs|
  {
    if bs == [] then Some([])
    else
      var size := SizeIn(bs[0]);
      var n := Ceiling(size);
      if 1 + n > |bs| then None
      else
        match Untar(bs[1 + n..])
        case None => None
        case Some(fs) =>
          var data := Concat(bs[1..1 + n]);
          CeilingCovers(size);
          Some([File(NameIn(bs[0]), data[..size])] + fs)
  }

  lemma CeilingCovers(n: nat)
    ensures n <= BLOCKSIZE * Ceiling(n)
  {}

  ghost predicate Proper(f: File) {
    0 < |f.name| < 100 && (forall i :: 0 <= i < |f.name| ==> f.name[i] != 0) && |Octal(|f.data|)| <= 11
  }

  /** A file is recovered from the front of a stream, with exactly its bytes. */
  lemma UntarOne(f: File, rest: seq<Block>, fs: seq<File>, time: nat)
    requires Proper(f) && Untar(rest) == Some(fs)
    ensures Untar(FileBlocks(f, time) + rest) == Some([f] + fs)
  {
    var bs := FileBlocks(f, time) + rest;
    var n := Ceiling(|f.data|);
    SizeBack(f.name, |f.data|, time);
    NameBack(f.name, |f.data|, time);
    BlocksHold(f.data);
    assert bs[1..1 + n] == Blocks(f.data) && bs[1 + n..] == rest;
  }

  // ------------------------------------------------------------ the checksum

  lemma {:induction false} SumSmall(b: seq<Byte>)
    ensures Sum(b) <= 255 * |b|
    decreases |b|
  {
    if b != [] { SumSmall(b[..|b| - 1]); }
  }

  function Pow8(k: nat): (p: nat) { if k == 0 then 1 else 8 * Pow8(k - 1) }

  lemma {:induction false} OctalShort(n: nat, k: nat)
    requires k > 0 && n < Pow8(k)
    ensures |Octal(n)| <= k
    decreases k
  {
    if n >= 8 { OctalShort(n / 8, k - 1); }
  }

  function AfterBlanks(s: seq<Byte>): (r: seq<Byte>) {
    if s != [] && s[0] == 32 then AfterBlanks(s[1..]) else s
  }

  lemma {:induction false} BlanksPassed(k: nat, s: seq<Byte>)
    requires s != [] && s[0] != 32
    ensures AfterBlanks(seq(k, i => 32) + s) == s
    decreases k
  {
    var all := seq(k, i => 32) + s;
    if k == 0 { assert all == s; } else {
      assert all[1..] == seq(k - 1, i => 32) + s;
      BlanksPassed(k - 1, s);
    }
  }

  /** The header with blanks for its checksum, over which the checksum is taken. */
  function WithoutSum(h: Block): (b: Block) { h[..148] + seq(8, i => 32) + h[156..] }

  /** Six octal digits, blanks before them, a zero and a blank. */
  lemma SumField(name: seq<Byte>, size: nat, time: nat, sum: nat)
    requires sum == Sum(Head(name, size, time, seq(8, i => 32)))
    ensures |Octal6(sum)| == 6 && Ustar(name, size, time) == Head(name, size, time, Octal6(sum) + [0] + [32])
  {
    SumSmall(Head(name, size, time, seq(8, i => 32)));
    assert Pow8(6) == 262144;
    OctalShort(sum, 6);
    assert seq(1, i => 32) == [32];
  }

  lemma HeadParts(name: seq<Byte>, size: nat, time: nat, sum: seq<Byte>)
    requires |sum| == 8
    ensures var h := Head(name, size, time, sum);
      h[148..156] == sum && WithoutSum(h) == Head(name, size, time, seq(8, i => 32))
  {}

  /** The checksum in a header is the sum of its bytes, with blanks in the checksum's place. */
  lemma {:induction false} ChecksumBack(name: seq<Byte>, size: nat, time: nat)
    ensures var h := Ustar(name, size, time);
      OctalOf(AfterBlanks(h[148..156]), 0) == Sum(WithoutSum(h))
  {
    var sum := Sum(Head(name, size, time, seq(8, i => 32)));
    var field := Octal6(sum) + [0] + [32];
    SumField(name, size, time, sum);
    HeadParts(name, size, time, field);
    var rest := Octal(sum) + [0, 32];
    assert field == seq(6 - |Octal(sum)|, i => 32) + rest;
    BlanksPassed(6 - |Octal(sum)|, rest);
    OctalBack(sum, [0, 32]);
  }

  // ------------------------------------------------------------ the other fields

  lemma {:induction false} ReadDigits(n: nat, z: seq<Byte>)
    requires forall i :: 0 <= i < |z| ==> z[i] == 0
    ensures OctalOf(Octal(n) + z, 0) == n
  {
    OctalBack(n, z);
  }

  lemma {:induction false} FrontTime(name: seq<Byte>, size: nat, time: nat)
    requires |Octal(time)| <= 11
    ensures Front(name, size, time)[136..] == Octal(time) + Zeros(12 - |Octal(time)|)
  {}

  lemma {:induction false} TimeField(name: seq<Byte>, size: nat, time: nat)
    requires |Octal(time)| <= 11
    ensures Ustar(name, size, time)[136..148] == Octal(time) + Zeros(12 - |Octal(time)|)
  {
    FrontTime(name, size, time);
    var f := Front(name, size, time);
    assert Ustar(name, size, time)[..148] == f && f[136..148] == f[136..];
  }

  /** The time is read back from a header, if its octal digits fit. */
  lemma {:induction false} TimeBack(name: seq<Byte>, size: nat, time: nat)
    requires |Octal(time)| <= 11
    ensures OctalOf(Ustar(name, size, time)[136..148], 0) == time
  {
    TimeField(name, size, time);
    ReadDigits(time, Zeros(12 - |Octal(time)|));
  }

  lemma ModeField(name: seq<Byte>, size: nat, time: nat)
    ensures Front(name, size, time)[100..108] == [48, 54, 48, 48] + Zeros(4)
  {}

  lemma FormatField()
    ensures Rear()[0] == 0 && Rear()[101..107] == [117, 115, 116, 97, 114] + Zeros(1)
  {}

  lemma {:induction false} ModeBack()
    ensures OctalOf([48, 54, 48, 48] + Zeros(4), 0) == 0x180
  {
    assert ([48, 54, 48, 48] + Zeros(4))[1..] == [54, 48, 48] + Zeros(4) && Octal(0x180) == [54, 48, 48];
    OctalBack(0x180, Zeros(4));
  }

  lemma UstarParts(name: seq<Byte>, size: nat, time: nat)
    ensures Ustar(name, size, time)[..148] == Front(name, size, time) && Ustar(name, size, time)[156..] == Rear()
  {}

  lemma Slices(h: seq<Byte>, f: seq<Byte>, r: seq<Byte>)
    requires |h| == 512 && h[..148] == f && h[156..] == r
    ensures h[100..108] == f[100..108] && h[257..263] == r[101..107] && h[156] == r[0]
  {}

  /** A header says that it is of the ustar format, of a plain file with mode 0600. */
  lemma {:induction false} FormatGiven(name: seq<Byte>, size: nat, time: nat)
    ensures var h := Ustar(name, size, time);
      OctalOf(h[100..108], 0) == 0x180 && h[156] == 0 && UpToZero(h[257..263]) == [117, 115, 116, 97, 114]
  {
    UstarParts(name, size, time);
    Slices(Ustar(name, size, time), Front(name, size, time), Rear());
    ModeField(name, size, time);
    ModeBack();
    FormatField();
    UpToZeroBack([117, 115, 116, 97, 114], 1);
  }
}
