/** The files at the two ends: what a receiver makes of a sender's blocks when it
    decodes each of them once, in text and in binary mode. */
module XmodemText {
  import opened Basics
  import opened Sequences
  import opened Xmodem
  import opened XmodemAsync
  import opened XmodemRounds

  function Concat(bs: seq<seq<Byte>>): (r: seq<Byte>) {
    if bs == [] then [] else bs[0] + Concat(bs[1..])
  }

  /** What is written to the file when the blocks are unpacked one after the other. */
  function Decode(bs: seq<Block>, nlflag: bool, recfin: bool): (r: seq<Byte>) {
    if bs == [] then []
    else
      var u := Unpack(true, nlflag, recfin, bs[0]);
      u.out + Decode(bs[1..], u.nlflag, u.recfin)
  }

  /** The receiver after getting blocks n + 1, n + 2, ... undamaged and once each. */
  function ReceiveAll(r: RState, tmode: bool, bs: seq<Block>, n: nat): (result: RState)
    decreases |bs|
  {
    if bs == [] then r
    else ReceiveAll(Receive(r, tmode, Soh(MakePacket(n + 1, bs[0]))).0, tmode, bs[1..], n + 1)
  }

  lemma ConcatAppend(a: seq<seq<Byte>>, b: seq<seq<Byte>>)
    ensures Concat(a + b) == Concat(a) + Concat(b)
  {
    if a == [] {
      assert a + b == b;
    } else {
      assert (a + b)[0] == a[0] && (a + b)[1..] == a[1..] + b;
      ConcatAppend(a[1..], b);
    }
  }

  lemma {:induction false} ReceiveAllDecodes(r: RState, bs: seq<Block>, n: nat)
    requires r.sectnum == n % 256
    ensures Concat(ReceiveAll(r, true, bs, n).written) == Concat(r.written) + Decode(bs, r.nlflag, r.recfin)
    decreases |bs|
  {
    if bs != [] {
      HeaderAddsUp(n + 1);
      var u := Unpack(true, r.nlflag, r.recfin, bs[0]);
      var r' := Receive(r, true, Soh(MakePacket(n + 1, bs[0]))).0;
      assert (n + 1) % 256 == (r.sectnum + 1) % 256;
      assert r'.written == r.written + [u.out];
      ConcatAppend(r.written, [u.out]);
      assert Concat([u.out]) == u.out;
      ReceiveAllDecodes(r', bs[1..], n + 1);
      Associative(Concat(r.written), u.out, Decode(bs[1..], u.nlflag, u.recfin));
    }
  }

  // ------------------------------------------------------------ decoding byte by byte

  /** The decoder between two bytes: what earlier packets have put into the file, the
      packet being unpacked, and how many of its bytes have been taken. */
  datatype Feeder = Feeder(done: seq<Byte>, u: Unpacked, j: nat)

  function FeedByte(st: Feeder, c: Byte): (r: Feeder) {
    var u := UnpackChar(st.u, c, st.j + 1 == BBUFSIZ);
    if st.j + 1 == BBUFSIZ then Feeder(st.done + u.out, Unpacked([], u.nlflag, u.recfin), 0)
    else Feeder(st.done, u, st.j + 1)
  }

  function Feed(st: Feeder, s: seq<Byte>): (r: Feeder)
    decreases |s|
  {
    if s == [] then st else Feed(FeedByte(st, s[0]), s[1..])
  }

  lemma FeedTwo(st: Feeder, a: Byte, b: Byte)
    ensures Feed(st, [a, b]) == FeedByte(FeedByte(st, a), b)
  {
    assert [a, b][1..] == [b];
    assert Feed(FeedByte(st, a), [b]) == Feed(FeedByte(FeedByte(st, a), b), [b][1..]);
  }

  const Fresh := Feeder([], Unpacked([], false, false), 0)

  lemma {:induction false} FeedAppend(st: Feeder, a: seq<Byte>, b: seq<Byte>)
    ensures Feed(st, a + b) == Feed(Feed(st, a), b)
    decreases |a|
  {
    if a == [] {
      assert a + b == b;
    } else {
      assert (a + b)[0] == a[0] && (a + b)[1..] == a[1..] + b;
      FeedAppend(FeedByte(st, a[0]), a[1..], b);
    }
  }

  lemma {:induction false} FeedPart(done: seq<Byte>, u: Unpacked, b: Block, k: nat)
    requires k < BBUFSIZ
    ensures Feed(Feeder(done, u, 0), b[..k]) == Feeder(done, UnpackText(u, b, k), k)
  {
    if k > 0 {
      FeedPart(done, u, b, k - 1);
      assert b[..k] == b[..k - 1] + [b[k - 1]];
      FeedAppend(Feeder(done, u, 0), b[..k - 1], [b[k - 1]]);
    }
  }

  lemma FeedBlock(st: Feeder, b: Block)
    requires st.j == 0 && st.u.out == []
    ensures var u := Unpack(true, st.u.nlflag, st.u.recfin, b);
      Feed(st, b) == Feeder(st.done + u.out, Unpacked([], u.nlflag, u.recfin), 0)
  {
    FeedPart(st.done, st.u, b, BBUFSIZ - 1);
    assert b == b[..BBUFSIZ - 1] + [b[BBUFSIZ - 1]];
    FeedAppend(st, b[..BBUFSIZ - 1], [b[BBUFSIZ - 1]]);
  }

  /** Decoding blocks is decoding the bytes they are made of. */
  lemma {:induction false} DecodeIsFeed(st: Feeder, bs: seq<Block>)
    requires st.j == 0 && st.u.out == []
    ensures var st' := Feed(st, Concat(bs));
      st'.done == st.done + Decode(bs, st.u.nlflag, st.u.recfin) && st'.j == 0 && st'.u.out == []
    decreases |bs|
  {
    if bs != [] {
      FeedAppend(st, bs[0], Concat(bs[1..]));
      FeedBlock(st, bs[0]);
      var u := Unpack(true, st.u.nlflag, st.u.recfin, bs[0]);
      DecodeIsFeed(Feed(st, bs[0]), bs[1..]);
      Associative(st.done, u.out, Decode(bs[1..], u.nlflag, u.recfin));
    }
  }

  // ------------------------------------------------------------ files without Ctrl-Z

  /** All the text decoded so far, with a carriage return that is being held back. */
  function Text(st: Feeder): (r: seq<Byte>) {
    st.done + st.u.out + if st.u.nlflag then [CR] else []
  }

  predicate EndsInCr(s: seq<Byte>) { s != [] && s[|s| - 1] == CR }

  /** No end of file yet, and a final carriage return can still be joined with a line feed. */
  predicate Open(st: Feeder) {
    && !st.u.recfin && st.j < BBUFSIZ && (st.u.nlflag ==> st.j == 0 && st.u.out == [])
    && (EndsInCr(Text(st)) ==> st.u.nlflag || EndsInCr(st.u.out))
  }

  lemma FeedPlain(st: Feeder, c: Byte)
    requires Open(st) && c != LF && c != CTRLZ
    ensures var st' := FeedByte(st, c); Open(st') && Text(st') == Text(st) + [c]
  {}

  lemma FeedLineEnd(st: Feeder)
    requires Open(st)
    ensures var st' := Feed(st, [CR, LF]); Open(st') && Text(st') == Text(st) + [LF]
  {
    FeedPlain(st, CR);
    var st1 := FeedByte(st, CR);
    FeedTwo(st, CR, LF);
    assert Text(st) + [LF] == Text(st1)[|Text(st1)| - 1 := LF];
  }

  lemma FeedChar(st: Feeder, c: Byte)
    requires Open(st) && c != CTRLZ
    ensures var st' := Feed(st, ExpandChar(c)); Open(st') && Text(st') == Text(st) + [c]
  {
    if c == LF {
      FeedLineEnd(st);
    } else {
      FeedPlain(st, c);
      assert [c][1..] == [];
    }
  }

  lemma {:induction false} FeedExpanded(st: Feeder, f: seq<Byte>)
    requires Open(st) && CTRLZ !in f
    ensures var st' := Feed(st, Expand(f)); Open(st') && Text(st') == Text(st) + f
    decreases |f|
  {
    if f != [] {
      FeedAppend(st, ExpandChar(f[0]), Expand(f[1..]));
      FeedChar(st, f[0]);
      FeedExpanded(Feed(st, ExpandChar(f[0])), f[1..]);
      Associative(Text(st), [f[0]], f[1..]);
      assert f == [f[0]] + f[1..];
    }
  }

  lemma {:induction false} FeedPadding(st: Feeder, k: nat)
    requires (Open(st) && k > 0) || (st.u.recfin && !st.u.nlflag && st.j < BBUFSIZ)
    ensures var st' := Feed(st, CtrlZs(k)); st'.u.recfin && !st'.u.nlflag && Text(st') == Text(st)
    decreases k
  {
    if k > 0 {
      assert CtrlZs(k)[1..] == CtrlZs(k - 1);
      FeedPadding(FeedByte(st, CTRLZ), k - 1);
    }
  }

  // ------------------------------------------------------------ files with Ctrl-Z

  /** How much text there is so far. */
  function Amount(st: Feeder): (r: nat) { |Text(st)| }

  function Count(f: seq<Byte>, c: Byte): (r: nat) { multiset(f)[c] }

  lemma CountCons(f: seq<Byte>, c: Byte)
    requires f != []
    ensures Count(f, c) == (if f[0] == c then 1 else 0) + Count(f[1..], c)
  {
    assert f == [f[0]] + f[1..];
  }

  /** Between the two bytes of a line end. */
  predicate HalfWay(st: Feeder) { st.u.recfin || (st.u.nlflag && st.u.out == []) || EndsInCr(st.u.out) }

  lemma FeedGrows(st: Feeder, c: Byte)
    ensures Amount(FeedByte(st, c)) <= Amount(st) + if c == CTRLZ then 0 else 1
    ensures c == CR ==> HalfWay(FeedByte(st, c)) || st.j + 1 == BBUFSIZ
    ensures c == CR && st.j + 1 == BBUFSIZ ==> HalfWay(FeedByte(st, c))
    ensures c == LF && HalfWay(st) ==> Amount(FeedByte(st, c)) <= Amount(st)
  {}

  lemma FeedCharGrows(st: Feeder, c: Byte)
    ensures Amount(Feed(st, ExpandChar(c))) <= Amount(st) + if c == CTRLZ then 0 else 1
  {
    if c == LF {
      FeedTwo(st, CR, LF);
      FeedGrows(st, CR);
      FeedGrows(FeedByte(st, CR), LF);
    } else {
      FeedGrows(st, c);
      assert [c][1..] == [];
    }
  }

  lemma {:induction false} FeedShrinks(st: Feeder, f: seq<Byte>)
    ensures Amount(Feed(st, Expand(f))) <= Amount(st) + |f| - Count(f, CTRLZ)
    decreases |f|
  {
    if f != [] {
      FeedAppend(st, ExpandChar(f[0]), Expand(f[1..]));
      FeedCharGrows(st, f[0]);
      FeedShrinks(Feed(st, ExpandChar(f[0])), f[1..]);
      CountCons(f, CTRLZ);
    }
  }

  lemma {:induction false} PaddingAddsNothing(st: Feeder, k: nat)
    ensures Amount(Feed(st, CtrlZs(k))) <= Amount(st)
    decreases k
  {
    if k > 0 {
      assert CtrlZs(k)[1..] == CtrlZs(k - 1);
      FeedGrows(st, CTRLZ);
      PaddingAddsNothing(FeedByte(st, CTRLZ), k - 1);
    }
  }

  // ------------------------------------------------------------ what the sender's blocks hold

  lemma {:induction false} TextBlocksConcat(c28: bool, p: seq<Byte>, stale: Block)
    ensures exists k :: 1 <= k <= 128 && Concat(Blocks(true, c28, p, stale)) == p + CtrlZs(k)
    decreases |p|
  {
    var bs := Blocks(true, c28, p, stale);
    if |p| >= BBUFSIZ {
      TextBlocksConcat(c28, p[BBUFSIZ..], p[..BBUFSIZ]);
      var k :| 1 <= k <= BBUFSIZ
        && Concat(Blocks(true, c28, p[BBUFSIZ..], p[..BBUFSIZ])) == p[BBUFSIZ..] + CtrlZs(k);
      assert Concat(bs) == p[..BBUFSIZ] + (p[BBUFSIZ..] + CtrlZs(k));
      assert Concat(bs) == p + CtrlZs(k);
    } else {
      assert Concat(bs) == bs[0];
    }
  }

  lemma {:induction false} BinaryBlocksConcat(c28: bool, p: seq<Byte>, stale: Block)
    ensures var bs := Blocks(false, c28, p, stale);
      p <= Concat(bs) && |bs| == if c28 then (|p| + 127) / 128 else |p| / 128 + 1
    decreases |p|
  {
    var bs := Blocks(false, c28, p, stale);
    if |p| >= BBUFSIZ {
      BinaryBlocksConcat(c28, p[BBUFSIZ..], p[..BBUFSIZ]);
      var rest := Blocks(false, c28, p[BBUFSIZ..], p[..BBUFSIZ]);
      assert p == p[..BBUFSIZ] + p[BBUFSIZ..];
      assert Concat(bs) == p[..BBUFSIZ] + Concat(rest);
    } else if p != [] || !c28 {
      assert Concat(bs) == bs[0];
    }
  }

  /** In the text that is sent every line feed has a carriage return before it. */
  lemma {:induction false} ExpandIs(f: seq<Byte>, c: Byte, g: seq<Byte>)
    ensures Expand(f + [c] + g) == Expand(f) + (if c == 10 then [13, 10] else [c]) + Expand(g)
    decreases |f|
  {
    var s := f + [c] + g;
    if f == [] {
      assert s[1..] == g;
    } else {
      assert s[1..] == f[1..] + [c] + g;
      ExpandIs(f[1..], c, g);
    }
  }

  /** A short last block of a binary file ends in what the block before it had at the same places. */
  lemma {:induction false} BinaryPadding(c28: bool, p: seq<Byte>, stale: Block, i: nat)
    requires |p| % 128 <= i < 128 && (|p| % 128 > 0 || !c28)
    ensures var bs := Blocks(false, c28, p, stale);
      |bs| == |p| / 128 + 1 && bs[|p| / 128][i] == if |p| < 128 then stale[i] else bs[|p| / 128 - 1][i]
    decreases |p|
  {
    if |p| >= 128 { BinaryPadding(c28, p[128..], p[..128], i); }
  }

  // ------------------------------------------------------------ the results

  lemma TextForth(c28: bool, file: seq<Byte>, stale: Block)
    requires CTRLZ !in file
    ensures Decode(FileBlocks(true, c28, file, stale), false, false) == file
  {
    var bs := FileBlocks(true, c28, file, stale);
    TextBlocksConcat(c28, Expand(file), stale);
    var k :| 1 <= k <= BBUFSIZ && Concat(bs) == Expand(file) + CtrlZs(k);
    DecodeIsFeed(Fresh, bs);
    FeedAppend(Fresh, Expand(file), CtrlZs(k));
    FeedExpanded(Fresh, file);
    FeedPadding(Feed(Fresh, Expand(file)), k);
    var st := Feed(Fresh, Concat(bs));
    assert Text(st) == st.done;
    assert Text(Fresh) + file == file;
  }

  /** A text file survives packing and unpacking exactly when it holds no Ctrl-Z: line
      ends, lone carriage returns and pairs that straddle two packets all come back. */
  lemma TextRoundTrip(c28: bool, file: seq<Byte>, stale: Block)
    ensures Decode(FileBlocks(true, c28, file, stale), false, false) == file <==> 26 !in file
  {
    if CTRLZ in file {
      var bs := FileBlocks(true, c28, file, stale);
      TextBlocksConcat(c28, Expand(file), stale);
      var k :| 1 <= k <= BBUFSIZ && Concat(bs) == Expand(file) + CtrlZs(k);
      DecodeIsFeed(Fresh, bs);
      FeedAppend(Fresh, Expand(file), CtrlZs(k));
      FeedShrinks(Fresh, file);
      PaddingAddsNothing(Feed(Fresh, Expand(file)), k);
      assert Count(file, CTRLZ) > 0;
      assert |Decode(bs, false, false)| < |file|;
    } else {
      TextForth(c28, file, stale);
    }
  }

  /** The receiver's file after every packet of a text file has come once. */
  lemma TextTransfer(c28: bool, file: seq<Byte>, stale: Block)
    requires CTRLZ !in file
    ensures Concat(ReceiveAll(RInit, true, FileBlocks(true, c28, file, stale), 0).written) == file
  {
    ReceiveAllDecodes(RInit, FileBlocks(true, c28, file, stale), 0);
    TextForth(c28, file, stale);
  }

  /** A binary transfer that succeeds leaves the file and its padding: 2.8c sends the
      smallest number of blocks that hold it, 2.8 always one more than are full. */
  lemma BinaryTransfer(c28: bool, file: seq<Byte>, stale: Block, fs: seq<Fate>)
    requires Rounds(FileBlocks(false, c28, file, stale), fs).s.status == Succeeded
    ensures var got := Rounds(FileBlocks(false, c28, file, stale), fs).r.written;
      && file <= Concat(got)
      && |got| == if c28 then (|file| + BBUFSIZ - 1) / BBUFSIZ else |file| / BBUFSIZ + 1
  {
    SuccessMeansComplete(FileBlocks(false, c28, file, stale), fs);
    BinaryBlocksConcat(c28, file, stale);
  }
}
