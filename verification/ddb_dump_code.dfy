/** Writing the text dump backwards from the end of the device.

    Predicates such as Remaining and Reads speak of every sequence that equals theirs, not of the
    sequence itself: that hides the recursive functions applied to it, which are then unfolded only
    in the lemmas that name them. */
module DdbDumpCode {
  import opened Basics
  import opened Sequences
  import opened DdbDump

  const DDB_TXT: seq<Byte> := [100, 100, 98, 46, 116, 120, 116]
  const CONFIG_TXT: seq<Byte> := [99, 111, 110, 102, 105, 103, 46, 116, 120, 116]
  const MSGBUF_TXT: seq<Byte> := [109, 115, 103, 98, 117, 102, 46, 116, 120, 116]
  const PANIC_TXT: seq<Byte> := [112, 97, 110, 105, 99, 46, 116, 120, 116]
  const VERSION_TXT: seq<Byte> := [118, 101, 114, 115, 105, 111, 110, 46, 116, 120, 116]

  function Ascii(s: string): (b: seq<int>) { seq(|s|, i requires 0 <= i < |s| => s[i] as int) }

  /** The names under which the files are found. */
  lemma FileNames()
    ensures DDB_TXT == Ascii("ddb.txt") && CONFIG_TXT == Ascii("config.txt") && MSGBUF_TXT == Ascii("msgbuf.txt")
    ensures PANIC_TXT == Ascii("panic.txt") && VERSION_TXT == Ascii("version.txt")
  {}

  /** Where a block may be written. */
  predicate Room(mediasize: nat, at: int) { SIZEOF_METADATA <= at && at + BLOCKSIZE <= mediasize }

  /** The blocks lie one below the other from top on, wherever there is room. */
  ghost predicate Laid(mediasize: nat, disk: map<int, Block>, top: int, bs: seq<Block>) {
    forall k :: 0 <= k < |bs| && Room(mediasize, top - BLOCKSIZE * k) ==> Has(disk, top, bs, k)
  }

  ghost predicate Has(disk: map<int, Block>, top: int, bs: seq<Block>, k: nat)
    requires k < |bs|
  {
    top - BLOCKSIZE * k in disk && disk[top - BLOCKSIZE * k] == bs[k]
  }

  lemma LaidNext(mediasize: nat, disk: map<int, Block>, top: int, bs: seq<Block>, b: Block)
    requires Laid(mediasize, disk, top, bs)
    ensures var at := top - BLOCKSIZE * |bs|;
      Laid(mediasize, if Room(mediasize, at) then disk[at := b] else disk, top, bs + [b])
  {
    var at := top - BLOCKSIZE * |bs|;
    var disk', bs' := if Room(mediasize, at) then disk[at := b] else disk, bs + [b];
    forall k | 0 <= k < |bs'| && Room(mediasize, top - BLOCKSIZE * k) ensures Has(disk', top, bs', k) {
      if k < |bs| { assert Has(disk, top, bs, k); }
    }
  }

  lemma LaidAgain(mediasize: nat, disk: map<int, Block>, top: int, bs: seq<Block>, i: nat, b: Block)
    requires Laid(mediasize, disk, top, bs) && i < |bs|
    ensures var at := top - BLOCKSIZE * i;
      Laid(mediasize, if Room(mediasize, at) then disk[at := b] else disk, top, bs[i := b])
  {
    var at := top - BLOCKSIZE * i;
    var disk', bs' := if Room(mediasize, at) then disk[at := b] else disk, bs[i := b];
    forall k | 0 <= k < |bs'| && Room(mediasize, top - BLOCKSIZE * k) ensures Has(disk', top, bs', k) {
      if k != i { assert Has(disk, top, bs, k); }
    }
  }

  function NoNuls(s: seq<Byte>): (r: seq<Byte>) {
    if s == [] then [] else NoNuls(s[..|s| - 1]) + if s[|s| - 1] == 0 then [] else [s[|s| - 1]]
  }

  /** Only the nuls are left out, wherever they are. */
  lemma {:induction false} NoNulsIs(a: seq<Byte>, c: Byte, b: seq<Byte>)
    ensures NoNuls(a + [c] + b) == NoNuls(a) + (if c == 0 then [] else [c]) + NoNuls(b)
    decreases |b|
  {
    var s := a + [c] + b;
    if b == [] {
      assert s[..|s| - 1] == a;
    } else {
      NoNulsIs(a, c, b[..|b| - 1]);
      assert s[..|s| - 1] == a + [c] + b[..|b| - 1];
    }
  }

  function Joined(chunks: seq<seq<Byte>>): (r: seq<Byte>) {
    if chunks == [] then [] else Joined(chunks[..|chunks| - 1]) + chunks[|chunks| - 1]
  }

  /** The data's blocks are those of its first k blocks and those of the rest. */
  lemma {:induction false} BlocksSplit(a: seq<Byte>, b: seq<Byte>, k: nat)
    requires |a| == BLOCKSIZE * k
    ensures Blocks(a + b) == Blocks(a) + Blocks(b)
    decreases k
  {
    var s := a + b;
    if k == 0 {
      assert s == b;
    } else {
      var a' := a[BLOCKSIZE..];
      assert s[BLOCKSIZE..] == a' + b && s[..BLOCKSIZE] == a[..BLOCKSIZE];
      BlocksSplit(a', b, k - 1);
      FrontBlock(s);
      FrontBlock(a);
    }
  }

  lemma FrontBlock(s: seq<Byte>)
    requires |s| >= BLOCKSIZE
    ensures Blocks(s) == [s[..BLOCKSIZE]] + Blocks(s[BLOCKSIZE..])
  {
    if |s| == BLOCKSIZE { assert Pad(s) == s && s[..BLOCKSIZE] == s; }
  }

  class Dumper {
    const mediasize: nat
    const faulty: set<int>
    const time: nat
    const kdh: int -> Block
    const buffer: array<Byte>
    var offset: int
    var error: int
    var disk: map<int, Block>
    ghost var laid: seq<Block>

    ghost function Top(): (r: int) { mediasize - BLOCKSIZE }

    /** `laid` are the blocks put out so far.  Nothing is ever written outside the dump area. */
    ghost predicate Valid()
      reads `offset, `error, `disk, `laid
    {
      && buffer.Length == BLOCKSIZE
      && offset == Top() - BLOCKSIZE * |laid|
      && (forall at :: at in disk ==> Room(mediasize, at))
      && (faulty == {} ==> error == 0)
      && (error == 0 ==> Laid(mediasize, disk, Top(), laid))
    }

    constructor (mediasize: nat, faulty: set<int>, time: nat, kdh: int -> Block)
      ensures Valid() && laid == [] && disk == map[] && error == 0 && fresh(buffer)
      ensures this.mediasize == mediasize && this.faulty == faulty && this.time == time && this.kdh == kdh
    {
      this.mediasize, this.faulty, this.time, this.kdh := mediasize, faulty, time, kdh;
      buffer := new Byte[BLOCKSIZE](i => 0);
      offset, error, disk, laid := mediasize - BLOCKSIZE, 0, map[], [];
    }

    /** textdump_writeblock: a block outside the dump area is dropped, and no error remembered. */
    method WriteBlock(at: int, b: Block)
      modifies `error, `disk
      ensures disk == if old(error) == 0 && Room(mediasize, at) && at !in faulty then old(disk)[at := b] else old(disk)
      ensures error == if old(error) == 0 && Room(mediasize, at) && at in faulty then 5 else old(error)
    {
      if error != 0 { return; }
      if at + BLOCKSIZE > mediasize { return; }
      if at < SIZEOF_METADATA { return; }
      if at in faulty { error := 5; } else { disk := disk[at := b]; }
    }

    /** textdump_writenextblock */
    method WriteNext(b: Block)
      requires Valid()
      modifies `offset, `error, `disk, `laid
      ensures Valid() && laid == old(laid) + [b]
    {
      if error == 0 { LaidNext(mediasize, disk, Top(), laid, b); }
      WriteBlock(offset, b);
      offset := offset - BLOCKSIZE;
      laid := laid + [b];
    }

    /** Going back to the i-th block to write it again, and on from where the dump was. */
    method Rewrite(saved: int, ghost i: nat, b: Block)
      requires Valid() && i < |laid| && saved == Top() - BLOCKSIZE * i
      modifies `offset, `error, `disk, `laid
      ensures Valid() && laid == old(laid)[i := b] && offset == old(offset)
    {
      if error == 0 { LaidAgain(mediasize, disk, Top(), laid, i, b); }
      var end := offset;
      offset := saved;
      WriteBlock(offset, b);
      offset := offset - BLOCKSIZE;
      laid := laid[i := b];
      offset := end;
    }

    /** A string that fills no block, or just one: zero-padded. */
    method WritePadded(name: seq<Byte>, s: seq<Byte>)
      requires Valid()
      modifies `offset, `error, `disk, `laid
      ensures Valid()
      ensures var data := if |s| <= BLOCKSIZE then s else s[..BLOCKSIZE];
        laid == old(laid) + [Ustar(name, |data|, time), Pad(data)]
    {
      var len := if |s| < BLOCKSIZE then |s| else BLOCKSIZE;
      WriteNext(Ustar(name, len, time));
      WriteNext(Pad(s[..len]));
      assert |s| <= BLOCKSIZE ==> s[..len] == s;
    }

    /** textdump_dump_config: full blocks straight from the string, then the rest padded. */
    method WriteConfig(s: seq<Byte>)
      requires Valid()
      modifies `offset, `error, `disk, `laid
      ensures Valid() && laid == old(laid) + FileBlocks(File(CONFIG_TXT, s), time)
    {
      WriteNext(Ustar(CONFIG_TXT, |s|, time));
      WriteString(s);
      Gathered(old(laid), [Ustar(CONFIG_TXT, |s|, time)], Blocks(s));
    }

    method WriteString(s: seq<Byte>)
      requires Valid()
      modifies `offset, `error, `disk, `laid
      ensures Valid() && laid == old(laid) + Blocks(s)
    {
      ghost var goal := laid + Blocks(s);
      var count, full := 0, |s| / BLOCKSIZE;
      AtStart(laid, s);
      while count < full
        invariant count <= full && Valid() && Remaining(laid, s[count * BLOCKSIZE..], goal)
      {
        FullBlock(laid, s, count, goal);
        WriteNext(s[count * BLOCKSIZE..count * BLOCKSIZE + BLOCKSIZE]);
        count := count + 1;
      }
      LastBlock(laid, s[count * BLOCKSIZE..], goal);
      if |s| % BLOCKSIZE != 0 { WriteNext(Pad(s[count * BLOCKSIZE..])); }
    }

    /** The message buffer's characters so far: whole blocks written, the rest in the block buffer. */
    ghost predicate Filling(start: seq<Block>, done: seq<Byte>, k: nat, used: nat)
      reads this, buffer
    {
      && Valid() && used < BLOCKSIZE && |done| == BLOCKSIZE * k + used
      && laid == start + Blocks(done[..BLOCKSIZE * k]) && buffer[..used] == done[BLOCKSIZE * k..]
    }

    /** One character that is not nul. */
    method PutChar(c: Byte, used: nat, ghost start: seq<Block>, ghost done: seq<Byte>, ghost k: nat)
      returns (used': nat, full: bool)
      requires Filling(start, done, k, used)
      modifies `offset, `error, `disk, `laid, buffer
      ensures full == (used + 1 == BLOCKSIZE) && used' == if full then 0 else used + 1
      ensures Filling(start, done + [c], if full then k + 1 else k, used')
    {
      ghost var s := done + [c];
      buffer[used] := c;
      used' := used + 1;
      assert buffer[..used'] == s[BLOCKSIZE * k..];
      assert s[..BLOCKSIZE * k] == done[..BLOCKSIZE * k];
      full := used' == BLOCKSIZE;
      if full {
        OneBlock(s, k);
        assert buffer[..] == buffer[..used'];
        WriteNext(buffer[..]);
        used' := 0;
      }
    }

    /** One chunk of the message buffer. */
    method PutChunk(chunk: seq<Byte>, used: nat, total: nat,
                    ghost start: seq<Block>, ghost done: seq<Byte>, ghost k: nat)
      returns (used': nat, total': nat, ghost k': nat)
      requires Filling(start, done, k, used) && total == BLOCKSIZE * k
      modifies `offset, `error, `disk, `laid, buffer
      ensures Filling(start, done + NoNuls(chunk), k', used') && total' == BLOCKSIZE * k'
    {
      used', total', k' := used, total, k;
      var i := 0;
      assert chunk[..0] == [] && done + [] == done;
      while i < |chunk|
        invariant i <= |chunk| && Filling(start, done + NoNuls(chunk[..i]), k', used') && total' == BLOCKSIZE * k'
      {
        NoNulsNext(done, chunk, i);
        if chunk[i] != 0 {
          var full;
          used', full := PutChar(chunk[i], used', start, done + NoNuls(chunk[..i]), k');
          if full {
            total' := total' + BLOCKSIZE;
            k' := k' + 1;
          }
        }
        i := i + 1;
      }
      assert chunk[..i] == chunk;
    }

    /** The last, incomplete block of the message buffer. */
    method Flush(used: nat, ghost start: seq<Block>, ghost done: seq<Byte>, ghost k: nat)
      requires Filling(start, done, k, used)
      modifies `offset, `error, `disk, `laid, buffer
      ensures Valid() && laid == start + Blocks(done)
    {
      assert done == done[..BLOCKSIZE * k] + done[BLOCKSIZE * k..];
      BlocksSplit(done[..BLOCKSIZE * k], done[BLOCKSIZE * k..], k);
      if used != 0 {
        assert Blocks(done[BLOCKSIZE * k..]) == [Pad(buffer[..used])];
        WriteNext(Pad(buffer[..used]));
      }
    }

    /** All the chunks of the message buffer. */
    method PutChunks(chunks: seq<seq<Byte>>, ghost start: seq<Block>) returns (total: nat)
      requires Valid() && laid == start
      modifies `offset, `error, `disk, `laid, buffer
      ensures Valid() && total == |NoNuls(Joined(chunks))| && laid == start + Blocks(NoNuls(Joined(chunks)))
    {
      total := 0;
      ghost var k := 0;
      var used, j := 0, 0;
      assert chunks[..0] == [] && start + [] == start;
      while j < |chunks|
        invariant j <= |chunks| && Filling(start, NoNuls(Joined(chunks[..j])), k, used) && total == BLOCKSIZE * k
      {
        JoinedNext(chunks, j);
        used, total, k := PutChunk(chunks[j], used, total, start, NoNuls(Joined(chunks[..j])), k);
        j := j + 1;
      }
      assert chunks[..j] == chunks;
      total := total + used;
      Flush(used, start, NoNuls(Joined(chunks)), k);
    }

    /** textdump_dump_msgbuf: a placeholder for the header, the text without its nuls, then the
        header again with the size that turned out. */
    method WriteMessages(chunks: seq<seq<Byte>>)
      requires Valid()
      modifies `offset, `error, `disk, `laid, buffer
      ensures Valid() && laid == old(laid) + FileBlocks(File(MSGBUF_TXT, NoNuls(Joined(chunks))), time)
    {
      var saved := offset;
      ghost var i0, text := |laid|, NoNuls(Joined(chunks));
      WriteNext(Ustar(MSGBUF_TXT, 0, time));
      var total := PutChunks(chunks, laid);
      HeaderAgain(old(laid), Ustar(MSGBUF_TXT, 0, time), Ustar(MSGBUF_TXT, total, time), Blocks(text));
      Rewrite(saved, i0, Ustar(MSGBUF_TXT, total, time));
    }

    /** The trailer, its place held by a dump header for nothing. */
    method Begin()
      requires Valid() && laid == []
      modifies `offset, `error, `disk, `laid
      ensures Valid() && laid == [kdh(0)]
    {
      WriteNext(kdh(0));
    }

    /** The dump header goes below the stream, and again over the trailer. */
    method Finish(saved: int, ghost stream: seq<Block>)
      requires Valid() && saved == Top() && laid == [kdh(0)] + stream
      modifies `offset, `error, `disk, `laid
      ensures Valid() && laid == Framed(kdh, stream)
    {
      var dumplen := saved - (offset + BLOCKSIZE);
      assert dumplen == BLOCKSIZE * |stream|;
      WriteNext(kdh(dumplen));
      Rewrite(saved, 0, kdh(dumplen));
    }
  }

  lemma HeaderAgain(a: seq<Block>, h0: Block, h: Block, c: seq<Block>)
    ensures (a + [h0] + c)[|a| := h] == a + ([h] + c)
  {}

  /** With the blocks of rest added, laid is the goal. */
  ghost predicate Remaining(laid: seq<Block>, rest: seq<Byte>, goal: seq<Block>) {
    forall r: seq<Byte> {:trigger Blocks(r)} :: r == rest ==> laid + Blocks(r) == goal
  }

  lemma AtStart(laid: seq<Block>, s: seq<Byte>)
    ensures Remaining(laid, s, laid + Blocks(s)) && s[0 * BLOCKSIZE..] == s
  {}

  lemma FullBlock(laid: seq<Block>, s: seq<Byte>, count: nat, goal: seq<Block>)
    requires (count + 1) * BLOCKSIZE <= |s| && Remaining(laid, s[count * BLOCKSIZE..], goal)
    ensures Remaining(laid + [s[count * BLOCKSIZE..count * BLOCKSIZE + BLOCKSIZE]], s[(count + 1) * BLOCKSIZE..], goal)
  {
    var d := s[count * BLOCKSIZE..];
    assert d[..BLOCKSIZE] == s[count * BLOCKSIZE..count * BLOCKSIZE + BLOCKSIZE];
    assert d[BLOCKSIZE..] == s[(count + 1) * BLOCKSIZE..];
    FrontBlock(d);
    Associative(laid, [d[..BLOCKSIZE]], Blocks(d[BLOCKSIZE..]));
    assert laid + Blocks(d) == goal;
  }

  lemma LastBlock(laid: seq<Block>, rest: seq<Byte>, goal: seq<Block>)
    requires |rest| < BLOCKSIZE && Remaining(laid, rest, goal)
    ensures goal == if rest == [] then laid else laid + [Pad(rest)]
  {
    assert laid + Blocks(rest) == goal;
  }

  lemma OneBlock(s: seq<Byte>, k: nat)
    requires |s| == BLOCKSIZE * (k + 1)
    ensures Blocks(s) == Blocks(s[..BLOCKSIZE * k]) + [s[BLOCKSIZE * k..]] && s[BLOCKSIZE * (k + 1)..] == []
    ensures s[..BLOCKSIZE * (k + 1)] == s
  {
    var a, b := s[..BLOCKSIZE * k], s[BLOCKSIZE * k..];
    assert s == a + b;
    BlocksSplit(a, b, k);
    FrontBlock(b);
    assert b[BLOCKSIZE..] == [] && b[..BLOCKSIZE] == b;
  }

  lemma NoNulsNext(done: seq<Byte>, chunk: seq<Byte>, i: nat)
    requires i < |chunk|
    ensures done + NoNuls(chunk[..i + 1])
         == if chunk[i] == 0 then done + NoNuls(chunk[..i]) else (done + NoNuls(chunk[..i])) + [chunk[i]]
  {
    assert chunk[..i + 1][..i] == chunk[..i];
  }

  lemma {:induction false} NoNulsJoin(a: seq<Byte>, b: seq<Byte>)
    ensures NoNuls(a + b) == NoNuls(a) + NoNuls(b)
    decreases |b|
  {
    if b == [] {
      assert a + b == a;
    } else {
      NoNulsJoin(a, b[..|b| - 1]);
      assert (a + b)[..|a + b| - 1] == a + b[..|b| - 1];
    }
  }

  lemma JoinedNext(chunks: seq<seq<Byte>>, j: nat)
    requires j < |chunks|
    ensures NoNuls(Joined(chunks[..j + 1])) == NoNuls(Joined(chunks[..j])) + NoNuls(chunks[j])
  {
    assert chunks[..j + 1][..j] == chunks[..j];
    NoNulsJoin(Joined(chunks[..j]), chunks[j]);
  }

  // ------------------------------------------------------------ captured output

  /** As much of s as n bytes hold. */
  function Clip(s: seq<Byte>, n: nat): (r: seq<Byte>) { if |s| <= n then s else s[..n] }

  /** Writing bit by bit into a buffer of n bytes keeps the first n bytes of it all. */
  lemma ClipTwice(a: seq<Byte>, b: seq<Byte>, n: nat)
    ensures Clip(Clip(a, n) + b, n) == Clip(a + b, n)
  {}

  /** What is kept is as long a beginning as there is room for. */
  lemma ClipIs(s: seq<Byte>, n: nat)
    ensures Clip(s, n) <= s && |Clip(s, n)| == if |s| <= n then |s| else n
  {}

  class Capture {
    var buf: array<Byte>
    var bufoff: nat
    var inprogress: bool
    var inpager: bool

    /** Buffer sizes are multiples of the block size. */
    ghost predicate Valid()
      reads `buf, `bufoff
    {
      buf.Length % BLOCKSIZE == 0 && bufoff <= buf.Length
    }

    ghost function Text(): (r: seq<Byte>)
      requires Valid()
      reads `buf, `bufoff, buf
    {
      buf[..bufoff]
    }

    constructor (size: nat)
      ensures Valid() && fresh(buf) && Text() == [] && !inprogress && !inpager
    {
      buf := new Byte[Ceiling(size) * BLOCKSIZE](i => 0);
      bufoff, inprogress, inpager := 0, false, false;
    }

    /** db_capture_write: what does not fit is dropped. */
    method Write(s: seq<Byte>)
      requires Valid()
      modifies `bufoff, buf
      ensures Valid() && Text() == if inprogress && !inpager then Clip(old(Text()) + s, buf.Length) else old(Text())
    {
      if !inprogress || inpager { return; }
      var len := if |s| < buf.Length - bufoff then |s| else buf.Length - bufoff;
      ghost var was := Text();
      forall i | 0 <= i < len { buf[bufoff + i] := s[i]; }
      assert buf[..bufoff] == was;
      bufoff := bufoff + len;
      assert Text() == was + s[..len];
    }

    /** The buffer made larger or smaller; what still fits is kept. */
    method Resize(size: nat, maxbufsize: nat) returns (ok: bool)
      requires Valid()
      modifies `buf, `bufoff
      ensures Valid() && ok == (Ceiling(size) * BLOCKSIZE <= maxbufsize)
      ensures ok ==> fresh(buf) && buf.Length == Ceiling(size) * BLOCKSIZE && Text() == Clip(old(Text()), buf.Length)
      ensures !ok ==> buf == old(buf) && bufoff == old(bufoff)
    {
      var rounded := Ceiling(size) * BLOCKSIZE;
      ok := rounded <= maxbufsize;
      if !ok { return; }
      var len := if bufoff < rounded then bufoff else rounded;
      var copy := new Byte[rounded](i => 0);
      forall i | 0 <= i < len { copy[i] := buf[i]; }
      assert copy[..len] == Clip(old(Text()), rounded);
      buf, bufoff := copy, len;
    }

    /** db_capture_zeropad */
    method ZeroPad() returns (padding: nat)
      requires Valid()
      modifies buf
      ensures Valid() && Text() == old(Text()) && bufoff + padding == BLOCKSIZE * Ceiling(bufoff) <= buf.Length
      ensures buf[bufoff..bufoff + padding] == Zeros(padding)
    {
      padding := (buf.Length - bufoff) % BLOCKSIZE;
      PaddingFills(buf.Length, bufoff);
      ghost var was := Text();
      forall i | 0 <= i < padding { buf[bufoff + i] := 0; }
      assert buf[..bufoff] == was;
    }

    /** The buffer's whole blocks, the padding among them. */
    method WriteBlocks(d: Dumper, length: nat)
      requires Valid() && d.Valid() && length % BLOCKSIZE == 0 && length <= buf.Length
      modifies d`offset, d`error, d`disk, d`laid
      ensures d.Valid() && d.laid == old(d.laid) + Blocks(buf[..length])
    {
      var at := 0;
      ghost var whole, goal := buf[..length], d.laid + Blocks(buf[..length]);
      AtStart(d.laid, whole);
      while at < length
        invariant at % BLOCKSIZE == 0 && at <= length && d.Valid() && Remaining(d.laid, whole[at..], goal)
      {
        Ahead(d.laid, whole, at, goal);
        assert buf[at..at + BLOCKSIZE] == whole[at..at + BLOCKSIZE];
        d.WriteNext(buf[at..at + BLOCKSIZE]);
        at := at + BLOCKSIZE;
      }
      LastBlock(d.laid, whole[at..], goal);
    }

    /** The buffer's text, after its header. */
    method WriteText(d: Dumper)
      requires Valid() && d.Valid() && buf != d.buffer
      modifies buf, d`offset, d`error, d`disk, d`laid
      ensures Valid() && d.Valid() && d.laid == old(d.laid) + Blocks(old(Text()))
    {
      ghost var text := Text();
      var padding := ZeroPad();
      assert buf[..bufoff + padding] == text + Zeros(padding);
      Padded(text, buf[..bufoff + padding], padding);
      WriteBlocks(d, bufoff + padding);
    }

    /** db_capture_dump: the captured text as a file of the dump; the buffer is then empty. */
    method Dump(d: Dumper)
      requires Valid() && d.Valid() && buf != d.buffer
      modifies `bufoff, buf, d`offset, d`error, d`disk, d`laid
      ensures Valid() && d.Valid() && bufoff == 0
      ensures d.laid == old(d.laid) + Part(old(Text()) != [], FileBlocks(File(DDB_TXT, old(Text())), d.time))
    {
      if bufoff == 0 { return; }
      ghost var text := Text();
      d.WriteNext(Ustar(DDB_TXT, bufoff, d.time));
      assert Text() == text;
      WriteText(d);
      Gathered(old(d.laid), [Ustar(DDB_TXT, |text|, d.time)], Blocks(text));
      bufoff := 0;
    }
  }

  lemma PaddingFills(size: nat, used: nat)
    requires size % BLOCKSIZE == 0 && used <= size
    ensures used + (size - used) % BLOCKSIZE == BLOCKSIZE * Ceiling(used) <= size
  {}

  /** The text with zeros up to a whole block has the text's blocks. */
  lemma {:induction false} Padded(text: seq<Byte>, whole: seq<Byte>, padding: nat)
    requires whole == text + Zeros(padding) && |whole| == BLOCKSIZE * Ceiling(|text|)
    ensures Blocks(whole) == Blocks(text) && |whole| % BLOCKSIZE == 0
    decreases |text|
  {
    if |text| > BLOCKSIZE {
      assert whole[BLOCKSIZE..] == text[BLOCKSIZE..] + Zeros(padding) && whole[..BLOCKSIZE] == text[..BLOCKSIZE];
      Padded(text[BLOCKSIZE..], whole[BLOCKSIZE..], padding);
    } else if text != [] {
      assert whole == Pad(text) && Pad(whole) == whole;
    }
  }

  lemma Ahead(laid: seq<Block>, s: seq<Byte>, at: nat, goal: seq<Block>)
    requires |s| % BLOCKSIZE == 0 && at % BLOCKSIZE == 0 && at < |s| && Remaining(laid, s[at..], goal)
    ensures at + BLOCKSIZE <= |s| && Remaining(laid + [s[at..at + BLOCKSIZE]], s[at + BLOCKSIZE..], goal)
  {
    var k := at / BLOCKSIZE;
    assert at == k * BLOCKSIZE && (k + 1) * BLOCKSIZE == at + BLOCKSIZE;
    FullBlock(laid, s, k, goal);
  }

  function Part(wanted: bool, bs: seq<Block>): (r: seq<Block>) { if wanted then bs else [] }

  // ------------------------------------------------------------ the whole dump

  /** Which files are wanted. */
  datatype Options = Options(ddb: bool, config: bool, msgbuf: bool, panic: bool, version: bool)

  /** What there is to be dumped. */
  datatype Sources = Sources(captured: seq<Byte>, config: seq<Byte>, messages: seq<Byte>,
      panic: Option<seq<Byte>>, version: seq<Byte>)

  /** A string dumped as one block, however short. */
  function ShortBlocks(name: seq<Byte>, s: seq<Byte>, time: nat): (r: seq<Block>) {
    var data := if |s| <= BLOCKSIZE then s else s[..BLOCKSIZE];
    [Ustar(name, |data|, time), Pad(data)]
  }

  /** The blocks of the panic message, if there is one, and of the version. */
  function StringBlocks(o: Options, x: Sources, time: nat): (r: seq<Block>) {
    Part(o.panic && x.panic.Some?, if x.panic.Some? then ShortBlocks(PANIC_TXT, x.panic.value, time) else [])
    + Part(o.version, ShortBlocks(VERSION_TXT, x.version, time))
  }

  /** The blocks between the two dump headers. */
  function DumpBlocks(o: Options, x: Sources, time: nat): (r: seq<Block>) {
    Part(o.ddb && x.captured != [], FileBlocks(File(DDB_TXT, x.captured), time))
    + (Part(o.config, FileBlocks(File(CONFIG_TXT, x.config), time))
    + (Part(o.msgbuf, FileBlocks(File(MSGBUF_TXT, x.messages), time))
    + StringBlocks(o, x, time)))
  }

  /** The blocks of a dump from the end of the device down: trailer, stream, header. */
  function Framed(kdh: int -> Block, stream: seq<Block>): (r: seq<Block>) {
    [kdh(BLOCKSIZE * |stream|)] + stream + [kdh(BLOCKSIZE * |stream|)]
  }

  // ------------------------------------------------------------ the dump on the device

  /** With enough room, reading blocks from the end of the device down gives all of them. */
  lemma ReadDown(mediasize: nat, disk: map<int, Block>, bs: seq<Block>, k: nat)
    requires Laid(mediasize, disk, mediasize - BLOCKSIZE, bs) && k < |bs|
    requires mediasize >= SIZEOF_METADATA + BLOCKSIZE * |bs|
    ensures var at := mediasize - BLOCKSIZE * (k + 1); at in disk && disk[at] == bs[k]
  {
    assert Room(mediasize, mediasize - BLOCKSIZE - BLOCKSIZE * k);
    assert Has(disk, mediasize - BLOCKSIZE, bs, k);
  }

  /** The n blocks read from the end of the device down, if all of them are there. */
  function Downward(mediasize: nat, disk: map<int, Block>, n: nat): (r: Option<seq<Block>>)
    ensures r.Some? ==> |r.value| == n
  {
    if n == 0 then Some([])
    else
      var r, at := Downward(mediasize, disk, n - 1), mediasize - BLOCKSIZE * n;
      if r.Some? && at in disk then Some(r.value + [disk[at]]) else None
  }

  lemma {:induction false} DownTo(mediasize: nat, disk: map<int, Block>, bs: seq<Block>, n: nat)
    requires Laid(mediasize, disk, mediasize - BLOCKSIZE, bs) && n <= |bs|
    requires mediasize >= SIZEOF_METADATA + BLOCKSIZE * |bs|
    ensures Downward(mediasize, disk, n) == Some(bs[..n])
    decreases n
  {
    if n > 0 {
      DownTo(mediasize, disk, bs, n - 1);
      ReadDown(mediasize, disk, bs, n - 1);
      assert bs[..n] == bs[..n - 1] + [bs[n - 1]];
    }
  }

  lemma AllDown(mediasize: nat, disk: map<int, Block>, bs: seq<Block>)
    requires Laid(mediasize, disk, mediasize - BLOCKSIZE, bs)
    requires mediasize >= SIZEOF_METADATA + BLOCKSIZE * |bs|
    ensures Downward(mediasize, disk, |bs|) == Some(bs)
  {
    DownTo(mediasize, disk, bs, |bs|);
    assert bs[..|bs|] == bs;
  }

  /** Blocks that are all there had room: nothing is written elsewhere. */
  lemma DownHadRoom(mediasize: nat, disk: map<int, Block>, n: nat)
    requires n > 0 && Downward(mediasize, disk, n).Some? && forall at :: at in disk ==> Room(mediasize, at)
    ensures mediasize >= SIZEOF_METADATA + BLOCKSIZE * n
  {
    assert mediasize - BLOCKSIZE * n in disk;
  }

  /** The blocks laid can all be read back exactly when there was room for them. */
  lemma CompleteIff(d: Dumper)
    requires d.Valid() && d.laid != [] && d.error == 0
    ensures Downward(d.mediasize, d.disk, |d.laid|).Some?
        <==> d.mediasize >= SIZEOF_METADATA + BLOCKSIZE * |d.laid|
  {
    BothWays(d.mediasize, d.disk, d.laid, d.Top());
  }

  lemma BothWays(mediasize: nat, disk: map<int, Block>, bs: seq<Block>, top: int)
    requires top == mediasize - BLOCKSIZE && Laid(mediasize, disk, top, bs) && bs != []
    requires forall at :: at in disk ==> Room(mediasize, at)
    ensures Downward(mediasize, disk, |bs|).Some? <==> mediasize >= SIZEOF_METADATA + BLOCKSIZE * |bs|
  {
    if mediasize >= SIZEOF_METADATA + BLOCKSIZE * |bs| { AllDown(mediasize, disk, bs); }
    if Downward(mediasize, disk, |bs|).Some? { DownHadRoom(mediasize, disk, |bs|); }
  }

  /** The files that are wanted, one after the other. */
  method DumpFiles(d: Dumper, c: Capture, o: Options, config: seq<Byte>, chunks: seq<seq<Byte>>,
                   panic: Option<seq<Byte>>, version: seq<Byte>)
    returns (ghost stream: seq<Block>)
    requires d.Valid() && c.Valid() && c.buf != d.buffer
    modifies d`offset, d`error, d`disk, d`laid, d.buffer, c`bufoff, c.buf
    ensures d.Valid() && d.laid == old(d.laid) + stream
    ensures stream == DumpBlocks(o, Sources(old(c.Text()), config, NoNuls(Joined(chunks)), panic, version), d.time)
  {
    ghost var x := Sources(c.Text(), config, NoNuls(Joined(chunks)), panic, version);
    stream := DumpBlocks(o, x, d.time);
    ghost var captured := Part(o.ddb && x.captured != [], FileBlocks(File(DDB_TXT, x.captured), d.time));
    ghost var configured := Part(o.config, FileBlocks(File(CONFIG_TXT, config), d.time));
    ghost var messages := Part(o.msgbuf, FileBlocks(File(MSGBUF_TXT, x.messages), d.time));
    FourParts(d.laid, captured, configured, messages, StringBlocks(o, x, d.time));
    DumpCapture(d, c, o.ddb);
    DumpConfig(d, o.config, config);
    DumpMessages(d, o.msgbuf, chunks);
    DumpStrings(d, o, panic, version);
  }

  method DumpCapture(d: Dumper, c: Capture, wanted: bool)
    requires d.Valid() && c.Valid() && c.buf != d.buffer
    modifies d`offset, d`error, d`disk, d`laid, c`bufoff, c.buf
    ensures d.Valid()
    ensures d.laid == old(d.laid)
        + Part(wanted && old(c.Text()) != [], FileBlocks(File(DDB_TXT, old(c.Text())), d.time))
  {
    if wanted { c.Dump(d); }
  }

  method DumpConfig(d: Dumper, wanted: bool, config: seq<Byte>)
    requires d.Valid()
    modifies d`offset, d`error, d`disk, d`laid
    ensures d.Valid() && d.laid == old(d.laid) + Part(wanted, FileBlocks(File(CONFIG_TXT, config), d.time))
  {
    if wanted { d.WriteConfig(config); }
  }

  method DumpMessages(d: Dumper, wanted: bool, chunks: seq<seq<Byte>>)
    requires d.Valid()
    modifies d`offset, d`error, d`disk, d`laid, d.buffer
    ensures d.Valid() && d.laid == old(d.laid)
        + Part(wanted, FileBlocks(File(MSGBUF_TXT, NoNuls(Joined(chunks))), d.time))
  {
    if wanted { d.WriteMessages(chunks); }
  }

  lemma FourParts(s: seq<Block>, a: seq<Block>, b: seq<Block>, c: seq<Block>, d: seq<Block>)
    ensures s + a + b + c + d == s + (a + (b + (c + d)))
  {}

  /** The panic message, if there is one, and the version. */
  method DumpStrings(d: Dumper, o: Options, panic: Option<seq<Byte>>, version: seq<Byte>)
    requires d.Valid()
    modifies d`offset, d`error, d`disk, d`laid
    ensures d.Valid()
    ensures forall x: Sources :: x.panic == panic && x.version == version ==>
      d.laid == old(d.laid) + StringBlocks(o, x, d.time)
  {
    ghost var start := d.laid;
    if o.panic && panic.Some? { d.WritePadded(PANIC_TXT, panic.value); }
    ghost var p := Part(o.panic && panic.Some?,
                       if panic.Some? then ShortBlocks(PANIC_TXT, panic.value, d.time) else []);
    Gathered(start, p, Part(o.version, ShortBlocks(VERSION_TXT, version, d.time)));
    if o.version { d.WritePadded(VERSION_TXT, version); }
  }

  lemma Gathered(a: seq<Block>, b: seq<Block>, c: seq<Block>)
    ensures (a + b) + c == a + (b + c) && b + [] == b && a + [] == a
  {}

  // ------------------------------------------------------------ the files in the dump

  /** The files wanted, as an archive should have them. */
  function FilesOf(o: Options, x: Sources): (r: seq<File>) {
    (if o.ddb && x.captured != [] then [File(DDB_TXT, x.captured)] else [])
    + ((if o.config then [File(CONFIG_TXT, x.config)] else [])
    + ((if o.msgbuf then [File(MSGBUF_TXT, x.messages)] else [])
    + StringsOf(o, x)))
  }

  function StringsOf(o: Options, x: Sources): (r: seq<File>) {
    (if o.panic && x.panic.Some? then [File(PANIC_TXT, Clip(x.panic.value, BLOCKSIZE))] else [])
    + (if o.version then [File(VERSION_TXT, Clip(x.version, BLOCKSIZE))] else [])
  }

  /** Read as an archive, bs are the files fs. */
  ghost predicate Reads(bs: seq<Block>, fs: seq<File>) {
    forall b: seq<Block> {:trigger Untar(b)} :: b == bs ==> Untar(b) == Some(fs)
  }

  lemma UntarEmpty(h: Block, rest: seq<Block>, fs: seq<File>)
    requires SizeIn(h) == 0 && Untar(rest) == Some(fs)
    ensures Untar([h] + rest) == Some([File(NameIn(h), [])] + fs)
  {
    var bs := [h] + rest;
    assert bs[1..] == rest && bs[1..1] == [];
  }

  lemma ZeroHeader()
    ensures SizeIn(Zeros(BLOCKSIZE)) == 0 && NameIn(Zeros(BLOCKSIZE)) == []
  {
    var z := Zeros(BLOCKSIZE);
    assert z[124..136] == Zeros(12) && z[..100] == Zeros(100);
  }

  /** What is read where a string was dumped: after an empty one, its block is taken for the
      header of a nameless empty file. */
  function StringRead(name: seq<Byte>, s: seq<Byte>): (r: seq<File>) {
    if s == [] then [File(name, []), File([], [])] else [File(name, Clip(s, BLOCKSIZE))]
  }

  lemma ShortReads(wanted: bool, name: seq<Byte>, s: seq<Byte>, rest: seq<Block>, us: seq<File>, time: nat)
    requires ProperName(name) && Reads(rest, us)
    ensures Reads(Part(wanted, ShortBlocks(name, s, time)) + rest, (if wanted then StringRead(name, s) else []) + us)
  {
    if !wanted {
      assert [] + rest == rest && [] + us == us;
    } else if s == [] {
      StrayReads(name, rest, us, time);
    } else {
      var f := File(name, Clip(s, BLOCKSIZE));
      OctalShort(|f.data|, 11);
      if |s| >= BLOCKSIZE { assert Pad(s[..BLOCKSIZE]) == s[..BLOCKSIZE]; }
      assert ShortBlocks(name, s, time) == FileBlocks(f, time);
      assert Untar(rest) == Some(us);
      UntarOne(f, rest, us, time);
    }
  }

  lemma StrayReads(name: seq<Byte>, rest: seq<Block>, us: seq<File>, time: nat)
    requires ProperName(name) && Reads(rest, us)
    ensures Reads(ShortBlocks(name, [], time) + rest, StringRead(name, []) + us)
  {
    var h, z := Ustar(name, 0, time), Zeros(BLOCKSIZE);
    SizeBack(name, 0, time);
    NameBack(name, 0, time);
    ZeroHeader();
    assert Untar(rest) == Some(us);
    UntarEmpty(z, rest, us);
    UntarEmpty(h, [z] + rest, [File([], [])] + us);
    assert Pad([]) == z;
    Two(h, z, rest);
    TwoFiles(File(name, []), File([], []), us);
  }

  lemma Two(h: Block, z: Block, rest: seq<Block>)
    ensures [h] + ([z] + rest) == [h, z] + rest
  {}

  lemma TwoFiles(f: File, g: File, us: seq<File>)
    ensures [f] + ([g] + us) == [f, g] + us
  {}

  lemma FileReads(wanted: bool, f: File, rest: seq<Block>, us: seq<File>, time: nat)
    requires ProperName(f.name) && |f.data| < 0x1_0000_0000 && Reads(rest, us)
    ensures Reads(Part(wanted, FileBlocks(f, time)) + rest, (if wanted then [f] else []) + us)
  {
    if !wanted {
      assert [] + rest == rest && [] + us == us;
    } else {
      OctalShort(|f.data|, 11);
      assert Untar(rest) == Some(us);
      UntarOne(f, rest, us, time);
    }
  }

  /** The strings found when the stream is read as an archive. */
  function StringsRead(o: Options, x: Sources): (r: seq<File>) {
    (if o.panic && x.panic.Some? then StringRead(PANIC_TXT, x.panic.value) else [])
    + (if o.version then StringRead(VERSION_TXT, x.version) else [])
  }

  /** All the files found. */
  function FilesRead(o: Options, x: Sources): (r: seq<File>) {
    (if o.ddb && x.captured != [] then [File(DDB_TXT, x.captured)] else [])
    + ((if o.config then [File(CONFIG_TXT, x.config)] else [])
    + ((if o.msgbuf then [File(MSGBUF_TXT, x.messages)] else [])
    + StringsRead(o, x)))
  }

  /** A name a header can hold. */
  predicate ProperName(name: seq<Byte>) { 0 < |name| < 100 && forall i :: 0 <= i < |name| ==> name[i] != 0 }

  lemma NamesProper()
    ensures ProperName(DDB_TXT) && ProperName(CONFIG_TXT) && ProperName(MSGBUF_TXT)
      && ProperName(PANIC_TXT) && ProperName(VERSION_TXT)
  {}

  lemma StringsUntar(o: Options, x: Sources, time: nat)
    ensures Reads(StringBlocks(o, x, time), StringsRead(o, x))
  {
    var v := Part(o.version, ShortBlocks(VERSION_TXT, x.version, time));
    var fv := if o.version then StringRead(VERSION_TXT, x.version) else [];
    assert Untar([]) == Some([]);
    NamesProper();
    ShortReads(o.version, VERSION_TXT, x.version, [], [], time);
    assert v + [] == v && fv + [] == fv;
    ShortReads(o.panic && x.panic.Some?, PANIC_TXT, if x.panic.Some? then x.panic.value else [], v, fv, time);
  }

  lemma ThreeFiles(w: bool, f: File, v: bool, g: File, u: bool, h: File, s: seq<Block>, fs: seq<File>, time: nat)
    requires ProperName(f.name) && |f.data| < 0x1_0000_0000 && ProperName(g.name) && |g.data| < 0x1_0000_0000
    requires ProperName(h.name) && |h.data| < 0x1_0000_0000 && Reads(s, fs)
    ensures Reads(Part(w, FileBlocks(f, time)) + (Part(v, FileBlocks(g, time)) + (Part(u, FileBlocks(h, time)) + s)),
                  (if w then [f] else []) + ((if v then [g] else []) + ((if u then [h] else []) + fs)))
  {
    var m, fm := FilePart(u, h, s, fs, time);
    var c, fc := FilePart(v, g, m, fm, time);
    var d, fd := FilePart(w, f, c, fc, time);
  }

  lemma DumpReads(o: Options, x: Sources, time: nat)
    requires |x.captured| < 0x1_0000_0000 && |x.config| < 0x1_0000_0000 && |x.messages| < 0x1_0000_0000
    ensures Reads(DumpBlocks(o, x, time), FilesRead(o, x))
  {
    StringsUntar(o, x, time);
    NamesProper();
    ThreeFiles(o.ddb && x.captured != [], File(DDB_TXT, x.captured), o.config, File(CONFIG_TXT, x.config),
               o.msgbuf, File(MSGBUF_TXT, x.messages), StringBlocks(o, x, time), StringsRead(o, x), time);
  }

  /** Reading the stream gives the captured text, the configuration, the messages and the two
      strings back, each with exactly its bytes; only an empty string is followed by a stray. */
  lemma DumpUntars(o: Options, x: Sources, time: nat)
    requires |x.captured| < 0x1_0000_0000 && |x.config| < 0x1_0000_0000 && |x.messages| < 0x1_0000_0000
    ensures Untar(DumpBlocks(o, x, time)) == Some(FilesRead(o, x))
  {
    DumpReads(o, x, time);
  }

  lemma FilePart(wanted: bool, f: File, rest: seq<Block>, us: seq<File>, time: nat)
    returns (bs: seq<Block>, fs: seq<File>)
    requires ProperName(f.name) && |f.data| < 0x1_0000_0000 && Reads(rest, us)
    ensures bs == Part(wanted, FileBlocks(f, time)) + rest && fs == (if wanted then [f] else []) + us && Reads(bs, fs)
  {
    FileReads(wanted, f, rest, us, time);
    bs, fs := Part(wanted, FileBlocks(f, time)) + rest, (if wanted then [f] else []) + us;
  }

  /** The files read are those wanted exactly when no wanted string is empty. */
  lemma ReadAsWantedIff(o: Options, x: Sources)
    ensures FilesRead(o, x) == FilesOf(o, x) <==> !(o.panic && x.panic == Some([])) && !(o.version && x.version == [])
  {
    StringsAsWantedIff(o, x);
    assert |FilesRead(o, x)| - |FilesOf(o, x)| == |StringsRead(o, x)| - |StringsOf(o, x)|;
  }

  lemma StringsAsWantedIff(o: Options, x: Sources)
    ensures var a, b := o.panic && x.panic == Some([]), o.version && x.version == [];
      var strays := (if a then 1 else 0) + if b then 1 else 0;
      |StringsRead(o, x)| == |StringsOf(o, x)| + strays && (strays == 0 ==> StringsRead(o, x) == StringsOf(o, x))
  {}

  // ------------------------------------------------------------ from memory to the device and back

  /** Reading down from the end of the device gives a trailer, n blocks and the trailer again as
      header, both for n blocks; the n blocks are an archive of the files fs. */
  ghost predicate ComesBack(mediasize: nat, disk: map<int, Block>, kdh: int -> Block, n: nat, fs: seq<File>) {
    var r := Downward(mediasize, disk, n + 2);
    r.Some? && r.value[0] == r.value[n + 1] == kdh(BLOCKSIZE * n) && Reads(r.value[1..n + 1], fs)
  }

  /** A stream of n blocks and its two dump headers fit above the device's first sectors. */
  predicate Roomy(mediasize: nat, n: nat) { mediasize >= SIZEOF_METADATA + BLOCKSIZE * (n + 2) }

  lemma FramedComesBack(mediasize: nat, disk: map<int, Block>, kdh: int -> Block, stream: seq<Block>, fs: seq<File>)
    requires Laid(mediasize, disk, mediasize - BLOCKSIZE, Framed(kdh, stream)) && Reads(stream, fs)
    requires Roomy(mediasize, |stream|)
    ensures ComesBack(mediasize, disk, kdh, |stream|, fs)
  {
    var bs := Framed(kdh, stream);
    AllDown(mediasize, disk, bs);
    assert bs[1..|stream| + 1] == stream;
  }

  /** Every size fits the eleven octal digits of a header. */
  predicate Fits(x: Sources) {
    |x.captured| < 0x1_0000_0000 && |x.config| < 0x1_0000_0000 && |x.messages| < 0x1_0000_0000
  }

  /** What is on the device, when no write has failed and there was room for all of it. */
  ghost predicate DumpedAs(mediasize: nat, disk: map<int, Block>, kdh: int -> Block, o: Options,
                           x: Sources, stream: seq<Block>) {
    forall y {:trigger FilesRead(o, y)} :: y == x && Fits(y) && Roomy(mediasize, |stream|) ==>
      ComesBack(mediasize, disk, kdh, |stream|, FilesRead(o, y))
  }

  /** From the device to the files: a dump that was written without error and found room is read as
      two dump headers and an archive of the files. */
  lemma DumpedFiles(mediasize: nat, disk: map<int, Block>, kdh: int -> Block, o: Options,
                    x: Sources, stream: seq<Block>)
    requires DumpedAs(mediasize, disk, kdh, o, x, stream)
    requires Fits(x) && Roomy(mediasize, |stream|)
    ensures var n := |stream|;
      var r := Downward(mediasize, disk, n + 2);
      r.Some? && r.value[0] == r.value[n + 1] == kdh(BLOCKSIZE * n) && Untar(r.value[1..n + 1]) == Some(FilesRead(o, x))
  {
    assert ComesBack(mediasize, disk, kdh, |stream|, FilesRead(o, x));
  }

  lemma DumpComesBack(mediasize: nat, disk: map<int, Block>, kdh: int -> Block, o: Options, x: Sources, time: nat,
                      laid: seq<Block>, top: int, stream: seq<Block>)
    requires stream == DumpBlocks(o, x, time) && laid == Framed(kdh, stream)
    requires top == mediasize - BLOCKSIZE && Laid(mediasize, disk, top, laid)
    ensures DumpedAs(mediasize, disk, kdh, o, x, stream)
  {
    if Fits(x) && Roomy(mediasize, |stream|) {
      DumpReads(o, x, time);
      FramedComesBack(mediasize, disk, kdh, stream, FilesRead(o, x));
    }
  }

  /** Trailer, files and header. */
  method DumpFramed(d: Dumper, c: Capture, o: Options, config: seq<Byte>, chunks: seq<seq<Byte>>,
                    panic: Option<seq<Byte>>, version: seq<Byte>, ghost x: Sources) returns (ghost stream: seq<Block>)
    requires d.Valid() && d.laid == [] && c.Valid() && c.buf != d.buffer
    requires x == Sources(c.Text(), config, NoNuls(Joined(chunks)), panic, version)
    modifies d`offset, d`error, d`disk, d`laid, d.buffer, c`bufoff, c.buf
    ensures d.Valid() && d.laid == Framed(d.kdh, stream) && stream == DumpBlocks(o, x, d.time)
  {
    var saved := d.offset;
    d.Begin();
    stream := DumpFiles(d, c, o, config, chunks, panic, version);
    d.Finish(saved, stream);
  }

  /** All n blocks and their two headers are on the device exactly when there is room for them. */
  ghost predicate WholeIffRoomy(mediasize: nat, disk: map<int, Block>, n: nat) {
    Downward(mediasize, disk, n + 2).Some? <==> Roomy(mediasize, n)
  }

  lemma WholeWritten(d: Dumper, stream: seq<Block>)
    requires d.Valid() && d.laid == Framed(d.kdh, stream) && d.error == 0
    ensures WholeIffRoomy(d.mediasize, d.disk, |stream|)
  {
    CompleteIff(d);
  }

  lemma Written(d: Dumper, o: Options, x: Sources, stream: seq<Block>)
    requires d.Valid() && d.laid == Framed(d.kdh, stream) && stream == DumpBlocks(o, x, d.time)
    ensures d.error == 0 ==>
      DumpedAs(d.mediasize, d.disk, d.kdh, o, x, stream) && WholeIffRoomy(d.mediasize, d.disk, |stream|)
  {
    if d.error == 0 {
      DumpComesBack(d.mediasize, d.disk, d.kdh, o, x, d.time, d.laid, d.Top(), stream);
      WholeWritten(d, stream);
    }
  }

  /** textdump_dumpsys, if the device is large enough for the two headers; x is what there was to dump. */
  method DumpSys(d: Dumper, c: Capture, o: Options, config: seq<Byte>, chunks: seq<seq<Byte>>,
                 panic: Option<seq<Byte>>, version: seq<Byte>)
    returns (started: bool, ghost x: Sources, ghost stream: seq<Block>)
    requires d.Valid() && d.laid == [] && c.Valid() && c.buf != d.buffer
    modifies d`offset, d`error, d`disk, d`laid, d.buffer, c`bufoff, c.buf
    ensures d.Valid() && started == (d.mediasize >= SIZEOF_METADATA + 2 * BLOCKSIZE)
    ensures x == Sources(old(c.Text()), config, NoNuls(Joined(chunks)), panic, version)
    ensures started ==> stream == DumpBlocks(o, x, d.time) && d.laid == Framed(d.kdh, stream)
    ensures started && d.error == 0 ==> DumpedAs(d.mediasize, d.disk, d.kdh, o, x, stream)
    ensures started && d.error == 0 ==> WholeIffRoomy(d.mediasize, d.disk, |stream|)
    ensures d.faulty == {} ==> d.error == 0
  {
    x, stream := Sources(c.Text(), config, NoNuls(Joined(chunks)), panic, version), [];
    started := d.mediasize >= SIZEOF_METADATA + 2 * BLOCKSIZE;
    if !started { return; }
    stream := DumpFramed(d, c, o, config, chunks, panic, version, x);
    Written(d, o, x, stream);
  }

  /** A device without faults that is too small for the version string: the dump is begun and ends
      without an error, and cannot be read back. */
  method TooSmall(kdh: int -> Block, time: nat) returns (d: Dumper)
    ensures fresh(d) && d.mediasize == SIZEOF_METADATA + 2 * BLOCKSIZE && d.faulty == {}
    ensures d.error == 0 && Downward(d.mediasize, d.disk, 4).None?
  {
    d := new Dumper(SIZEOF_METADATA + 2 * BLOCKSIZE, {}, time, kdh);
    var c := new Capture(0);
    var o := Options(false, false, false, false, true);
    ghost var x, stream;
    var started;
    started, x, stream := DumpSys(d, c, o, [], [], None, [86]);
    VersionOnly(o, x, time);
  }

  lemma VersionOnly(o: Options, x: Sources, time: nat)
    requires o == Options(false, false, false, false, true)
    ensures |DumpBlocks(o, x, time)| == 2
  {}
}
