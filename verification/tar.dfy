/** tar's tape blocking and the alignment of its headers.

    Laid and Coming speak of every list that equals theirs, not of the list itself: that hides the
    recursive functions applied to it, which are then unfolded only in the lemmas that name them. */
module Tar {
  import opened Basics
  import opened Sequences

  const TBLOCK := 512
  const NBLOCK := 20

  /** A record: a header, 512 bytes of a file, or the empty record that ends an archive. */
  datatype Record =
    | Head(name: string, linkname: string, linked: bool, size: nat)
    | Data(bytes: seq<Byte>)
    | Empty

  function Min(a: int, b: int): (r: int) { if a < b then a else b }

  // ------------------------------------------------------------ blocks of records

  /** The writing side of the tape. */
  class Writer {
    const tbuf: array<Record>
    var nblock: nat
    var recno: nat
    var mt: seq<Record>
    ghost var given: seq<Record>

    ghost predicate Valid()
      reads this, tbuf
    {
      && tbuf.Length == NBLOCK && nblock <= NBLOCK && (recno > 0 ==> recno < nblock)
      && given == mt + tbuf[..recno]
    }

    constructor (nblock: nat)
      requires nblock <= NBLOCK
      ensures Valid() && given == [] && mt == [] && this.nblock == nblock && fresh(tbuf)
    {
      tbuf := new Record[NBLOCK](i => Empty);
      this.nblock, recno, mt, given := nblock, 0, [], [];
    }

    /** writetape: the records given so far are on the tape or in the block being filled. */
    method WriteTape(r: Record)
      requires Valid()
      modifies this, tbuf
      ensures Valid() && given == old(given) + [r] && nblock == if old(nblock) == 0 then 1 else old(nblock)
    {
      if nblock == 0 { nblock := 1; }
      tbuf[recno] := r;
      assert tbuf[..recno] == old(tbuf[..recno]);
      recno := recno + 1;
      assert tbuf[..recno] == old(tbuf[..recno]) + [r] by { assert old(recno) + 1 == recno; }
      if recno >= nblock {
        mt := mt + tbuf[..nblock];
        recno := 0;
      }
      given := given + [r];
    }

    /** flushtape: a whole block, whatever its rest holds. */
    method FlushTape()
      requires Valid()
      modifies `mt
      ensures given <= mt
    {
      mt := mt + tbuf[..nblock];
    }
  }

  /** The reading side, for an archive in a disk file; `next` counts the records asked for. */
  class Reader {
    const tbuf: array<Record>
    const mt: seq<Record>
    var at: nat
    var nblock: nat
    var recno: nat
    var first: bool
    ghost var next: nat

    /** The block in the buffer starts with record number next - recno; what it has of the file
        is in place.  A block of no records is only met past the end. */
    ghost predicate Valid()
      reads this, tbuf
    {
      && tbuf.Length == NBLOCK && nblock <= NBLOCK && at <= |mt| && recno <= NBLOCK
      && if !first then next == 0 && at == 0 && recno == 0
         else if nblock == 0 then next >= |mt|
         else recno <= nblock && recno <= next && at == Min(next - recno + nblock, |mt|)
              && forall k :: 0 <= k < nblock && next - recno + k < |mt| ==> tbuf[k] == mt[next - recno + k]
    }

    constructor (mt: seq<Record>, nblock: nat)
      requires nblock <= NBLOCK
      ensures Valid() && next == 0 && this.mt == mt && fresh(tbuf)
    {
      tbuf := new Record[NBLOCK](i => Empty);
      this.mt, at, this.nblock, recno, first, next := mt, 0, nblock, 0, false, 0;
    }

    /** read(2) of up to j records into the buffer. */
    method ReadBlock(j: nat) returns (i: nat)
      requires tbuf.Length == NBLOCK && j <= NBLOCK && at <= |mt|
      modifies `at, tbuf
      ensures i == Min(j, |mt| - old(at)) && at == old(at) + i
      ensures forall k :: 0 <= k < i ==> tbuf[k] == mt[old(at) + k]
    {
      i := Min(j, |mt| - at);
      forall k | 0 <= k < i { tbuf[k] := mt[at + k]; }
      at := at + i;
    }

    /** readtape: the records come in the order they were written, whatever the two block sizes;
        with block size 0 the first read finds it. */
    method ReadTape() returns (r: Record)
      requires Valid()
      modifies this, tbuf
      ensures Valid() && next == old(next) + 1 && (old(next) < |mt| ==> r == mt[old(next)])
    {
      if recno >= nblock || !first {
        var j := if !first && nblock == 0 then NBLOCK else nblock;
        var i := ReadBlock(j);
        if !first && i != nblock && i != 1 { nblock := i; }
        recno := 0;
      }
      first := true;
      r := tbuf[recno];
      recno := recno + 1;
      next := next + 1;
    }
  }

  // ------------------------------------------------------------ entries

  datatype Entry = File(name: string, data: seq<Byte>) | Link(name: string, linkname: string, size: nat)

  function HeadOf(e: Entry): (r: Record) {
    match e
    case File(name, data) => Head(name, "", false, |data|)
    case Link(name, to, size) => Head(name, to, true, size)
  }

  function Blocks(size: nat): (r: nat) { (size + TBLOCK - 1) / TBLOCK }

  /** The number of records of an entry: a link has no data, whatever its header's size. */
  function Length(e: Entry): (r: nat) { 1 + if e.File? then Blocks(|e.data|) else 0 }

  /** A record that can be read as 512 bytes of a file; the empty one is all zeros. */
  predicate Solid(r: Record) { r.Empty? || (r.Data? && |r.bytes| == TBLOCK) }

  function Raw(r: Record): (b: seq<Byte>)
    requires Solid(r)
    ensures |b| == TBLOCK
  {
    if r.Empty? then seq(TBLOCK, i => 0) else r.bytes
  }

  /** The k-th data record of a file holds its bytes; what follows the last is anything. */
  ghost predicate Holds(r: Record, data: seq<Byte>, k: nat) {
    Solid(r) && TBLOCK * k <= |data|
    && Raw(r)[..Min(TBLOCK, |data| - TBLOCK * k)] == data[TBLOCK * k..Min(TBLOCK * (k + 1), |data|)]
  }

  /** The records from number at on hold the file's bytes. */
  ghost predicate BodyAt(rs: seq<Record>, at: nat, data: seq<Byte>) {
    at + Blocks(|data|) <= |rs| && forall k :: 0 <= k < Blocks(|data|) ==> HoldsAt(rs, at, data, k)
  }

  ghost predicate HoldsAt(rs: seq<Record>, at: nat, data: seq<Byte>, k: nat)
    requires at + k < |rs|
  {
    Holds(rs[at + k], data, k)
  }

  ghost predicate EntryAt(rs: seq<Record>, at: nat, e: Entry) {
    at + Length(e) <= |rs| && rs[at] == HeadOf(e) && (e.File? ==> BodyAt(rs, at + 1, e.data))
  }

  /** From record number at on, the entries follow one another. */
  ghost predicate EntriesAt(rs: seq<Record>, at: nat, es: seq<Entry>)
    decreases |es|
  {
    if es == [] then at <= |rs| else EntryAt(rs, at, es[0]) && EntriesAt(rs, at + Length(es[0]), es[1..])
  }

  function Records(es: seq<Entry>): (r: nat) { if es == [] then 0 else Length(es[0]) + Records(es[1..]) }

  /** More records after them change nothing. */
  lemma {:induction false} EntriesStay(rs: seq<Record>, at: nat, es: seq<Entry>, rs': seq<Record>)
    requires EntriesAt(rs, at, es) && rs <= rs'
    ensures EntriesAt(rs', at, es)
    decreases |es|
  {
    if es != [] {
      EntryStays(rs, at, es[0], rs');
      EntriesStay(rs, at + Length(es[0]), es[1..], rs');
    }
  }

  lemma EntryStays(rs: seq<Record>, at: nat, e: Entry, rs': seq<Record>)
    requires EntryAt(rs, at, e) && rs <= rs'
    ensures EntryAt(rs', at, e)
  {
    if e.File? {
      var from := at + 1;
      forall k | 0 <= k < Blocks(|e.data|) ensures HoldsAt(rs', from, e.data, k) {
        assert HoldsAt(rs, from, e.data, k);
      }
    }
  }

  lemma {:induction false} EntriesAppend(rs: seq<Record>, at: nat, es: seq<Entry>, e: Entry)
    requires EntriesAt(rs, at, es) && EntryAt(rs, at + Records(es), e)
    ensures EntriesAt(rs, at, es + [e]) && Records(es + [e]) == Records(es) + Length(e)
    decreases |es|
  {
    var fs := es + [e];
    if es == [] {
      assert fs[1..] == [];
    } else {
      EntriesAppend(rs, at + Length(es[0]), es[1..], e);
      assert fs[1..] == es[1..] + [e];
    }
  }

  // ------------------------------------------------------------ writing entries

  /** What fstat says of a file's size, and what reading it gives; they differ if it changes. */
  datatype Source =
    | Regular(name: string, size: nat, content: seq<Byte>)
    | Linked(name: string, linkname: string, size: nat)

  ghost predicate EntryOf(x: Source, e: Entry) {
    match x
    case Linked(name, to, size) => e == Link(name, to, size)
    case Regular(name, size, content) =>
      e.File? && e.name == name && |e.data| == size && Agrees(e.data, content)
  }

  /** As far as both go. */
  ghost predicate Agrees(a: seq<Byte>, b: seq<Byte>) {
    forall i :: 0 <= i < |a| && i < |b| ==> a[i] == b[i]
  }

  /** A file that does not change while it is dumped; a link has no content. */
  predicate Steady(x: Source) { x.Regular? ==> |x.content| == x.size }

  /** It is archived as it is. */
  function Same(x: Source): (e: Entry) {
    match x
    case Regular(name, _, content) => File(name, content)
    case Linked(name, to, size) => Link(name, to, size)
  }

  lemma SteadyIsSame(x: Source, e: Entry)
    requires EntryOf(x, e) && Steady(x)
    ensures e == Same(x)
  {}

  /** read(2) of at most TBLOCK bytes; the rest of the buffer stays. */
  method ReadSome(buf: array<Byte>, content: seq<Byte>, from: nat) returns (i: nat)
    requires buf.Length == TBLOCK && from <= |content|
    modifies buf
    ensures i == Min(TBLOCK, |content| - from) && buf[..i] == content[from..from + i]
  {
    i := Min(TBLOCK, |content| - from);
    forall k | 0 <= k < i { buf[k] := content[from + k]; }
  }

  /** The data loops of putfile: exactly as many records as the header's size asks for, whatever
      reading the file gives. */
  method PutBlocks(w: Writer, size: nat, content: seq<Byte>, buf: array<Byte>) returns (ghost data: seq<Byte>)
    requires w.Valid() && buf.Length == TBLOCK
    modifies w, w.tbuf, buf
    ensures w.Valid() && old(w.given) <= w.given && |w.given| == |old(w.given)| + Blocks(size)
    ensures |data| == size && BodyAt(w.given, |old(w.given)|, data) && Agrees(data, content)
  {
    var written := PutContent(w, size, content, buf);
    ghost var start := |old(w.given)|;
    ghost var rs := w.given;
    var blocks := Blocks(size) - written;
    AllSolid(rs, start, content, written);
    while blocks > 0
      invariant w.Valid() && rs <= w.given && |w.given| == start + Blocks(size) - blocks && blocks >= 0
      invariant forall j :: start <= j < |w.given| ==> Solid(w.given[j])
    {
      w.WriteTape(Empty);
      blocks := blocks - 1;
    }
    data := Kept(rs, w.given, start, size, content, written);
  }

  /** The first of them: until the file ends or the size is reached. */
  method PutContent(w: Writer, size: nat, content: seq<Byte>, buf: array<Byte>) returns (written: nat)
    requires w.Valid() && buf.Length == TBLOCK
    modifies w, w.tbuf, buf
    ensures w.Valid() && old(w.given) <= w.given && |w.given| == |old(w.given)| + written
    ensures written <= Blocks(size) && (written == Blocks(size) || |content| <= TBLOCK * written)
    ensures forall k :: 0 <= k < written ==> HoldsAt(w.given, |old(w.given)|, content, k)
  {
    ghost var start := |w.given|;
    var blocks: int, from := Blocks(size), 0;
    written := 0;
    var i := ReadSome(buf, content, 0);
    while i > 0 && blocks > 0
      invariant w.Valid() && old(w.given) <= w.given && |w.given| == start + written
      invariant written + blocks == Blocks(size) && blocks >= 0
      invariant from <= |content| && from + i <= |content| && i == Min(TBLOCK, |content| - from)
      invariant from == Min(TBLOCK * written, |content|) && buf[..i] == content[from..from + i]
      invariant forall k :: 0 <= k < written ==> HoldsAt(w.given, start, content, k)
      decreases blocks
    {
      ghost var before := w.given;
      w.WriteTape(Data(buf[..]));
      Written(before, w.given, start, content, written, buf[..], i);
      written, blocks, from := written + 1, blocks - 1, from + i;
      i := ReadSome(buf, content, from);
    }
  }

  /** Byte number i of the records from number start on. */
  function ByteAt(rs: seq<Record>, start: nat, i: nat): (b: Byte) {
    if start + i / TBLOCK < |rs| && Solid(rs[start + i / TBLOCK]) then Raw(rs[start + i / TBLOCK])[i % TBLOCK] else 0
  }

  /** The file that the records hold: it starts like the content that was read. */
  lemma Kept(before: seq<Record>, rs: seq<Record>, start: nat, size: nat, content: seq<Byte>, written: nat)
    returns (data: seq<Byte>)
    requires before <= rs && |before| == start + written && |rs| == start + Blocks(size)
    requires written <= Blocks(size) && (written == Blocks(size) || |content| <= TBLOCK * written)
    requires forall j :: start <= j < |rs| ==> Solid(rs[j])
    requires forall k :: 0 <= k < written ==> HoldsAt(before, start, content, k)
    ensures |data| == size && BodyAt(rs, start, data) && Agrees(data, content)
  {
    data := seq(size, i requires 0 <= i < size => ByteAt(rs, start, i));
    forall k | 0 <= k < Blocks(size) ensures HoldsAt(rs, start, data, k) { RecordHolds(rs, start, size, data, k); }
    forall i | 0 <= i < size && i < |content| ensures data[i] == content[i] {
      BlockOf(i, size);
      BlockOf(i, |content|);
      SameByte(before, rs, start, content, i);
    }
  }

  lemma AllSolid(rs: seq<Record>, start: nat, content: seq<Byte>, written: nat)
    requires |rs| == start + written && forall k :: 0 <= k < written ==> HoldsAt(rs, start, content, k)
    ensures forall j :: start <= j < |rs| ==> Solid(rs[j])
  {
    forall j | start <= j < |rs| ensures Solid(rs[j]) { assert HoldsAt(rs, start, content, j - start); }
  }

  lemma BlockOf(i: nat, n: nat)
    requires i < n
    ensures i / TBLOCK < Blocks(n) && forall m: nat :: n <= TBLOCK * m ==> i / TBLOCK < m
  {}

  lemma RecordHolds(rs: seq<Record>, start: nat, size: nat, data: seq<Byte>, k: nat)
    requires start + k < |rs| && Solid(rs[start + k]) && k < Blocks(size) && |data| == size
    requires forall i :: 0 <= i < size ==> data[i] == ByteAt(rs, start, i)
    ensures HoldsAt(rs, start, data, k)
  {
    var n := Min(TBLOCK, size - TBLOCK * k);
    var a, b := Raw(rs[start + k])[..n], data[TBLOCK * k..TBLOCK * k + n];
    forall j | 0 <= j < n ensures a[j] == b[j] {
      assert (TBLOCK * k + j) / TBLOCK == k && (TBLOCK * k + j) % TBLOCK == j;
    }
    assert a == b;
  }

  lemma SameByte(before: seq<Record>, rs: seq<Record>, start: nat, content: seq<Byte>, i: nat)
    requires before <= rs && i < |content| && start + i / TBLOCK < |before|
    requires HoldsAt(before, start, content, i / TBLOCK)
    ensures ByteAt(rs, start, i) == content[i]
  {
    var k, j := i / TBLOCK, i % TBLOCK;
    var n := Min(TBLOCK, |content| - TBLOCK * k);
    assert i == TBLOCK * k + j && j < n;
    assert Raw(before[start + k])[..n][j] == content[TBLOCK * k..Min(TBLOCK * (k + 1), |content|)][j];
  }

  lemma Written(before: seq<Record>, rs: seq<Record>, start: nat, content: seq<Byte>, k: nat, bytes: seq<Byte>, i: nat)
    requires |bytes| == TBLOCK && rs == before + [Data(bytes)] && |before| == start + k
    requires TBLOCK * k < |content| && i == Min(TBLOCK, |content| - TBLOCK * k)
    requires bytes[..i] == content[TBLOCK * k..TBLOCK * k + i]
    requires forall j :: 0 <= j < k ==> HoldsAt(before, start, content, j)
    ensures forall j :: 0 <= j < k + 1 ==> HoldsAt(rs, start, content, j)
  {
    forall j | 0 <= j < k + 1 ensures HoldsAt(rs, start, content, j) {
      if j < k { assert HoldsAt(before, start, content, j); }
    }
  }

  /** putfile, for a regular file or for a further link to one already written. */
  method PutFile(w: Writer, x: Source, buf: array<Byte>) returns (ghost e: Entry)
    requires w.Valid() && buf.Length == TBLOCK
    modifies w, w.tbuf, buf
    ensures w.Valid() && old(w.given) <= w.given && EntryOf(x, e)
    ensures |w.given| == |old(w.given)| + Length(e) && EntryAt(w.given, |old(w.given)|, e)
  {
    match x
    case Linked(name, to, size) =>
      w.WriteTape(Head(name, to, true, size));
      e := Link(name, to, size);
    case Regular(name, size, content) =>
      w.WriteTape(Head(name, "", false, size));
      ghost var data := PutBlocks(w, size, content, buf);
      e := File(name, data);
  }

  /** The records are these entries, one after the other. */
  ghost predicate Laid(rs: seq<Record>, es: seq<Entry>) {
    forall fs: seq<Entry> {:trigger Records(fs)} :: fs == es ==> EntriesAt(rs, 0, fs) && |rs| == Records(fs)
  }

  lemma NothingLaid()
    ensures Laid([], [])
  {}

  lemma LaidNext(rs: seq<Record>, es: seq<Entry>, rs': seq<Record>, e: Entry)
    requires Laid(rs, es) && rs <= rs' && EntryAt(rs', |rs|, e) && |rs'| == |rs| + Length(e)
    ensures Laid(rs', es + [e])
  {
    assert |rs| == Records(es);
    EntriesStay(rs, 0, es, rs');
    EntriesAppend(rs', 0, es, e);
  }

  lemma LaidThenEnd(rs: seq<Record>, es: seq<Entry>, mt: seq<Record>)
    requires Laid(rs, es) && rs + [Empty] <= mt
    ensures EntriesAt(mt, 0, es) && Records(es) < |mt| && mt[Records(es)] == Empty
  {
    assert |rs| == Records(es);
    assert rs <= rs + [Empty] <= mt;
    EntriesStay(rs, 0, es, mt);
    assert mt[|rs|] == (rs + [Empty])[|rs|];
  }

  /** dorep's loop over the files. */
  method PutEach(w: Writer, xs: seq<Source>, buf: array<Byte>) returns (ghost es: seq<Entry>)
    requires w.Valid() && w.given == [] && buf.Length == TBLOCK
    modifies w, w.tbuf, buf
    ensures |es| == |xs| && forall i :: 0 <= i < |xs| ==> EntryOf(xs[i], es[i])
    ensures w.Valid() && Laid(w.given, es)
  {
    es := [];
    var i := 0;
    NothingLaid();
    while i < |xs|
      invariant i == |es| <= |xs| && w.Valid() && Laid(w.given, es)
      invariant forall k :: 0 <= k < i ==> EntryOf(xs[k], es[k])
    {
      ghost var before := w.given;
      ghost var e := PutFile(w, xs[i], buf);
      LaidNext(before, es, w.given, e);
      es := es + [e];
      i := i + 1;
    }
  }

  /** dorep: all the files, two empty records, and the last block out. */
  method PutAll(w: Writer, xs: seq<Source>) returns (ghost es: seq<Entry>)
    requires w.Valid() && w.given == []
    modifies w, w.tbuf
    ensures |es| == |xs| && forall i :: 0 <= i < |xs| ==> EntryOf(xs[i], es[i])
    ensures EntriesAt(w.mt, 0, es) && Records(es) < |w.mt| && w.mt[Records(es)] == Empty
  {
    var buf := new Byte[TBLOCK](i => 0);
    es := PutEach(w, xs, buf);
    ghost var body := w.given;
    w.WriteTape(Empty);
    w.WriteTape(Empty);
    w.FlushTape();
    LaidThenEnd(body, es, w.mt);
  }

  // ------------------------------------------------------------ extracting

  datatype Extracted = Created(name: string, data: seq<Byte>) | Relinked(name: string, linkname: string)

  /** What extraction should make of an entry: nothing, a link, or a file with its own bytes. */
  function One(e: Entry, wanted: string -> bool, creatable: string -> bool): (r: seq<Extracted>) {
    match e
    case Link(name, to, _) => if wanted(name) then [Relinked(name, to)] else []
    case File(name, data) => if wanted(name) && creatable(name) then [Created(name, data)] else []
  }

  function Expected(es: seq<Entry>, wanted: string -> bool, creatable: string -> bool): (r: seq<Extracted>) {
    if es == [] then [] else One(es[0], wanted, creatable) + Expected(es[1..], wanted, creatable)
  }

  /** passtape: past the data of the entry just seen. */
  method PassTape(r: Reader, linked: bool, size: nat)
    requires r.Valid()
    modifies r, r.tbuf
    ensures r.Valid() && r.next == old(r.next) + if linked then 0 else Blocks(size)
  {
    if linked { return; }
    var blocks := Blocks(size);
    while blocks > 0
      invariant r.Valid() && r.next == old(r.next) + (Blocks(size) - blocks)
    {
      var buf := r.ReadTape();
      blocks := blocks - 1;
    }
  }

  /** What is written of a record goes on with the data. */
  lemma OneMore(b: Record, data: seq<Byte>, k: nat, n: int)
    requires Holds(b, data, k) && n == Min(TBLOCK, |data| - TBLOCK * k)
    ensures n >= 0 && data[..Min(TBLOCK * k, |data|)] + Raw(b)[..n] == data[..Min(TBLOCK * (k + 1), |data|)]
  {
    assert TBLOCK * k <= |data|;
  }

  /** The data loop of doxtract. */
  method ReadData(r: Reader, size: nat, ghost data: seq<Byte>) returns (out: seq<Byte>)
    requires r.Valid() && size == |data| && BodyAt(r.mt, r.next, data)
    modifies r, r.tbuf
    ensures r.Valid() && r.next == old(r.next) + Blocks(size) && out == data
  {
    out := [];
    var blocks, bytes: int, k := Blocks(size), size, 0;
    ghost var start := r.next;
    while blocks > 0
      invariant r.Valid() && k + blocks == Blocks(size) && r.next == start + k && bytes == size - TBLOCK * k
      invariant out == data[..Min(TBLOCK * k, size)]
    {
      assert HoldsAt(r.mt, start, data, k);
      var b := r.ReadTape();
      assert Holds(b, data, k);
      var n := if bytes > TBLOCK then TBLOCK else bytes;
      OneMore(b, data, k, n);
      out := out + Raw(b)[..n];
      bytes, blocks, k := bytes - TBLOCK, blocks - 1, k + 1;
    }
  }

  /** One entry, its header read: what is extracted of it. */
  method ExtractOne(r: Reader, h: Record, wanted: string -> bool, creatable: string -> bool, ghost e: Entry)
    returns (got: seq<Extracted>)
    requires r.Valid() && h == HeadOf(e) && r.next > 0 && EntryAt(r.mt, r.next - 1, e)
    modifies r, r.tbuf
    ensures r.Valid() && r.next == old(r.next) - 1 + Length(e) && got == One(e, wanted, creatable)
  {
    got := [];
    if !wanted(h.name) {
      PassTape(r, h.linked, h.size);
    } else if h.linked {
      got := [Relinked(h.name, h.linkname)];
    } else if !creatable(h.name) {
      PassTape(r, false, h.size);
    } else {
      var data := ReadData(r, h.size, e.data);
      got := [Created(h.name, data)];
    }
  }

  /** What is still to come from record number at on: these entries, then an empty record at end. */
  ghost predicate ToCome(mt: seq<Record>, at: nat, left: seq<Entry>, end: nat,
                         done: seq<Extracted>, goal: seq<Extracted>,
                         wanted: string -> bool, creatable: string -> bool) {
    EntriesAt(mt, at, left) && at + Records(left) == end < |mt| && mt[end] == Empty
    && done + Expected(left, wanted, creatable) == goal
  }

  /** The same, shown only when asked for. */
  ghost predicate Coming(mt: seq<Record>, at: nat, left: seq<Entry>, end: nat,
                         done: seq<Extracted>, goal: seq<Extracted>,
                         wanted: string -> bool, creatable: string -> bool) {
    forall es: seq<Entry> {:trigger Records(es)} :: es == left ==>
      ToCome(mt, at, es, end, done, goal, wanted, creatable)
  }

  lemma NextComes(mt: seq<Record>, at: nat, left: seq<Entry>, end: nat, done: seq<Extracted>, goal: seq<Extracted>,
                  wanted: string -> bool, creatable: string -> bool)
    requires Coming(mt, at, left, end, done, goal, wanted, creatable)
    ensures at < |mt|
    ensures mt[at] == Empty ==> at == end && done == goal
    ensures mt[at] != Empty ==>
      left != [] && EntryAt(mt, at, left[0])
      && Coming(mt, at + Length(left[0]), left[1..], end, done + One(left[0], wanted, creatable),
                goal, wanted, creatable)
  {
    assert Records(left) >= 0;
    if left == [] {
      assert done + [] == done;
    } else {
      Associative(done, One(left[0], wanted, creatable), Expected(left[1..], wanted, creatable));
    }
  }

  /** doxtract: every getdir finds a header, and what is extracted is what was archived. */
  method Extract(r: Reader, wanted: string -> bool, creatable: string -> bool, ghost es: seq<Entry>)
    returns (done: seq<Extracted>)
    requires r.Valid() && EntriesAt(r.mt, r.next, es)
    requires r.next + Records(es) < |r.mt| && r.mt[r.next + Records(es)] == Empty
    modifies r, r.tbuf
    ensures done == Expected(es, wanted, creatable) && r.next == old(r.next) + Records(es) + 1
  {
    done := ExtractAll(r, wanted, creatable, es, r.next + Records(es), Expected(es, wanted, creatable));
  }

  method ExtractAll(r: Reader, wanted: string -> bool, creatable: string -> bool,
                    ghost es: seq<Entry>, ghost end: nat, ghost goal: seq<Extracted>) returns (done: seq<Extracted>)
    requires r.Valid() && Coming(r.mt, r.next, es, end, [], goal, wanted, creatable)
    modifies r, r.tbuf
    ensures done == goal && r.next == end + 1
  {
    done := [];
    ghost var left := es;
    while true
      invariant r.Valid() && Coming(r.mt, r.next, left, end, done, goal, wanted, creatable)
      decreases |left|
    {
      NextComes(r.mt, r.next, left, end, done, goal, wanted, creatable);
      var h := r.ReadTape();
      if h.Empty? { break; }
      var got := ExtractOne(r, h, wanted, creatable, left[0]);
      done := done + got;
      left := left[1..];
    }
  }

  /** An archive in a disk file: whatever the block sizes of writer and reader, found out by the
      reader if it is given 0, the files come out as they went in, those that did not change size
      meanwhile with exactly their bytes. */
  method ThroughArchive(xs: seq<Source>, out: nat, back: nat, wanted: string -> bool, creatable: string -> bool)
    returns (done: seq<Extracted>, ghost es: seq<Entry>)
    requires out <= NBLOCK && back <= NBLOCK
    ensures |es| == |xs| && done == Expected(es, wanted, creatable)
    ensures forall i :: 0 <= i < |xs| ==> EntryOf(xs[i], es[i]) && (Steady(xs[i]) ==> es[i] == Same(xs[i]))
  {
    var w := new Writer(out);
    es := PutAll(w, xs);
    var r := new Reader(w.mt, back);
    done := Extract(r, wanted, creatable, es);
    forall i | 0 <= i < |xs| && Steady(xs[i]) ensures es[i] == Same(xs[i]) { SteadyIsSame(xs[i], es[i]); }
  }

  /** A file takes the fewest records of 512 bytes that hold it. */
  lemma BlocksAre(size: nat)
    ensures if size == 0 then Blocks(size) == 0 else 512 * (Blocks(size) - 1) < size <= 512 * Blocks(size)
  {}
}
