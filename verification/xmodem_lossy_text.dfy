/** Text over links that lose and damage packets: the receiver unpacks a packet before it looks at the
    checksum, so that a damaged one can leave its text variables changed.  Unless that happens every
    packet counts once and the text comes through. */
module XmodemLossyText {
  import opened Basics
  import opened Sequences
  import opened Xmodem
  import opened XmodemAsync
  import opened XmodemRounds
  import opened XmodemText
  import opened XmodemWrap

  /** The receiver that has got these blocks, each once, and nothing else. */
  function After(bs: seq<Block>): (r: RState) { ReceiveAll(RInit, true, bs, 0) }

  /** The next block, undamaged. */
  lemma Accepted(r: RState, n: nat, b: Block)
    requires r.sectnum == n % 256
    ensures var u := Unpack(true, r.nlflag, r.recfin, b);
      Receive(r, true, Soh(MakePacket(n + 1, b)))
      == (r.(errors := 0, sectnum := (n + 1) % 256, nlflag := u.nlflag, recfin := u.recfin,
             written := r.written + [u.out]), [ACK])
  {
    HeaderAddsUp(n + 1);
    assert (n + 1) % 256 == (r.sectnum + 1) % 256;
  }

  lemma {:induction false} ReceivedSector(r: RState, bs: seq<Block>, n: nat)
    requires r.sectnum == n % 256
    ensures var r' := ReceiveAll(r, true, bs, n);
      r'.sectnum == (n + |bs|) % 256 && |r'.written| == |r.written| + |bs|
    decreases |bs|
  {
    if bs != [] {
      Accepted(r, n, bs[0]);
      ReceivedSector(Receive(r, true, Soh(MakePacket(n + 1, bs[0]))).0, bs[1..], n + 1);
    }
  }

  lemma {:induction false} ReceivedNext(r: RState, bs: seq<Block>, b: Block, n: nat)
    ensures ReceiveAll(r, true, bs + [b], n)
         == Receive(ReceiveAll(r, true, bs, n), true, Soh(MakePacket(n + |bs| + 1, b))).0
    decreases |bs|
  {
    if bs == [] {
      assert bs + [b] == [b] && [b][1..] == [];
    } else {
      assert (bs + [b])[1..] == bs[1..] + [b];
      ReceivedNext(Receive(r, true, Soh(MakePacket(n + 1, bs[0]))).0, bs[1..], b, n + 1);
    }
  }

  /** A block accepted: what the receiver's text variables become. */
  lemma AfterNext(bs: seq<Block>, b: Block)
    ensures var r, u := After(bs), Unpack(true, After(bs).nlflag, After(bs).recfin, b);
      After(bs + [b]).written == r.written + [u.out] && After(bs + [b]).nlflag == u.nlflag
      && After(bs + [b]).recfin == u.recfin && |After(bs).written| == |bs|
  {
    ReceivedNext(RInit, bs, b, 0);
    ReceivedSector(RInit, bs, 0);
    Accepted(After(bs), |bs|, b);
  }

  /** The text receiver t is where the binary receiver b is, and has unpacked the blocks that b has. */
  ghost predicate SameReceiver(blocks: seq<Block>, t: RState, b: RState) {
    && b.written <= blocks && t.sectnum == b.sectnum && t.errors == b.errors && t.status == b.status
    && Unpacks(blocks[..|b.written|], t)
  }

  /** t's text variables are those of a receiver that has got exactly bs. */
  ghost predicate Unpacks(bs: seq<Block>, t: RState) {
    forall xs: seq<Block> :: xs == bs ==>
      t.written == After(xs).written && t.nlflag == After(xs).nlflag && t.recfin == After(xs).recfin
  }

  ghost predicate Follows(blocks: seq<Block>, t: Sys, b: Sys) {
    t.s == b.s && t.fwd == b.fwd && t.back == b.back && t.dups == b.dups && SameReceiver(blocks, t.r, b.r)
  }

  /** The event is the packet that was expected, with a checksum that does not match, and unpacking it
      changes what the receiver remembers of line ends and of the end of the file. */
  predicate Spoils(blocks: seq<Block>, t: Sys, e: Step) {
    && e.DeliverDamaged? && t.fwd != [] && t.r.status == Receiving && 1 <= t.fwd[0] <= |blocks|
    && DetectablyDamaged(Sent(blocks, t.fwd[0]).p, e.got)
    && e.got.sect + e.got.comp == 255 && e.got.sect == (t.r.sectnum + 1) % 256
    && var u := Unpack(true, t.r.nlflag, t.r.recfin, e.got.data);
       u.nlflag != t.r.nlflag || u.recfin != t.r.recfin
  }

  lemma UnpacksNext(blocks: seq<Block>, r: nat, t: RState, t': RState)
    requires r < |blocks| && Unpacks(blocks[..r], t)
    requires var u := Unpack(true, t.nlflag, t.recfin, blocks[r]);
      t'.written == t.written + [u.out] && t'.nlflag == u.nlflag && t'.recfin == u.recfin
    ensures Unpacks(blocks[..r + 1], t')
  {
    AfterNext(blocks[..r], blocks[r]);
    assert blocks[..r] + [blocks[r]] == blocks[..r + 1];
  }

  /** The two receivers get the same packet. */
  lemma SamePacket(blocks: seq<Block>, t: RState, b: RState, k: nat)
    requires SameReceiver(blocks, t, b) && 1 <= k <= |blocks|
    requires Receive(b, false, Soh(MakePacket(k, blocks[k - 1]))).0.written <= blocks
    ensures var (t', st) := Receive(t, true, Soh(MakePacket(k, blocks[k - 1])));
      var (b', sb) := Receive(b, false, Soh(MakePacket(k, blocks[k - 1])));
      SameReceiver(blocks, t', b') && st == sb && (t' == t <==> b' == b)
  {
    var r, p := |b.written|, MakePacket(k, blocks[k - 1]);
    HeaderAddsUp(k);
    ReceiveIntact(b, k, blocks[k - 1]);
    if k % 256 == (b.sectnum + 1) % 256 {
      var t', b' := Receive(t, true, Soh(p)).0, Receive(b, false, Soh(p)).0;
      assert b'.written == b.written + [blocks[k - 1]] && b'.written[r] == blocks[r];
      UnpacksNext(blocks, r, t, t');
    }
  }

  lemma WrittenGrows(blocks: seq<Block>, z: Sys, e: Step)
    ensures z.r.written <= Apply(blocks, z, e).r.written
  {}

  lemma FlagsFixed(bs: seq<Block>, t: RState, t': RState)
    requires Unpacks(bs, t) && t'.written == t.written
    ensures Unpacks(bs, t') <==> t'.nlflag == t.nlflag && t'.recfin == t.recfin
  {
    assert t.written == After(bs).written && t.nlflag == After(bs).nlflag && t.recfin == After(bs).recfin;
  }

  /** A damaged packet. */
  lemma DamagedFollows(blocks: seq<Block>, t: Sys, b: Sys, got: Packet)
    requires Follows(blocks, t, b) && t.fwd != [] && t.r.status == Receiving && 1 <= t.fwd[0] <= |blocks|
    requires DetectablyDamaged(Sent(blocks, t.fwd[0]).p, got)
    ensures var e := DeliverDamaged(got);
      Follows(blocks, Apply(blocks, t, e, true), Apply(blocks, b, e)) <==> !Spoils(blocks, t, e)
  {
    var t', b' := Apply(blocks, t, DeliverDamaged(got), true), Apply(blocks, b, DeliverDamaged(got));
    FlagsFixed(blocks[..|b.r.written|], t.r, t'.r);
  }

  /** An event does the same to both, unless it spoils the text. */
  lemma FollowsIff(blocks: seq<Block>, t: Sys, b: Sys, e: Step)
    requires Follows(blocks, t, b) && Apply(blocks, b, e).r.written <= blocks
    ensures Follows(blocks, Apply(blocks, t, e, true), Apply(blocks, b, e)) <==> !Spoils(blocks, t, e)
  {
    match e
    case Deliver =>
      if b.fwd != [] && b.r.status == Receiving && 1 <= b.fwd[0] <= |blocks| {
        SamePacket(blocks, t.r, b.r, b.fwd[0]);
      }
    case DeliverDamaged(got) =>
      if t.fwd != [] && t.r.status == Receiving && 1 <= t.fwd[0] <= |blocks|
         && DetectablyDamaged(Sent(blocks, t.fwd[0]).p, got) {
        DamagedFollows(blocks, t, b, got);
      }
    case _ =>
  }

  /** No event of the text run spoils it. */
  ghost predicate Unspoiled(blocks: seq<Block>, t: Sys, es: seq<Step>)
    decreases |es|
  {
    es == [] || (Unspoiled(blocks, t, es[..|es| - 1])
                 && !Spoils(blocks, Run(blocks, t, es[..|es| - 1], true), es[|es| - 1]))
  }

  lemma {:induction false} RunFollows(blocks: seq<Block>, t: Sys, b: Sys, es: seq<Step>)
    requires Follows(blocks, t, b) && Unspoiled(blocks, t, es) && Run(blocks, b, es).r.written <= blocks
    ensures Follows(blocks, Run(blocks, t, es, true), Run(blocks, b, es))
    decreases |es|
  {
    if es != [] {
      var init, e := es[..|es| - 1], es[|es| - 1];
      WrittenGrows(blocks, Run(blocks, b, init), e);
      RunFollows(blocks, t, b, init);
      FollowsIff(blocks, Run(blocks, t, init, true), Run(blocks, b, init), e);
    }
  }

  lemma StartFollows(blocks: seq<Block>)
    ensures Follows(blocks, Start, Start)
  {
    assert blocks[..0] == [];
  }

  lemma UnpackedText(bs: seq<Block>, t: RState)
    requires Unpacks(bs, t)
    ensures Concat(t.written) == Decode(bs, false, false)
  {
    ReceiveAllDecodes(RInit, bs, 0);
    assert t.written == After(bs).written;
    assert Concat([]) + Decode(bs, false, false) == Decode(bs, false, false);
  }

  /** In every run that is not spoiled, with at most 255 repeated deliveries or with blocks for which
      their number does not matter, the text written is that of the blocks received so far, unpacked
      once each. */
  lemma TextIsDecoded(blocks: seq<Block>, es: seq<Step>)
    requires (Run(blocks, Start, es).dups <= 255 || Repeats(blocks)) && Unspoiled(blocks, Start, es)
    ensures var t, b := Run(blocks, Start, es, true), Run(blocks, Start, es);
      t.s == b.s && t.r.status == b.r.status && |b.r.written| <= |blocks|
      && Concat(t.r.written) == Decode(blocks[..|b.r.written|], false, false)
  {
    if Repeats(blocks) { RunIsGood(blocks, es); } else { ReceivedIsPrefix(blocks, es); }
    StartFollows(blocks);
    RunFollows(blocks, Start, Start, es);
    var t, b := Run(blocks, Start, es, true), Run(blocks, Start, es);
    UnpackedText(blocks[..|b.r.written|], t.r);
  }

  // ------------------------------------------------------------ in rounds

  /** The round brings a packet that spoils the text. */
  ghost predicate SpoiledBy(blocks: seq<Block>, t: Sys, f: Fate) {
    && !Halted(t.s) && f.packet.Damaged? && PacketSteps(blocks, t, f.packet) == [DeliverDamaged(f.packet.got)]
    && Spoils(blocks, t, DeliverDamaged(f.packet.got))
  }

  ghost predicate NeverSpoiled(blocks: seq<Block>, fs: seq<Fate>)
    decreases |fs|
  {
    fs == [] || (NeverSpoiled(blocks, fs[..|fs| - 1])
                 && !SpoiledBy(blocks, Rounds(blocks, fs[..|fs| - 1], true), fs[|fs| - 1]))
  }

  lemma QuietSteps(blocks: seq<Block>, t: Sys, es: seq<Step>)
    requires |es| <= 2 && forall i :: 0 <= i < |es| ==> !es[i].DeliverDamaged?
    ensures Unspoiled(blocks, t, es)
  {
    if es != [] {
      assert Unspoiled(blocks, t, es[..|es| - 1]) by {
        if |es| == 2 { assert Unspoiled(blocks, t, es[..1][..0]); }
      }
    }
  }

  lemma PacketUnspoiled(blocks: seq<Block>, t: Sys, f: Fate)
    requires !Halted(t.s) && !SpoiledBy(blocks, t, f)
    ensures Unspoiled(blocks, t, PacketSteps(blocks, t, f.packet))
  {
    var es := PacketSteps(blocks, t, f.packet);
    if f.packet.Damaged? && es == [DeliverDamaged(f.packet.got)] {
      assert es[..0] == [];
      assert Unspoiled(blocks, t, es[..0]) && Run(blocks, t, es[..0], true) == t;
    } else {
      QuietSteps(blocks, t, es);
    }
  }

  lemma SameSteps(blocks: seq<Block>, t: Sys, b: Sys, f: Fate)
    requires Follows(blocks, t, b)
    ensures PacketSteps(blocks, t, f.packet) == PacketSteps(blocks, b, f.packet)
    ensures ReplySteps(t, f.reply) == ReplySteps(b, f.reply)
  {}

  lemma {:induction false} RunGrows(blocks: seq<Block>, z: Sys, es: seq<Step>)
    ensures z.r.written <= Run(blocks, z, es).r.written
    decreases |es|
  {
    if es != [] {
      RunGrows(blocks, z, es[..|es| - 1]);
      WrittenGrows(blocks, Run(blocks, z, es[..|es| - 1]), es[|es| - 1]);
    }
  }

  lemma RoundFollows(blocks: seq<Block>, t: Sys, b: Sys, f: Fate)
    requires Follows(blocks, t, b) && !SpoiledBy(blocks, t, f) && Round(blocks, b, f).r.written <= blocks
    ensures Follows(blocks, Round(blocks, t, f, true), Round(blocks, b, f))
  {
    if !Halted(b.s) {
      var mt, mb := Middle(blocks, t, f, true), Middle(blocks, b, f);
      SameSteps(blocks, t, b, f);
      PacketUnspoiled(blocks, t, f);
      RunGrows(blocks, mb, ReplySteps(mb, f.reply));
      RunFollows(blocks, t, b, PacketSteps(blocks, b, f.packet));
      SameSteps(blocks, mt, mb, f);
      QuietSteps(blocks, mt, ReplySteps(mt, f.reply));
      RunFollows(blocks, mt, mb, ReplySteps(mb, f.reply));
    }
  }

  lemma {:induction false} RoundsFollow(blocks: seq<Block>, fs: seq<Fate>)
    requires NeverSpoiled(blocks, fs)
    ensures Follows(blocks, Rounds(blocks, fs, true), Rounds(blocks, fs))
    decreases |fs|
  {
    if fs == [] {
      StartFollows(blocks);
    } else {
      var init, f := fs[..|fs| - 1], fs[|fs| - 1];
      RoundsFollow(blocks, init);
      NeverApart(blocks, fs);
      RoundFollows(blocks, Rounds(blocks, init, true), Rounds(blocks, init), f);
    }
  }

  /** Packets and responses lost or damaged, but no round spoiled: a text transfer that the sender takes
      for a success has delivered the file, exactly if it holds no Ctrl-Z. */
  lemma TextInRounds(c28: bool, file: seq<Byte>, stale: Block, fs: seq<Fate>)
    requires NeverSpoiled(FileBlocks(true, c28, file, stale), fs)
    requires Rounds(FileBlocks(true, c28, file, stale), fs, true).s.status == Succeeded
    ensures var z := Rounds(FileBlocks(true, c28, file, stale), fs, true);
      z.r.status == Complete && (Concat(z.r.written) == file <==> 26 !in file)
  {
    var blocks := FileBlocks(true, c28, file, stale);
    var t, b := Rounds(blocks, fs, true), Rounds(blocks, fs);
    RoundsFollow(blocks, fs);
    SuccessMeansComplete(blocks, fs);
    assert blocks[..|b.r.written|] == blocks;
    UnpackedText(blocks, t.r);
    TextRoundTrip(c28, file, stale);
  }

  /** Damage that shows in the header never spoils the text. */
  lemma {:induction false} HeadersSpoilNothing(blocks: seq<Block>, fs: seq<Fate>)
    requires forall i :: 0 <= i < |fs| && fs[i].packet.Damaged? ==> fs[i].packet.got.sect + fs[i].packet.got.comp != 255
    ensures NeverSpoiled(blocks, fs)
    decreases |fs|
  {
    if fs != [] { HeadersSpoilNothing(blocks, fs[..|fs| - 1]); }
  }

  // ------------------------------------------------------------ a damaged checksum

  /** A packet of Ctrl-Zs that comes with a wrong checksum in the place of block 1. */
  function AllCtrlZ(): (p: Packet) {
    var data: Readings := Times(BBUFSIZ, CTRLZ);
    Packet(1, 254, data, (Checksum(data) + 1) % 256)
  }

  lemma {:induction false} Shuts(recfin: bool, k: nat)
    requires k <= BBUFSIZ
    ensures UnpackText(Unpacked([], false, recfin), AllCtrlZ().data, k) == Unpacked([], false, recfin || k > 0)
    decreases k
  {
    if k > 0 { Shuts(recfin, k - 1); }
  }

  /** Once the end of the file has been seen nothing but held-back carriage returns comes out. */
  lemma {:induction false} StaysShut(data: Readings, k: nat)
    requires k <= BBUFSIZ && forall i :: 0 <= i < BBUFSIZ ==> data[i] != CR
    ensures UnpackText(Unpacked([], false, true), data, k) == Unpacked([], false, true)
    decreases k
  {
    if k > 0 { StaysShut(data, k - 1); }
  }

  /** The file of one letter, as a block. */
  function Letter(): (b: Block) { [65] + CtrlZs(BBUFSIZ - 1) }

  lemma LetterBlocks(c28: bool, stale: Block)
    ensures FileBlocks(true, c28, [65], stale) == [Letter()]
  {
    var f: seq<Byte> := [65];
    assert f[1..] == [] && Expand(f) == [65];
  }

  /** Its transfer, after k of four rounds, the second of which brings AllCtrlZ. */
  function Cut(k: nat): (z: Sys) {
    if k == 0 then Start
    else if k == 1 then Sys(SState(1, 1, Sending), RInit, [1], [], 0)
    else if k == 2 then Sys(SState(1, 2, Sending), RInit.(errors := 1, recfin := true), [1], [], 0)
    else if k == 3 then Sys(SState(2, 0, Ending), RInit.(sectnum := 1, recfin := true, written := [[]]), [2], [], 0)
    else
      var r := RInit.(sectnum := 1, recfin := true, written := [[]], status := Complete);
      Sys(SState(2, 0, Succeeded), r, [], [], 0)
  }

  const CUTTING := [Clean, Fate(Damaged(AllCtrlZ()), Heard), Clean, Clean]

  lemma DamagedLetter()
    ensures Receive(RInit, true, Soh(AllCtrlZ())) == (RInit.(errors := 1, recfin := true), [NAK])
  {
    Shuts(false, BBUFSIZ);
  }

  lemma LetterAgain()
    ensures Receive(RInit.(errors := 1, recfin := true), true, Soh(MakePacket(1, Letter())))
         == (RInit.(sectnum := 1, recfin := true, written := [[]]), [ACK])
  {
    StaysShut(Letter(), BBUFSIZ);
    Accepted(RInit.(errors := 1, recfin := true), 0, Letter());
    assert RInit.written + [[]] == [[]];
  }

  lemma CutFirst()
    ensures Round([Letter()], Cut(0), Clean, true) == Cut(1)
  {
    RunOne([Letter()], Start, SenderReads, true);
  }

  lemma CutDamaged()
    ensures Round([Letter()], Cut(1), Fate(Damaged(AllCtrlZ()), Heard), true) == Cut(2)
  {
    var blocks, f := [Letter()], Fate(Damaged(AllCtrlZ()), Heard);
    DamagedLetter();
    RunOne(blocks, Cut(1), DeliverDamaged(AllCtrlZ()), true);
    var m := Middle(blocks, Cut(1), f, true);
    assert m == Sys(SState(1, 1, Sending), RInit.(errors := 1, recfin := true), [], [NAK], 0);
    RunOne(blocks, m, SenderReads, true);
  }

  lemma CutRepeated()
    ensures Round([Letter()], Cut(2), Clean, true) == Cut(3)
  {
    var blocks := [Letter()];
    LetterAgain();
    RunOne(blocks, Cut(2), Deliver, true);
    var m := Middle(blocks, Cut(2), Clean, true);
    assert m == Sys(SState(1, 2, Sending), Cut(3).r, [], [ACK], 0);
    RunOne(blocks, m, SenderReads, true);
  }

  lemma CutEnd()
    ensures Round([Letter()], Cut(3), Clean, true) == Cut(4)
  {
    var blocks := [Letter()];
    RunOne(blocks, Cut(3), Deliver, true);
    var m := Middle(blocks, Cut(3), Clean, true);
    assert m == Sys(SState(2, 0, Ending), Cut(4).r, [], [ACK], 0);
    RunOne(blocks, m, SenderReads, true);
  }

  lemma {:induction false} CutOn(k: nat)
    requires k <= 4
    ensures Rounds([Letter()], CUTTING[..k], true) == Cut(k)
    decreases k
  {
    if k > 0 {
      CutOn(k - 1);
      assert CUTTING[..k][..k - 1] == CUTTING[..k - 1];
      if k == 1 { CutFirst(); } else if k == 2 { CutDamaged(); } else if k == 3 { CutRepeated(); } else { CutEnd(); }
    }
  }

  /** So one packet whose checksum is wrong can cut a text file short, though it is sent again and
      both sides end content: the file of one letter arrives empty. */
  lemma DamageCutsText(c28: bool, stale: Block)
    ensures var z := Rounds(FileBlocks(true, c28, [65], stale), CUTTING, true);
      z.s.status == Succeeded && z.r.status == Complete && Concat(z.r.written) == []
  {
    LetterBlocks(c28, stale);
    CutOn(4);
    assert CUTTING[..4] == CUTTING;
    assert Concat([[]]) == [] + Concat([[]][1..]);
  }
}
