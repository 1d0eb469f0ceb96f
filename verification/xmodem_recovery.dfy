/** Faults that a transfer gets over: how many errors the receiver forgives, which damage it notices,
    and a bound on faulty rounds with which every block still arrives. */
module XmodemRecovery {
  import opened Basics
  import opened Sequences
  import opened Xmodem
  import opened XmodemAsync
  import opened XmodemRounds

  // ------------------------------------------------------------ the checksum

  lemma SumLater(a: int, b: int, x: int, d: int)
    requires a == (b + d) % 256
    ensures (a + x) % 256 == ((b + x) % 256 + d) % 256
  {
    ModAdd(b + d, x);
    ModAdd(b + x, d);
  }

  lemma ModAdd(x: int, y: int)
    ensures (x % 256 + y) % 256 == (x + y) % 256
  {}

  lemma SumHere(a: int, x: int, y: int)
    ensures (a + x) % 256 == ((a + y) % 256 + x - y) % 256
  {}

  /** How far place i of one is from that of the other. */
  function Change(s: seq<Reading>, t: seq<Reading>, i: nat): (d: int)
    requires i < |s| == |t|
  {
    t[i] as int - s[i] as int
  }

  /** What changing one character does to the sum. */
  lemma {:induction false} ChangedSum(s: seq<Reading>, t: seq<Reading>, i: nat)
    requires OnlyAt(s, t, i)
    ensures Checksum(t) == (Checksum(s) + Change(s, t, i)) % 256
    decreases |s|
  {
    var n := |s| - 1;
    if i == n {
      assert t[..n] == s[..n];
      SumHere(Checksum(s[..n]), t[n], s[n]);
    } else {
      ChangedSum(s[..n], t[..n], i);
      SumLater(Checksum(t[..n]), Checksum(s[..n]), s[n], Change(s, t, i));
    }
  }

  /** The two differ at place i and nowhere else. */
  predicate OnlyAt(s: seq<Reading>, t: seq<Reading>, i: nat) {
    |s| == |t| && i < |s| && forall k :: 0 <= k < |s| && k != i ==> s[k] == t[k]
  }

  lemma SameModulo(a: Byte, b: Byte, x: int, y: int)
    requires a as int == (b + (x - y)) % 256
    ensures a == b <==> x % 256 == y % 256
  {}

  /** One character changed is noticed unless it is the same byte: the checksum takes a timeout for
      the byte 255, as does the buffer. */
  lemma {:induction false} OneChangeNoticedIff(s: seq<Reading>, t: seq<Reading>, i: nat)
    requires OnlyAt(s, t, i)
    ensures Checksum(t) == Checksum(s) <==> t[i] % 256 == s[i] % 256
  {
    ChangedSum(s, t, i);
    SameModulo(Checksum(t), Checksum(s), t[i], s[i]);
  }

  /** The packet differs from block n's in one byte. */
  ghost predicate OneByteWrong(p: Packet, got: Packet) {
    || (got == p.(sect := got.sect) && got.sect != p.sect)
    || (got == p.(comp := got.comp) && got.comp != p.comp)
    || (got == p.(check := got.check) && got.check != p.check)
    || (got == p.(data := got.data)
        && exists i: nat :: OnlyAt(p.data, got.data, i) && got.data[i] % 256 != p.data[i] % 256)
  }

  /** A packet with one wrong byte, wherever it is, is refused. */
  lemma {:induction false} OneByteDamage(n: nat, b: Block, got: Packet)
    requires OneByteWrong(MakePacket(n, b), got)
    ensures DetectablyDamaged(MakePacket(n, b), got)
  {
    HeaderAddsUp(n);
    if i: nat :| OnlyAt(b, got.data, i) && got.data[i] % 256 != b[i] % 256 {
      OneChangeNoticedIff(b, got.data, i);
    }
  }

  // ------------------------------------------------------------ the receiver's patience

  /** Nothing came, or the header does not add up, or it is the next block and the checksum is wrong. */
  predicate IsRefused(sectnum: Byte, ev: Incoming) {
    match ev
    case Silence => true
    case EndOfText => false
    case Soh(p) =>
      p.sect + p.comp != 255 || (p.sect == (sectnum + 1) % 256 && Checksum(p.data) != p.check)
  }

  predicate IsRepeated(sectnum: Byte, ev: Incoming) {
    ev.Soh? && ev.p.sect + ev.p.comp == 255 && ev.p.sect == sectnum
  }

  predicate IsAccepted(sectnum: Byte, ev: Incoming) {
    ev.Soh? && ev.p.sect + ev.p.comp == 255 && ev.p.sect == (sectnum + 1) % 256 && Checksum(ev.p.data) == ev.p.check
  }

  function Refusals(sectnum: Byte, evs: seq<Incoming>): (n: nat) {
    if evs == [] then 0
    else Refusals(sectnum, evs[..|evs| - 1]) + if IsRefused(sectnum, evs[|evs| - 1]) then 1 else 0
  }

  /** The receiver's loop over what comes; it ends when the status is no longer Receiving. */
  function Turns(r: RState, tmode: bool, evs: seq<Incoming>): (result: (RState, seq<Reading>)) {
    if evs == [] then (r, [])
    else
      var (q, sent) := Turns(r, tmode, evs[..|evs| - 1]);
      if q.status != Receiving then (q, sent)
      else var (q', more) := Receive(q, tmode, evs[|evs| - 1]); (q', sent + more)
  }

  /** The receiver after k refusals since its last accepted block. */
  predicate Patient(r: RState, q: RState, k: nat) {
    q.sectnum == r.sectnum && q.written == r.written
    && if k < 10 then q.status == Receiving && q.errors == k else q.status == TooManyErrors
  }

  lemma TurnOnce(r: RState, q: RState, tmode: bool, ev: Incoming, k: nat)
    requires Patient(r, q, k) && k < 10 && (IsRefused(r.sectnum, ev) || IsRepeated(r.sectnum, ev))
    ensures var (q', more) := Receive(q, tmode, ev);
      if IsRefused(r.sectnum, ev) then Patient(r, q', k + 1) && more == [NAK] else q' == q && more == [ACK]
  {}

  function Naks(sent: seq<Reading>): (n: nat) { multiset(sent)[NAK] }

  lemma NaksMore(sent: seq<Reading>, x: Reading)
    ensures Naks(sent + [x]) == Naks(sent) + if x == NAK then 1 else 0
  {}

  /** The receiver goes on as long as there are fewer than ten refusals, and refuses by NAK. */
  lemma {:induction false} TurnsAre(r: RState, tmode: bool, evs: seq<Incoming>)
    requires r.status == Receiving && r.errors == 0
    requires forall i :: 0 <= i < |evs| ==> IsRefused(r.sectnum, evs[i]) || IsRepeated(r.sectnum, evs[i])
    ensures var (q, sent) := Turns(r, tmode, evs); var k := Refusals(r.sectnum, evs);
      Patient(r, q, k) && Naks(sent) == if k < 10 then k else 10
    decreases |evs|
  {
    if evs != [] {
      var ev, before := evs[|evs| - 1], evs[..|evs| - 1];
      TurnsAre(r, tmode, before);
      var (q, sent) := Turns(r, tmode, before);
      if q.status == Receiving {
        TurnOnce(r, q, tmode, ev, Refusals(r.sectnum, before));
        NaksMore(sent, if IsRefused(r.sectnum, ev) then NAK else ACK);
      }
    }
  }

  /** After a block has been accepted the receiver forgives nine errors, the tenth ends it.  Blocks
      that are repeated in between count for nothing. */
  lemma {:induction false} NineErrorsForgiven(r: RState, tmode: bool, ev: Incoming, evs: seq<Incoming>)
    requires r.status == Receiving && IsAccepted(r.sectnum, ev)
    requires var n := (r.sectnum + 1) % 256;
      forall i :: 0 <= i < |evs| ==> IsRefused(n, evs[i]) || IsRepeated(n, evs[i])
    ensures var r' := Receive(r, tmode, ev).0;
      var (q, sent) := Turns(r', tmode, evs); var k := Refusals((r.sectnum + 1) % 256, evs);
      && (q.status == Receiving <==> k < 10)
      && (k < 10 ==> Naks(sent) == k)
      && |r'.written| == |r.written| + 1 && q.written == r'.written
  {
    TurnsAre(Receive(r, tmode, ev).0, tmode, evs);
  }

  // ------------------------------------------------------------ faulty rounds

  predicate IsClean(f: Fate) { f.packet.Arrives? && f.reply.Heard? }

  function Faults(fs: seq<Fate>): (n: nat)
    ensures n <= |fs|
  {
    if fs == [] then 0 else Faults(fs[..|fs| - 1]) + if IsClean(fs[|fs| - 1]) then 0 else 1
  }

  /** No response turns into a CAN on its way. */
  predicate NoCancel(fs: seq<Fate>) {
    forall i :: 0 <= i < |fs| ==> (fs[i].reply.Garbled? ==> fs[i].reply.x != CAN)
  }

  /** The receiver will time out before the sender says anything. */
  function Due(z: Sys): (n: nat) { if z.s.status == Syncing && z.back == [] then 1 else 0 }

  /** After c clean rounds and b others: the receiver is complete, or both go on, with at most b errors
      on either side since their last success, and every clean round was a step forward. */
  ghost predicate GoesOn(blocks: seq<Block>, z: Sys, b: nat, c: nat) {
    && RoundInv(blocks, z)
    && (z.r.status == Complete ||
        (&& z.r.status == Receiving && z.r.errors + Due(z) <= b
         && match z.s.status
            case Syncing => c == 0 && z.s.attempts <= b
            case Sending => c <= z.s.n && z.s.attempts <= b + 1
            case Ending => c <= z.s.n && z.s.attempts <= b
            case _ => false))
  }

  /** Half way through the round: a response is under way, and it is an acknowledgement if the packet
      arrived. */
  ghost predicate HalfWay(blocks: seq<Block>, z: Sys, m: Sys, f: Fate, b: nat) {
    && m.s == z.s && MidInv(blocks, m) && |m.back| == 1
    && (m.r.status == Complete ||
        (&& m.r.status == Receiving && m.r.errors <= b + (if IsClean(f) then 0 else 1)
         && (z.s.status == Syncing ==> m.back == [NAK] && m.r.errors <= b)
         && (z.s.status != Syncing && IsClean(f) ==> m.back == [ACK] && z.s.status == Sending)))
  }

  lemma TimeoutHalf(blocks: seq<Block>, z: Sys, b: nat, c: nat)
    requires GoesOn(blocks, z, b, c) && b <= 8 && z.r.status == Receiving && z.s.status == Syncing
    ensures var m := if z.back != [] then z else Apply(blocks, z, ReceiverTimesOut);
      m.s == z.s && m.r.status == Receiving && m.back == [NAK] && m.r.errors <= b
  {}

  lemma SilentHalf(blocks: seq<Block>, z: Sys, b: nat, c: nat)
    requires GoesOn(blocks, z, b, c) && b <= 8 && z.r.status == Receiving && z.s.status != Syncing
    ensures var m := Apply(blocks, z.(fwd := []), ReceiverTimesOut);
      m.s == z.s && m.r.status == Receiving && m.back == [NAK] && m.r.errors <= b + 1
  {}

  lemma RefusedHalf(blocks: seq<Block>, z: Sys, b: nat, c: nat, got: Packet)
    requires GoesOn(blocks, z, b, c) && b <= 8 && z.r.status == Receiving && z.s.status != Syncing
    requires z.fwd[0] <= |blocks| && DetectablyDamaged(Sent(blocks, z.fwd[0]).p, got)
    ensures var m := Apply(blocks, z, DeliverDamaged(got));
      m.s == z.s && m.r.status == Receiving && |m.back| == 1 && m.r.errors <= b + 1
  {
    EitherNumber(blocks, z);
  }

  lemma ArrivedHalf(blocks: seq<Block>, z: Sys, b: nat, c: nat)
    requires GoesOn(blocks, z, b, c) && b <= 8 && z.r.status == Receiving && z.s.status != Syncing
    ensures var m := Apply(blocks, z, Deliver);
      m.s == z.s && m.back == [ACK]
      && (m.r.status == Complete || (m.r.status == Receiving && m.r.errors <= b && z.s.status == Sending))
  {
    EitherNumber(blocks, z);
    if z.fwd[0] <= |blocks| { DeliverIntact(blocks, z); }
  }

  lemma RoundHalf(blocks: seq<Block>, z: Sys, f: Fate, b: nat, c: nat)
    requires GoesOn(blocks, z, b, c) && b <= 8 && z.r.status == Receiving
    ensures HalfWay(blocks, z, Middle(blocks, z, f), f, b)
  {
    PacketHalf(blocks, z, f);
    if z.s.status == Syncing {
      RunOne(blocks, z, ReceiverTimesOut);
      TimeoutHalf(blocks, z, b, c);
    } else {
      match f.packet
      case Arrives =>
        RunOne(blocks, z, Deliver);
        ArrivedHalf(blocks, z, b, c);
      case Lost =>
        RunTwo(blocks, z, LosePacket(0), ReceiverTimesOut);
        SilentHalf(blocks, z, b, c);
      case Damaged(got) =>
        RunOne(blocks, z, Deliver);
        RunOne(blocks, z, DeliverDamaged(got));
        if z.fwd[0] <= |blocks| && DetectablyDamaged(Sent(blocks, z.fwd[0]).p, got) {
          RefusedHalf(blocks, z, b, c, got);
        } else {
          ArrivedHalf(blocks, z, b, c);
        }
    }
  }

  /** What the sender takes from the round. */
  lemma ReplyIs(blocks: seq<Block>, m: Sys, fate: ReplyFate) returns (x: Reading)
    requires MidInv(blocks, m) && !Halted(m.s) && |m.back| == 1 && (fate.Garbled? ==> fate.x != CAN)
    ensures Run(blocks, m, ReplySteps(m, fate)) == SenderHears(m.(back := []), |blocks|, x)
    ensures x != CAN && (x == ACK ==> Acked(m)) && (fate.Heard? ==> m.back == [x])
  {
    assert m.back[1..] == [];
    match fate
    case Heard =>
      RunOne(blocks, m, SenderReads);
      x := m.back[0];
    case Missed =>
      RunTwo(blocks, m, LoseReply(0), SenderTimesOut);
      assert Apply(blocks, m, LoseReply(0)) == m.(back := []);
      x := TIMEOUT;
    case Garbled(y) =>
      RunTwo(blocks, m, GarbleReply(0, y), SenderReads);
      x := if y == ACK then m.back[0] else y;
      assert Apply(blocks, m, GarbleReply(0, y)) == m.(back := [x]);
      assert [x][1..] == [];
  }

  lemma SenderGoesOn(blocks: seq<Block>, z: Sys, m: Sys, f: Fate, b: nat, c: nat, x: Reading)
    requires GoesOn(blocks, z, b, c) && z.r.status == Receiving && HalfWay(blocks, z, m, f, b)
    requires b + (if IsClean(f) then 0 else 1) <= 8
    requires x != CAN && (x == ACK ==> Acked(m)) && (f.reply.Heard? ==> m.back == [x])
    ensures var z' := SenderHears(m.(back := []), |blocks|, x);
      GoesOn(blocks, z', b + (if IsClean(f) then 0 else 1), c + if IsClean(f) then 1 else 0)
  {
    SenderMovesOn(blocks, m, x);
  }

  lemma RoundComplete(blocks: seq<Block>, z: Sys, f: Fate)
    requires RoundInv(blocks, z) && z.r.status == Complete && !Halted(z.s)
    ensures Round(blocks, z, f).r == z.r
  {
    var m := Middle(blocks, z, f);
    RunOne(blocks, z, ReceiverTimesOut);
    RunOne(blocks, z, LosePacket(0));
    PacketHalf(blocks, z, f);
    assert m.r == z.r;
    ReplyHalf(blocks, m, f.reply);
  }

  lemma RoundGoesOn(blocks: seq<Block>, z: Sys, f: Fate, b: nat, c: nat)
    requires GoesOn(blocks, z, b, c) && b + (if IsClean(f) then 0 else 1) <= 8
    requires f.reply.Garbled? ==> f.reply.x != CAN
    ensures GoesOn(blocks, Round(blocks, z, f), b + (if IsClean(f) then 0 else 1), c + if IsClean(f) then 1 else 0)
  {
    if z.r.status == Receiving {
      RoundHalf(blocks, z, f, b, c);
      var m := Middle(blocks, z, f);
      var x := ReplyIs(blocks, m, f.reply);
      SenderGoesOn(blocks, z, m, f, b, c, x);
    } else if !Halted(z.s) {
      RoundKeepsInv(blocks, z, f);
      RoundComplete(blocks, z, f);
    }
  }

  lemma {:induction false} RoundsGoOn(blocks: seq<Block>, fs: seq<Fate>)
    requires Faults(fs) <= 8 && NoCancel(fs)
    ensures GoesOn(blocks, Rounds(blocks, fs), Faults(fs), |fs| - Faults(fs))
    decreases |fs|
  {
    if fs != [] {
      var before := fs[..|fs| - 1];
      RoundsGoOn(blocks, before);
      RoundGoesOn(blocks, Rounds(blocks, before), fs[|fs| - 1], Faults(before), |before| - Faults(before));
    }
  }

  /** A transfer gets over any eight faults: packets lost or noticeably damaged, responses lost or turned
      into anything but CAN.  After nine rounds more than there are blocks every block has been written,
      after ten the receiver has finished. */
  lemma EightFaultsForgiven(blocks: seq<Block>, fs: seq<Fate>)
    requires Faults(fs) <= 8 && NoCancel(fs) && |fs| >= |blocks| + 9
    ensures var z := Rounds(blocks, fs);
      z.r.written == blocks && (|fs| >= |blocks| + 10 ==> z.r.status == Complete)
  {
    RoundsGoOn(blocks, fs);
  }

  // ------------------------------------------------------------ the ninth

  const Faulty := Fate(Lost, Heard)

  /** The first block has been sent j + 1 times and lost j times. */
  function Losing(j: nat): (z: Sys) {
    Sys(SState(1, j + 1, Sending), RInit.(errors := j), [1], [], 0)
  }

  lemma LosingHalf(blocks: seq<Block>, j: nat)
    requires blocks != [] && j < 9
    ensures Middle(blocks, Losing(j), Faulty) == Sys(SState(1, j + 1, Sending), RInit.(errors := j + 1), [], [NAK], 0)
  {
    var z := Losing(j);
    RunTwo(blocks, z, LosePacket(0), ReceiverTimesOut);
    assert Remove([1], 0) == [];
    assert Apply(blocks, z, LosePacket(0)) == z.(fwd := []);
  }

  lemma LosingReply(blocks: seq<Block>, j: nat, m: Sys)
    requires blocks != [] && j < 9
    requires m == Sys(SState(1, j + 1, Sending), RInit.(errors := j + 1), [], [NAK], 0)
    ensures Run(blocks, m, ReplySteps(m, Heard)) == Losing(j + 1)
  {
    RunOne(blocks, m, SenderReads);
    assert [NAK][1..] == [];
  }

  lemma LosingRound(blocks: seq<Block>, j: nat)
    requires blocks != [] && j < 9
    ensures Round(blocks, Losing(j), Faulty) == Losing(j + 1)
  {
    LosingHalf(blocks, j);
    LosingReply(blocks, j, Middle(blocks, Losing(j), Faulty));
  }

  lemma {:induction false} LosingRounds(blocks: seq<Block>, j: nat)
    requires blocks != [] && j <= 9
    ensures Rounds(blocks, [Clean] + Times(j, Faulty)) == Losing(j)
    decreases j
  {
    var fs := [Clean] + Times(j, Faulty);
    if j == 0 {
      assert fs == [Clean] && fs[..0] == [];
      RunOne(blocks, Start, SenderReads);
      assert [NAK][1..] == [];
    } else {
      assert fs[..j] == [Clean] + Times(j - 1, Faulty);
      LosingRounds(blocks, j - 1);
      LosingRound(blocks, j - 1);
    }
  }

  /** Nine faults in a row are one too many: the block arrives, and the sender has given up. */
  lemma NinthFaultFails(blocks: seq<Block>)
    requires blocks != []
    ensures var fs := [Clean] + Times(9, Faulty) + [Clean];
      Faults(fs) == 9 && Rounds(blocks, fs).s.status == Failed && |Rounds(blocks, fs).r.written| == 1
  {
    var fs := [Clean] + Times(9, Faulty) + [Clean];
    var z := Losing(9);
    assert fs[..10] == [Clean] + Times(9, Faulty);
    LosingRounds(blocks, 9);
    FaultsTimes(9);
    RunOne(blocks, z, Deliver);
    DeliverIntact(blocks, z);
    var m := Middle(blocks, z, Clean);
    assert m.back == [ACK] && m.s == z.s;
    RunOne(blocks, m, SenderReads);
  }

  lemma {:induction false} FaultsTimes(j: nat)
    ensures Faults([Clean] + Times(j, Faulty)) == j
    decreases j
  {
    var fs := [Clean] + Times(j, Faulty);
    if j == 0 { assert fs == [Clean] && fs[..0] == []; } else {
      assert fs[..j] == [Clean] + Times(j - 1, Faulty);
      FaultsTimes(j - 1);
    }
  }

  // ------------------------------------------------------------ the last response

  /** A round in which the sender says that the file ends is a success exactly when the receiver has
      been waiting for it, hears it, and its one response is heard. */
  lemma EndRoundIff(blocks: seq<Block>, z: Sys, f: Fate)
    requires RoundInv(blocks, z) && z.s.status == Ending
    ensures Round(blocks, z, f).s.status == Succeeded
      <==> z.r.status == Receiving && !f.packet.Lost? && z.s.attempts < RETRYMAX
           && (f.reply.Heard? || f.reply == Garbled(ACK))
  {
    var m := Middle(blocks, z, f);
    RunOne(blocks, z, Deliver);
    RunOne(blocks, z, LosePacket(0));
    if f.packet.Lost? { RunTwo(blocks, z, LosePacket(0), ReceiverTimesOut); }
    PacketHalf(blocks, z, f);
    if m.back == [] {
      RunOne(blocks, m, SenderTimesOut);
    } else {
      EndReply(blocks, m, f.reply);
    }
  }

  lemma EndReply(blocks: seq<Block>, m: Sys, fate: ReplyFate)
    requires m.s.status == Ending && |m.back| == 1
    ensures Run(blocks, m, ReplySteps(m, fate)).s.status == Succeeded
      <==> m.back == [ACK] && m.s.attempts < RETRYMAX && (fate.Heard? || fate == Garbled(ACK))
  {
    match fate
    case Heard => RunOne(blocks, m, SenderReads);
    case Missed => RunTwo(blocks, m, LoseReply(0), SenderTimesOut);
    case Garbled(y) => RunTwo(blocks, m, GarbleReply(0, y), SenderReads);
  }

  /** So if that response is lost the sender can only fail, though the receiver has everything. */
  lemma {:induction false} LastReplyLost(blocks: seq<Block>, fs: seq<Fate>, k: nat)
    requires k <= |fs| && Rounds(blocks, fs[..k]).r.status == Complete
    requires Rounds(blocks, fs[..k]).s.status != Succeeded
    ensures Rounds(blocks, fs).s.status != Succeeded && Rounds(blocks, fs).r.status == Complete
    decreases |fs|
  {
    if k == |fs| {
      assert fs[..k] == fs;
    } else {
      var before := fs[..|fs| - 1];
      assert before[..k] == fs[..k];
      LastReplyLost(blocks, before, k);
      RoundsKeepInv(blocks, before);
      var z := Rounds(blocks, before);
      if !Halted(z.s) {
        RoundComplete(blocks, z, fs[|fs| - 1]);
        if z.s.status == Ending { EndRoundIff(blocks, z, fs[|fs| - 1]); } else {
          NotYetEnding(blocks, z, fs[|fs| - 1]);
        }
      }
    }
  }

  lemma NotYetEnding(blocks: seq<Block>, z: Sys, f: Fate)
    requires RoundInv(blocks, z) && !Halted(z.s) && z.s.status != Ending
    ensures Round(blocks, z, f).s.status != Succeeded
  {
    PacketHalf(blocks, z, f);
    ReplyHalf(blocks, Middle(blocks, z, f), f.reply);
  }

  // ------------------------------------------------------------ on the wire

  /** What the receiver answers, in bytes: ACK is 6, NAK 21, CAN 24. */
  lemma AnswersOnTheWire(r: RState, tmode: bool, n: nat, b: Block)
    requires r.status == Receiving && r.errors < 10
    ensures Receive(r, tmode, Silence).1 == [21] && Receive(r, tmode, EndOfText).1 == [6]
    ensures Receive(r, tmode, Soh(MakePacket(n, b))).1 ==
      if n % 256 == (r.sectnum + 1) % 256 || n % 256 == r.sectnum then [6] else [24, 21]
  {
    HeaderAddsUp(n);
  }

  /** What the sender makes of a byte in the middle of a file of total blocks. */
  lemma HeardOnTheWire(n: nat, attempts: nat, total: nat, x: Reading)
    requires 1 <= n < total && 1 <= attempts < 10
    ensures var (s, sent) := Hear(SState(n, attempts, Sending), total, x);
      if x == 6 then s == SState(n + 1, 1, Sending) && sent == [n + 1]
      else if x == 24 then s.status == Failed && sent == []
      else s == SState(n, attempts + 1, Sending) && sent == [n]
  {}

  /** A packet: the number modulo 256, its complement, 128 bytes, and their sum modulo 256. */
  lemma PacketOnTheWire(n: nat, b: Block)
    ensures var p := MakePacket(n, b);
      p.sect == n % 256 && p.sect + p.comp == 255 && p.data == b && |b| == 128 && p.check == SumOf(b) % 256
  {
    HeaderAddsUp(n);
    SumIs(b);
  }

  function SumOf(b: seq<Byte>): (n: nat) { if b == [] then 0 else SumOf(b[1..]) + b[0] }

  lemma {:induction false} SumLast(b: seq<Byte>)
    requires b != []
    ensures SumOf(b) == SumOf(b[..|b| - 1]) + b[|b| - 1]
    decreases |b|
  {
    if |b| > 1 {
      SumLast(b[1..]);
      assert b[1..][..|b| - 2] == b[..|b| - 1][1..];
    }
  }

  lemma {:induction false} SumIs(b: seq<Byte>)
    ensures Checksum(b) == SumOf(b) % 256
    decreases |b|
  {
    if b != [] {
      SumIs(b[..|b| - 1]);
      SumLast(b);
      ModAdd(SumOf(b[..|b| - 1]), b[|b| - 1]);
    }
  }
}
