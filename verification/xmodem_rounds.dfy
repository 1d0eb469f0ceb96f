/** A transfer in rounds, binary where nothing else is said: every attempt of the sender is answered, or not,
    before the next one begins. */
module XmodemRounds {
  import opened Sequences
  import opened Xmodem
  import opened XmodemAsync

  datatype PacketFate = Arrives | Lost | Damaged(got: Packet)
  datatype ReplyFate = Heard | Missed | Garbled(x: Reading)
  datatype Fate = Fate(packet: PacketFate, reply: ReplyFate)

  /** The receiver's half of a round: it gets what was sent, or times out and sends NAK. */
  function PacketSteps(blocks: seq<Block>, z: Sys, fate: PacketFate): (r: seq<Step>) {
    if z.back != [] then []
    else if z.fwd == [] then [ReceiverTimesOut]
    else if z.r.status != Receiving then [LosePacket(0)]
    else match fate
      case Arrives => [Deliver]
      case Lost => [LosePacket(0), ReceiverTimesOut]
      case Damaged(got) =>
        if 1 <= z.fwd[0] <= |blocks| && DetectablyDamaged(Sent(blocks, z.fwd[0]).p, got) then [DeliverDamaged(got)]
        else [Deliver]
  }

  /** The sender's half: it hears the response, or something else, or nothing. */
  function ReplySteps(z: Sys, fate: ReplyFate): (r: seq<Step>) {
    if z.back == [] then [SenderTimesOut]
    else match fate
      case Heard => [SenderReads]
      case Missed => [LoseReply(0), SenderTimesOut]
      case Garbled(x) => [GarbleReply(0, x), SenderReads]
  }

  function Middle(blocks: seq<Block>, z: Sys, f: Fate, tmode: bool := false): (r: Sys) {
    Run(blocks, z, PacketSteps(blocks, z, f.packet), tmode)
  }

  /** One attempt, as a short run of the asynchronous system. */
  function Round(blocks: seq<Block>, z: Sys, f: Fate, tmode: bool := false): (r: Sys) {
    if Halted(z.s) then z
    else var m := Middle(blocks, z, f, tmode); Run(blocks, m, ReplySteps(m, f.reply), tmode)
  }

  function Rounds(blocks: seq<Block>, fs: seq<Fate>, tmode: bool := false): (r: Sys) {
    if fs == [] then Start else Round(blocks, Rounds(blocks, fs[..|fs| - 1], tmode), fs[|fs| - 1], tmode)
  }

  /** What holds of the receiver, and how far the two sides are apart. */
  ghost predicate InStep(blocks: seq<Block>, z: Sys) {
    var r := |z.r.written|;
    && 1 <= z.s.n <= |blocks| + 1
    && z.s.n - 1 <= r <= z.s.n && r <= |blocks|
    && z.r.written == blocks[..r] && z.r.sectnum == r % 256
    && z.r.status != FatalError
    && (z.r.status == Receiving ==> z.r.errors < ERRORMAX)
    && (z.r.status == Complete ==> z.s.n == |blocks| + 1)
    && z.s.attempts <= if z.s.status == Sending then RETRYMAX else RETRYMAX + 1
  }

  predicate AtMostOne(back: seq<Reading>) {
    |back| <= 1 && (back != [] ==> back[0] == ACK || back[0] == NAK)
  }

  predicate Acked(z: Sys) { z.back != [] && z.back[0] == ACK }

  ghost predicate RoundInv(blocks: seq<Block>, z: Sys) {
    && InStep(blocks, z)
    && match z.s.status
       case Syncing =>
         z.s.n == 1 && z.fwd == [] && AtMostOne(z.back) && !Acked(z) && z.r.written == [] && z.s.attempts <= RETRYMAX
       case Sending => z.fwd == [z.s.n] && z.back == [] && z.s.n <= |blocks| && 1 <= z.s.attempts
       case Ending => z.fwd == [z.s.n] && z.back == [] && z.s.n == |blocks| + 1 && z.s.attempts <= RETRYMAX
       case Succeeded => z.s.n == |blocks| + 1 && z.r.status == Complete
       case Failed => true
  }

  /** After the receiver's half nothing is on the forward line, and an
      acknowledgement means that the receiver has what was sent. */
  ghost predicate MidInv(blocks: seq<Block>, z: Sys) {
    && InStep(blocks, z) && z.fwd == [] && AtMostOne(z.back)
    && (z.s.status == Syncing ==> !Acked(z) && z.r.written == [])
    && (Acked(z) ==>
          if z.s.n == |blocks| + 1 then z.r.status == Complete else |z.r.written| == z.s.n)
  }

  lemma RunOne(blocks: seq<Block>, z: Sys, e: Step, tmode: bool := false)
    ensures Run(blocks, z, [e], tmode) == Apply(blocks, z, e, tmode)
  {
    assert [e][..0] == [];
  }

  lemma RunTwo(blocks: seq<Block>, z: Sys, e: Step, e': Step)
    ensures Run(blocks, z, [e, e']) == Apply(blocks, Apply(blocks, z, e), e')
  {
    assert [e, e'][..1] == [e];
    RunOne(blocks, z, e);
  }

  /** Of the two numbers that can be on the line, the receiver tells the new one from the old. */
  lemma EitherNumber(blocks: seq<Block>, z: Sys)
    requires RoundInv(blocks, z) && z.fwd != [] && !Halted(z.s)
    ensures var k, r := z.fwd[0], |z.r.written|;
      && k == z.s.n && (k == r + 1 || k == r)
      && (k % 256 == (z.r.sectnum + 1) % 256 <==> k == r + 1)
      && (k % 256 == z.r.sectnum <==> k == r)
  {}

  lemma IntactInRound(blocks: seq<Block>, z: Sys)
    requires RoundInv(blocks, z) && z.fwd != [] && z.r.status == Receiving && !Halted(z.s)
    ensures var m := Apply(blocks, z, Deliver); m.s == z.s && MidInv(blocks, m)
  {
    EitherNumber(blocks, z);
    if z.fwd[0] <= |blocks| {
      DeliverIntact(blocks, z);
      var r := |z.r.written|;
      if z.fwd[0] == r + 1 { assert blocks[..r] + [blocks[r]] == blocks[..r + 1]; }
    }
  }

  lemma DamagedInRound(blocks: seq<Block>, z: Sys, got: Packet)
    requires RoundInv(blocks, z) && z.r.status == Receiving && !Halted(z.s)
    requires z.fwd != [] && z.fwd[0] <= |blocks| && DetectablyDamaged(Sent(blocks, z.fwd[0]).p, got)
    ensures var m := Apply(blocks, z, DeliverDamaged(got)); m.s == z.s && MidInv(blocks, m)
  {
    EitherNumber(blocks, z);
  }

  lemma LostInRound(blocks: seq<Block>, z: Sys)
    requires RoundInv(blocks, z) && z.back == [] && z.r.status == Receiving && !Halted(z.s)
    ensures var m := Apply(blocks, z.(fwd := []), ReceiverTimesOut); m.s == z.s && MidInv(blocks, m)
  {}

  lemma PacketHalf(blocks: seq<Block>, z: Sys, f: Fate)
    requires RoundInv(blocks, z) && !Halted(z.s)
    ensures var m := Middle(blocks, z, f); m.s == z.s && MidInv(blocks, m)
  {
    if z.back == [] {
      if z.fwd == [] {
        RunOne(blocks, z, ReceiverTimesOut);
        if z.r.status == Receiving { LostInRound(blocks, z); }
      } else if z.r.status != Receiving {
        RunOne(blocks, z, LosePacket(0));
      } else {
        match f.packet
        case Arrives =>
          RunOne(blocks, z, Deliver);
          IntactInRound(blocks, z);
        case Lost =>
          RunTwo(blocks, z, LosePacket(0), ReceiverTimesOut);
          LostInRound(blocks, z);
        case Damaged(got) =>
          RunOne(blocks, z, Deliver);
          RunOne(blocks, z, DeliverDamaged(got));
          if z.fwd[0] <= |blocks| && DetectablyDamaged(Sent(blocks, z.fwd[0]).p, got) {
            DamagedInRound(blocks, z, got);
          } else {
            IntactInRound(blocks, z);
          }
      }
    }
  }

  /** What the sender takes from a round: the response, something that is no
      acknowledgement, or a timeout. */
  lemma ReplyHalf(blocks: seq<Block>, m: Sys, fate: ReplyFate)
    requires MidInv(blocks, m) && !Halted(m.s)
    ensures exists x: Reading :: (x == ACK ==> Acked(m))
              && Run(blocks, m, ReplySteps(m, fate)) == SenderHears(m.(back := []), |blocks|, x)
  {
    var z' := Run(blocks, m, ReplySteps(m, fate));
    if m.back == [] {
      RunOne(blocks, m, SenderTimesOut);
      assert z' == SenderHears(m.(back := []), |blocks|, TIMEOUT);
    } else {
      assert m.back[1..] == [];
      match fate
      case Heard =>
        RunOne(blocks, m, SenderReads);
        assert z' == SenderHears(m.(back := []), |blocks|, m.back[0]);
      case Missed =>
        RunTwo(blocks, m, LoseReply(0), SenderTimesOut);
        assert Apply(blocks, m, LoseReply(0)) == m.(back := []);
        assert z' == SenderHears(m.(back := []), |blocks|, TIMEOUT);
      case Garbled(x) =>
        RunTwo(blocks, m, GarbleReply(0, x), SenderReads);
        var y := if x == ACK then m.back[0] else x;
        assert Apply(blocks, m, GarbleReply(0, x)) == m.(back := [y]);
        assert [y][1..] == [];
        assert z' == SenderHears(m.(back := []), |blocks|, y);
    }
  }

  /** A count that goes up in every round until the sender stops. */
  function Progress(total: nat, s: SState): (r: int) {
    match s.status
    case Syncing => s.attempts
    case Sending => RETRYMAX * s.n + s.attempts
    case _ => RETRYMAX * (total + 1) + 1 + s.attempts
  }

  lemma SenderMovesOn(blocks: seq<Block>, m: Sys, x: Reading)
    requires MidInv(blocks, m) && !Halted(m.s) && (x == ACK ==> Acked(m))
    requires m.s.status == Syncing ==> m.s.attempts <= RETRYMAX && m.s.n == 1 && m.r.written == []
    requires m.s.status == Sending ==> 1 <= m.s.attempts <= RETRYMAX && m.s.n <= |blocks|
    requires m.s.status == Ending ==> m.s.n == |blocks| + 1 && m.s.attempts <= RETRYMAX
    ensures var z' := SenderHears(m.(back := []), |blocks|, x);
      RoundInv(blocks, z') && (Halted(z'.s) || Progress(|blocks|, z'.s) > Progress(|blocks|, m.s))
  {}

  lemma RoundKeepsInv(blocks: seq<Block>, z: Sys, f: Fate)
    requires RoundInv(blocks, z) && !Halted(z.s)
    ensures var z' := Round(blocks, z, f);
      RoundInv(blocks, z') && (Halted(z'.s) || Progress(|blocks|, z'.s) > Progress(|blocks|, z.s))
  {
    PacketHalf(blocks, z, f);
    var m := Middle(blocks, z, f);
    ReplyHalf(blocks, m, f.reply);
    var x: Reading :| (x == ACK ==> Acked(m))
              && Run(blocks, m, ReplySteps(m, f.reply)) == SenderHears(m.(back := []), |blocks|, x);
    SenderMovesOn(blocks, m, x);
  }

  lemma {:induction false} RoundsKeepInv(blocks: seq<Block>, fs: seq<Fate>)
    ensures var z := Rounds(blocks, fs);
      RoundInv(blocks, z) && (Halted(z.s) || Progress(|blocks|, z.s) >= |fs|)
  {
    if fs != [] {
      RoundsKeepInv(blocks, fs[..|fs| - 1]);
      var z := Rounds(blocks, fs[..|fs| - 1]);
      if !Halted(z.s) { RoundKeepsInv(blocks, z, fs[|fs| - 1]); }
    }
  }

  // ------------------------------------------------------------ the results

  /** Whatever happens to packets and responses, the two sides are never more than one
      block apart, every block is written once and in order, the receiver never cancels,
      and no block is sent more than RETRYMAX times. */
  lemma NeverApart(blocks: seq<Block>, fs: seq<Fate>)
    ensures var z := Rounds(blocks, fs);
      && z.r.written <= blocks
      && z.s.n - 1 <= |z.r.written| <= z.s.n
      && z.r.status != FatalError
      && (z.s.status == Sending ==> 1 <= z.s.attempts <= RETRYMAX)
  {
    RoundsKeepInv(blocks, fs);
  }

  lemma SuccessMeansComplete(blocks: seq<Block>, fs: seq<Fate>)
    requires Rounds(blocks, fs).s.status == Succeeded
    ensures var z := Rounds(blocks, fs); z.r.written == blocks && z.r.status == Complete
  {
    RoundsKeepInv(blocks, fs);
  }

  lemma EveryTransferEnds(blocks: seq<Block>, fs: seq<Fate>)
    requires |fs| >= RETRYMAX * |blocks| + 22
    ensures Halted(Rounds(blocks, fs).s)
  {
    RoundsKeepInv(blocks, fs);
  }

  const Clean := Fate(Arrives, Heard)

  /** What a clean line shows after j rounds. */
  ghost function CleanAfter(blocks: seq<Block>, j: nat): (r: Sys)
    requires 1 <= j <= |blocks| + 1
  {
    Sys(Present(j, |blocks|).0, RInit.(sectnum := (j - 1) % 256, written := blocks[..j - 1]), [j], [], 0)
  }

  lemma CleanRound(blocks: seq<Block>, j: nat)
    requires 1 <= j <= |blocks|
    ensures Round(blocks, CleanAfter(blocks, j), Clean) == CleanAfter(blocks, j + 1)
  {
    var z := CleanAfter(blocks, j);
    RunOne(blocks, z, Deliver);
    DeliverIntact(blocks, z);
    var m := Middle(blocks, z, Clean);
    assert j % 256 == ((j - 1) % 256 + 1) % 256;
    assert m == Sys(z.s, z.r.(sectnum := j % 256, written := blocks[..j]), [], [ACK], 0) by {
      assert blocks[..j - 1] + [blocks[j - 1]] == blocks[..j];
    }
    RunOne(blocks, m, SenderReads);
    ReadAck(blocks, m);
  }

  /** On a clean line the transfer takes one round to start, one for each block and one to end. */
  lemma {:induction false} CleanRounds(blocks: seq<Block>, j: nat)
    requires 1 <= j <= |blocks| + 1
    ensures Rounds(blocks, Times(j, Clean)) == CleanAfter(blocks, j)
  {
    assert Times(j, Clean)[..j - 1] == Times(j - 1, Clean);
    if j == 1 {
      RunOne(blocks, Start, SenderReads);
    } else {
      CleanRounds(blocks, j - 1);
      CleanRound(blocks, j - 1);
    }
  }

  lemma CleanEnd(blocks: seq<Block>)
    ensures Round(blocks, CleanAfter(blocks, |blocks| + 1), Clean).s.status == Succeeded
  {
    var z := CleanAfter(blocks, |blocks| + 1);
    RunOne(blocks, z, Deliver);
    var m := Middle(blocks, z, Clean);
    assert m.back[0] == ACK && m.s == z.s;
    RunOne(blocks, m, SenderReads);
  }

  lemma CleanLast(blocks: seq<Block>)
    ensures Rounds(blocks, Times(|blocks| + 2, Clean)) == Round(blocks, CleanAfter(blocks, |blocks| + 1), Clean)
  {
    var fs := Times(|blocks| + 2, Clean);
    CleanRounds(blocks, |blocks| + 1);
    assert fs[..|fs| - 1] == Times(|blocks| + 1, Clean);
  }

  lemma CleanLineSucceeds(blocks: seq<Block>)
    ensures var z := Rounds(blocks, Times(|blocks| + 2, Clean));
      z.s.status == Succeeded && z.r.status == Complete && z.r.written == blocks
  {
    CleanLast(blocks);
    CleanEnd(blocks);
    SuccessMeansComplete(blocks, Times(|blocks| + 2, Clean));
  }
}
