/** A transfer over links that lose, damage and delay: sender and receiver run at their own pace and
    talk through two FIFO queues.  Where nothing else is said the transfer is binary. */
module XmodemAsync {
  import opened Sequences
  import opened Xmodem

  /** `fwd` holds the numbers of the packets under way, oldest first; the end marker
      travels as number |blocks| + 1.  `back` holds the responses under way.
      `dups` counts the deliveries the receiver took for repetitions. */
  datatype Sys = Sys(s: SState, r: RState, fwd: seq<nat>, back: seq<Reading>, dups: nat)

  datatype Step =
    | SenderReads                          // the oldest response reaches the sender
    | SenderTimesOut
    | Deliver                              // the oldest packet reaches the receiver
    | DeliverDamaged(got: Packet)
    | ReceiverTimesOut
    | LosePacket(i: nat)
    | LoseReply(i: nat)
    | GarbleReply(i: nat, x: Reading)

  /** The receiver has just sent its first NAK. */
  const Start := Sys(SInit, RInit, [], [NAK], 0)

  function SenderHears(z: Sys, total: nat, x: Reading): (r: Sys) {
    var (s, sent) := Hear(z.s, total, x);
    z.(s := s, fwd := z.fwd + sent)
  }

  function ReceiverGets(z: Sys, ev: Incoming, tmode: bool := false): (r: Sys) {
    var (r, sent) := Receive(z.r, tmode, ev);
    z.(r := r, back := z.back + sent,
       dups := if ev.Soh? && r == z.r then z.dups + 1 else z.dups)
  }

  /** What the k-th transmission is, as the receiver reads it when nothing is damaged. */
  function Sent(blocks: seq<Block>, k: nat): (r: Incoming) {
    if 1 <= k <= |blocks| then Soh(MakePacket(k, blocks[k - 1])) else EndOfText
  }

  /** One event of a run; an event that is not possible leaves the system alone. */
  function Apply(blocks: seq<Block>, z: Sys, e: Step, tmode: bool := false): (r: Sys) {
    match e
    case SenderReads =>
      if z.back == [] || Halted(z.s) then z
      else SenderHears(z.(back := z.back[1..]), |blocks|, z.back[0])
    case SenderTimesOut => if Halted(z.s) then z else SenderHears(z, |blocks|, TIMEOUT)
    case Deliver =>
      if z.fwd == [] || z.r.status != Receiving then z
      else ReceiverGets(z.(fwd := z.fwd[1..]), Sent(blocks, z.fwd[0]), tmode)
    case DeliverDamaged(got) =>
      if z.fwd == [] || z.r.status != Receiving || !(1 <= z.fwd[0] <= |blocks|) then z
      else if !DetectablyDamaged(Sent(blocks, z.fwd[0]).p, got) then z
      else ReceiverGets(z.(fwd := z.fwd[1..]), Soh(got), tmode)
    case ReceiverTimesOut => if z.r.status != Receiving then z else ReceiverGets(z, Silence, tmode)
    case LosePacket(i) => if i < |z.fwd| then z.(fwd := Remove(z.fwd, i)) else z
    case LoseReply(i) => if i < |z.back| then z.(back := Remove(z.back, i)) else z
    case GarbleReply(i, x) => if i < |z.back| && x != ACK then z.(back := z.back[i := x]) else z
  }

  function Run(blocks: seq<Block>, z: Sys, es: seq<Step>, tmode: bool := false): (r: Sys) {
    if es == [] then z else Apply(blocks, Run(blocks, z, es[..|es| - 1], tmode), es[|es| - 1], tmode)
  }

  // ------------------------------------------------------------ the invariant

  /** Acknowledgements under way. */
  function Acks(back: seq<Reading>): (r: nat) { multiset(back)[ACK] }

  /** Acknowledgements the sender has acted upon. */
  function Consumed(s: SState): (r: int) { s.n - 1 + if s.status == Succeeded then 1 else 0 }

  /** The packets under way are in order, none older than the last one accepted
      and none newer than the one in the sender's buffer. */
  ghost predicate InOrder(fwd: seq<nat>, lo: nat, hi: nat) {
    && (forall i :: 0 <= i < |fwd| ==> 1 <= fwd[i] && lo <= fwd[i] <= hi)
    && (forall i, j :: 0 <= i < j < |fwd| ==> fwd[i] <= fwd[j])
  }

  ghost predicate Inv(blocks: seq<Block>, z: Sys) {
    var r := |z.r.written|;
    && 1 <= z.s.n <= |blocks| + 1
    && (z.s.status == Sending ==> z.s.n <= |blocks|)
    && ((z.s.status == Ending || z.s.status == Succeeded) ==> z.s.n == |blocks| + 1)
    && (z.s.status == Syncing ==> z.s.n == 1 && z.fwd == [])
    && r <= |blocks| && r <= z.s.n && z.r.written == blocks[..r] && z.r.sectnum == r % 256
    && (z.r.status == Receiving ==> z.r.errors < ERRORMAX)
    && InOrder(z.fwd, r, z.s.n)
    && Consumed(z.s) + Acks(z.back) <= r + z.dups + if z.r.status == Complete then 1 else 0
  }

  lemma StoredIsIdentity(b: Block)
    ensures Stored(b) == b
  {}

  lemma AcksAppend(a: seq<Reading>, b: seq<Reading>)
    ensures Acks(a + b) == Acks(a) + Acks(b)
  {}

  lemma AcksWithout(back: seq<Reading>, i: nat)
    requires i < |back|
    ensures Acks(Remove(back, i)) <= Acks(back)
    ensures back[i] == ACK ==> Acks(Remove(back, i)) == Acks(back) - 1
  {
    assert back == back[..i] + [back[i]] + back[i + 1..];
  }

  /** Whatever the sender reads, an acknowledgement is what it takes to move on. */
  lemma HearKeepsInv(blocks: seq<Block>, z: Sys, x: Reading)
    requires Inv(blocks, z) && !Halted(z.s)
    requires x == ACK ==>
      Consumed(z.s) + Acks(z.back) < |z.r.written| + z.dups + if z.r.status == Complete then 1 else 0
    ensures Inv(blocks, SenderHears(z, |blocks|, x))
  {
    var (s, sent) := Hear(z.s, |blocks|, x);
    HearMovesOn(z.s, |blocks|, x);
    OrderKept(z.fwd, |z.r.written|, z.s.n, sent, s.n);
  }

  /** What the sender does: it stays at its number or goes to the next, and says no other. */
  lemma HearMovesOn(s: SState, total: nat, x: Reading)
    requires 1 <= s.n <= total + 1 && !Halted(s)
    requires s.status == Sending ==> s.n <= total
    requires s.status == Ending ==> s.n == total + 1
    requires s.status == Syncing ==> s.n == 1
    ensures var (s', sent) := Hear(s, total, x);
      && s.n <= s'.n <= total + 1 && (sent == [] || sent == [s'.n])
      && (s'.status == Sending ==> s'.n <= total)
      && ((s'.status == Ending || s'.status == Succeeded) ==> s'.n == total + 1)
      && (s'.status == Syncing ==> s.status == Syncing && s'.n == 1 && sent == [])
      && Consumed(s') <= Consumed(s) + (if x == ACK then 1 else 0)
  {}

  lemma OrderKept(fwd: seq<nat>, lo: nat, hi: nat, sent: seq<nat>, n: nat)
    requires InOrder(fwd, lo, hi) && lo <= hi <= n && 1 <= n && (sent == [] || sent == [n])
    ensures InOrder(fwd + sent, lo, n)
  {}

  /** Sector numbers are kept modulo 256, yet among packets no further ahead than 256 only the next
      block carries the expected number. */
  lemma SectorNumbersTell(r: nat, k: nat)
    requires r <= k <= r + 256
    ensures k % 256 == (r + 1) % 256 <==> k == r + 1
    ensures k % 256 == r % 256 <==> k == r || k == r + 256
  {}

  lemma HeaderAddsUp(n: nat)
    ensures n % 256 + (-1 - n) % 256 == 255
  {
    assert -1 - n == 256 * (-1 - n / 256) + (255 - n % 256);
  }

  /** What an undamaged packet does to a receiver, by its number. */
  lemma ReceiveIntact(r: RState, k: nat, b: Block)
    ensures Receive(r, false, Soh(MakePacket(k, b))) ==
      if k % 256 == (r.sectnum + 1) % 256 then
        (r.(errors := 0, sectnum := k % 256, written := r.written + [b]), [ACK])
      else if k % 256 == r.sectnum then (r, [ACK])
      else (r.(errors := r.errors + 1,
               status := if r.errors + 1 == ERRORMAX then TooManyErrors else FatalError), [CAN, NAK])
  {
    HeaderAddsUp(k);
    StoredIsIdentity(b);
  }

  lemma DeliverIntact(blocks: seq<Block>, z: Sys)
    requires z.fwd != [] && z.r.status == Receiving && 1 <= z.fwd[0] <= |blocks|
    ensures Apply(blocks, z, Deliver) ==
      var k := z.fwd[0];
      if k % 256 == (z.r.sectnum + 1) % 256 then
        Sys(z.s, z.r.(errors := 0, sectnum := k % 256, written := z.r.written + [blocks[k - 1]]),
            z.fwd[1..], z.back + [ACK], z.dups)
      else if k % 256 == z.r.sectnum then
        Sys(z.s, z.r, z.fwd[1..], z.back + [ACK], z.dups + 1)
      else
        Sys(z.s, z.r.(errors := z.r.errors + 1,
                      status := if z.r.errors + 1 == ERRORMAX then TooManyErrors else FatalError),
            z.fwd[1..], z.back + [CAN, NAK], z.dups)
  {
    ReceiveIntact(z.r, z.fwd[0], blocks[z.fwd[0] - 1]);
  }

  /** The sender is at most 256 blocks ahead. */
  predicate Near(z: Sys) { z.s.n <= |z.r.written| + 256 }

  lemma NearIfFewDups(blocks: seq<Block>, z: Sys)
    requires Inv(blocks, z) && z.dups <= 255 && z.r.status == Receiving
    ensures Near(z)
  {}

  /** A receiver that holds r blocks accepts the next one, acknowledges a repetition,
      stops at the end marker, and answers anything else with CAN. */
  lemma DeliverOutcome(blocks: seq<Block>, z: Sys)
    requires Inv(blocks, z) && z.fwd != [] && z.r.status == Receiving && Near(z)
    ensures var k, r, z' := z.fwd[0], |z.r.written|, Apply(blocks, z, Deliver);
      if k == |blocks| + 1 then z'.r == z.r.(status := Complete) && z'.back == z.back + [ACK]
      else if k == r + 1 then
        z'.r == z.r.(errors := 0, sectnum := k % 256, written := z.r.written + [blocks[r]]) && z'.back == z.back + [ACK]
      else if k == r || k == r + 256 then z'.r == z.r && z'.back == z.back + [ACK] && z'.dups == z.dups + 1
      else z'.r.written == z.r.written && z'.r.sectnum == z.r.sectnum && z'.back == z.back + [CAN, NAK]
           && z'.r.status in {FatalError, TooManyErrors}
  {
    var k, r := z.fwd[0], |z.r.written|;
    FirstUnderWay(blocks, z);
    if k <= |blocks| {
      SectorNumbersTell(r, k);
      NextSector(r, z.r.sectnum);
      DeliverIntact(blocks, z);
    }
  }

  /** The packet about to arrive is no older than the last one accepted and no newer than the sender. */
  lemma FirstUnderWay(blocks: seq<Block>, z: Sys)
    requires Inv(blocks, z) && z.fwd != [] && z.r.status == Receiving
    ensures 1 <= z.fwd[0] && |z.r.written| <= z.fwd[0] <= z.s.n <= |blocks| + 1
    ensures z.r.sectnum == |z.r.written| % 256
  {}

  lemma NextSector(r: nat, sectnum: nat)
    requires sectnum == r % 256
    ensures (sectnum + 1) % 256 == (r + 1) % 256
  {}

  lemma DeliverKeepsInv(blocks: seq<Block>, z: Sys)
    requires Inv(blocks, z) && z.fwd != [] && z.r.status == Receiving && Near(z)
    ensures Inv(blocks, Apply(blocks, z, Deliver))
  {
    DeliverOutcome(blocks, z);
    AcksAppend(z.back, [ACK]);
    AcksAppend(z.back, [CAN, NAK]);
    var z' := Apply(blocks, z, Deliver);
    if z.fwd[0] == |z.r.written| + 1 && z.fwd[0] <= |blocks| {
      assert z'.r.written == blocks[..|z.r.written| + 1];
      if z'.fwd != [] { assert z.fwd[0] <= z.fwd[1]; }
    }
  }

  /** A damaged packet is never written; only its header may pass for a repetition. */
  lemma DamagedKeepsInv(blocks: seq<Block>, z: Sys, got: Packet)
    requires Inv(blocks, z) && z.fwd != [] && z.r.status == Receiving
    ensures var z' := Apply(blocks, z, DeliverDamaged(got));
      z'.r.written == z.r.written && Inv(blocks, z')
  {
    AcksAppend(z.back, [ACK]);
    AcksAppend(z.back, [NAK]);
    AcksAppend(z.back, [CAN, NAK]);
  }

  lemma FewerAcks(blocks: seq<Block>, z: Sys, back: seq<Reading>)
    requires Inv(blocks, z) && Acks(back) <= Acks(z.back)
    ensures Inv(blocks, z.(back := back))
  {}

  lemma FewerPackets(blocks: seq<Block>, z: Sys, i: nat)
    requires Inv(blocks, z) && i < |z.fwd|
    ensures Inv(blocks, z.(fwd := Remove(z.fwd, i)))
  {}

  /** Loss, damage to responses and the receiver's timeouts only ever remove acknowledgements. */
  lemma LineKeepsInv(blocks: seq<Block>, z: Sys, e: Step)
    requires Inv(blocks, z) && (e.LosePacket? || e.LoseReply? || e.GarbleReply? || e.ReceiverTimesOut?)
    ensures var z' := Apply(blocks, z, e); z.dups == z'.dups && Inv(blocks, z')
  {
    match e
    case LosePacket(i) => if i < |z.fwd| { FewerPackets(blocks, z, i); }
    case LoseReply(i) =>
      if i < |z.back| {
        AcksWithout(z.back, i);
        FewerAcks(blocks, z, Remove(z.back, i));
      }
    case GarbleReply(i, x) => if i < |z.back| && x != ACK { FewerAcks(blocks, z, z.back[i := x]); }
    case _ => TimeoutKeepsInv(blocks, z);
  }

  lemma TimeoutKeepsInv(blocks: seq<Block>, z: Sys)
    requires Inv(blocks, z)
    ensures var z' := Apply(blocks, z, ReceiverTimesOut); z.dups == z'.dups && Inv(blocks, z')
  {
    AcksAppend(z.back, [NAK]);
  }

  lemma SenderKeepsInv(blocks: seq<Block>, z: Sys)
    requires Inv(blocks, z)
    ensures var z' := Apply(blocks, z, SenderReads); z.dups == z'.dups && Inv(blocks, z')
  {
    if z.back != [] && !Halted(z.s) {
      AcksWithout(z.back, 0);
      assert Remove(z.back, 0) == z.back[1..];
      HearKeepsInv(blocks, z.(back := z.back[1..]), z.back[0]);
    }
  }

  lemma DupsGrow(blocks: seq<Block>, z: Sys, e: Step)
    ensures z.dups <= Apply(blocks, z, e).dups
  {}

  lemma StepKeepsInv(blocks: seq<Block>, z: Sys, e: Step)
    requires Inv(blocks, z) && (z.r.status == Receiving ==> Near(z))
    ensures Inv(blocks, Apply(blocks, z, e))
  {
    match e
    case SenderReads => SenderKeepsInv(blocks, z);
    case SenderTimesOut => if !Halted(z.s) { HearKeepsInv(blocks, z, TIMEOUT); }
    case Deliver => if z.fwd != [] && z.r.status == Receiving { DeliverKeepsInv(blocks, z); }
    case DeliverDamaged(got) =>
      if z.fwd != [] && z.r.status == Receiving { DamagedKeepsInv(blocks, z, got); }
    case _ => LineKeepsInv(blocks, z, e);
  }

  lemma {:induction false} RunKeepsInv(blocks: seq<Block>, es: seq<Step>)
    ensures var z := Run(blocks, Start, es); z.dups <= 255 ==> Inv(blocks, z)
  {
    if es != [] {
      RunKeepsInv(blocks, es[..|es| - 1]);
      var z := Run(blocks, Start, es[..|es| - 1]);
      DupsGrow(blocks, z, es[|es| - 1]);
      if z.dups <= 255 {
        if z.r.status == Receiving { NearIfFewDups(blocks, z); }
        StepKeepsInv(blocks, z, es[|es| - 1]);
      }
    }
  }

  // ------------------------------------------------------------ what every run keeps

  /** In every run with at most 255 repeated deliveries, what the receiver has written
      is a prefix of the sender's blocks, although sector numbers repeat every 256. */
  lemma ReceivedIsPrefix(blocks: seq<Block>, es: seq<Step>)
    requires Run(blocks, Start, es).dups <= 255
    ensures Run(blocks, Start, es).r.written <= blocks
  {
    RunKeepsInv(blocks, es);
  }

  /** A sender that has run ahead can only make the receiver stop with CAN. */
  lemma AheadMeansCancel(blocks: seq<Block>, es: seq<Step>)
    requires var z := Run(blocks, Start, es);
      && z.dups <= 254 && z.fwd != [] && z.r.status == Receiving
      && |z.r.written| + 1 < z.fwd[0] <= |blocks|
    ensures var z, z' := Run(blocks, Start, es), Run(blocks, Start, es + [Deliver]);
      && z'.r.written == z.r.written
      && z'.r.status in {FatalError, TooManyErrors}
      && z'.back == z.back + [CAN, NAK]
  {
    RunKeepsInv(blocks, es);
    NearIfFewDups(blocks, Run(blocks, Start, es));
    assert (es + [Deliver])[..|es|] == es;
    DeliverOutcome(blocks, Run(blocks, Start, es));
  }

  /** When the sender reports success, no more blocks are missing than there were
      repeated deliveries; with none, the receiver has finished with every block. */
  lemma SuccessLosesAtMostDups(blocks: seq<Block>, es: seq<Step>)
    requires var z := Run(blocks, Start, es); z.dups <= 255 && z.s.status == Succeeded
    ensures var z := Run(blocks, Start, es);
      && |z.r.written| + z.dups >= |blocks|
      && (z.dups == 0 ==> z.r.written == blocks && z.r.status == Complete)
  {
    RunKeepsInv(blocks, es);
  }

  // ------------------------------------------------------------ both bounds are sharp

  ghost predicate Reaches(blocks: seq<Block>, z: Sys, z': Sys) {
    exists es :: Run(blocks, z, es) == z'
  }

  lemma ReachesItself(blocks: seq<Block>, z: Sys)
    ensures Reaches(blocks, z, z)
  {
    assert Run(blocks, z, []) == z;
  }

  lemma ReachesStep(blocks: seq<Block>, z: Sys, z': Sys, e: Step)
    requires Reaches(blocks, z, z')
    ensures Reaches(blocks, z, Apply(blocks, z', e))
  {
    var es :| Run(blocks, z, es) == z';
    assert (es + [e])[..|es|] == es;
    assert Run(blocks, z, es + [e]) == Apply(blocks, z', e);
  }

  lemma ReadAck(blocks: seq<Block>, z: Sys)
    requires z.back != [] && z.back[0] == ACK && z.s.status == Sending && z.s.attempts < RETRYMAX
    ensures Apply(blocks, z, SenderReads) ==
      Sys(Present(z.s.n + 1, |blocks|).0, z.r, z.fwd + [z.s.n + 1], z.back[1..], z.dups)
  {}

  /** The receiver holds i - 1 + more blocks, block i is on its way for the first time,
      and 8 stale acknowledgements for every earlier block are under way. */
  ghost function Flooded(blocks: seq<Block>, i: nat): (r: Sys)
    requires 1 <= i <= |blocks|
  {
    Sys(SState(i, 1, Sending), RInit.(sectnum := (i - 1) % 256, written := blocks[..i - 1]),
        [i], Times(8 * (i - 1), ACK), 8 * (i - 1))
  }

  lemma {:induction false} ReachesTimeouts(blocks: seq<Block>, i: nat, j: nat)
    requires 1 <= i <= |blocks| && j <= 8 && Reaches(blocks, Start, Flooded(blocks, i))
    ensures Reaches(blocks, Start,
                    Flooded(blocks, i).(s := SState(i, j + 1, Sending), fwd := Times(j + 1, i)))
  {
    if j == 0 {
      assert Times(1, i) == [i];
    } else {
      ReachesTimeouts(blocks, i, j - 1);
      assert Times(j, i) + [i] == Times(j + 1, i);
      ReachesStep(blocks, Start,
                  Flooded(blocks, i).(s := SState(i, j, Sending), fwd := Times(j, i)), SenderTimesOut);
    }
  }

  /** After 8 timeouts and d + 1 of the 9 deliveries. */
  ghost function HalfDelivered(blocks: seq<Block>, i: nat, d: nat): (r: Sys)
    requires 1 <= i <= |blocks| && d <= 8
  {
    Sys(SState(i, 9, Sending), RInit.(sectnum := i % 256, written := blocks[..i]),
        Times(8 - d, i), Times(8 * (i - 1) + d + 1, ACK), 8 * (i - 1) + d)
  }

  lemma NextNumber(i: nat)
    requires i >= 1
    ensures i % 256 == ((i - 1) % 256 + 1) % 256
  {}

  lemma FirstDelivery(blocks: seq<Block>, i: nat)
    requires 1 <= i <= |blocks|
    ensures Apply(blocks, Flooded(blocks, i).(s := SState(i, 9, Sending), fwd := Times(9, i)), Deliver)
         == HalfDelivered(blocks, i, 0)
  {
    var z := Flooded(blocks, i).(s := SState(i, 9, Sending), fwd := Times(9, i));
    DeliverIntact(blocks, z);
    NextNumber(i);
    assert blocks[..i - 1] + [blocks[i - 1]] == blocks[..i];
    assert z.fwd[1..] == Times(8, i);
    assert z.back + [ACK] == Times(8 * (i - 1) + 1, ACK);
  }

  lemma RepeatedDelivery(blocks: seq<Block>, i: nat, d: nat)
    requires 1 <= i <= |blocks| && d < 8
    ensures Apply(blocks, HalfDelivered(blocks, i, d), Deliver) == HalfDelivered(blocks, i, d + 1)
  {
    var z := HalfDelivered(blocks, i, d);
    DeliverIntact(blocks, z);
    assert z.fwd[0] % 256 == z.r.sectnum;
    assert z.fwd[1..] == Times(8 - (d + 1), i);
    assert z.back + [ACK] == Times(8 * (i - 1) + (d + 1) + 1, ACK);
  }

  lemma {:induction false} ReachesDeliveries(blocks: seq<Block>, i: nat, d: nat)
    requires 1 <= i <= |blocks| && d <= 8 && Reaches(blocks, Start, Flooded(blocks, i))
    ensures Reaches(blocks, Start, HalfDelivered(blocks, i, d))
  {
    if d == 0 {
      ReachesTimeouts(blocks, i, 8);
      FirstDelivery(blocks, i);
      ReachesStep(blocks, Start, Flooded(blocks, i).(s := SState(i, 9, Sending), fwd := Times(9, i)), Deliver);
    } else {
      ReachesDeliveries(blocks, i, d - 1);
      RepeatedDelivery(blocks, i, d - 1);
      ReachesStep(blocks, Start, HalfDelivered(blocks, i, d - 1), Deliver);
    }
  }

  lemma NextFlooded(blocks: seq<Block>, i: nat)
    requires 1 <= i < |blocks|
    ensures Apply(blocks, HalfDelivered(blocks, i, 8), SenderReads) == Flooded(blocks, i + 1)
  {
    ReadAck(blocks, HalfDelivered(blocks, i, 8));
    assert Times(8 * (i - 1) + 9, ACK)[1..] == Times(8 * i, ACK);
  }

  lemma {:induction false} ReachesFlooded(blocks: seq<Block>, i: nat)
    requires 1 <= i <= |blocks|
    ensures Reaches(blocks, Start, Flooded(blocks, i))
  {
    if i == 1 {
      ReachesItself(blocks, Start);
      ReachesStep(blocks, Start, Start, SenderReads);
      assert Apply(blocks, Start, SenderReads) == Flooded(blocks, 1);
    } else {
      ReachesFlooded(blocks, i - 1);
      ReachesDeliveries(blocks, i - 1, 8);
      NextFlooded(blocks, i - 1);
      ReachesStep(blocks, Start, HalfDelivered(blocks, i - 1, 8), SenderReads);
    }
  }

  /** Block i + j is on its way while the receiver waits for block i. */
  ghost function Ahead(blocks: seq<Block>, i: nat, j: nat): (r: Sys)
    requires 33 <= i && i + 256 <= |blocks| && j <= 256
  {
    Flooded(blocks, i).(s := SState(i + j, 1, Sending), fwd := [i + j], back := Times(8 * (i - 1) - j, ACK))
  }

  /** Every stale acknowledgement moves the sender on by one block that never arrives. */
  lemma FurtherAhead(blocks: seq<Block>, i: nat, j: nat)
    requires 33 <= i && i + 256 <= |blocks| && j < 256
    ensures Apply(blocks, Apply(blocks, Ahead(blocks, i, j), LosePacket(0)), SenderReads) == Ahead(blocks, i, j + 1)
  {
    var z := Ahead(blocks, i, j);
    assert Remove(z.fwd, 0) == [];
    ReadAck(blocks, z.(fwd := []));
    assert z.back[1..] == Times(8 * (i - 1) - (j + 1), ACK);
  }

  lemma {:induction false} ReachesAhead(blocks: seq<Block>, i: nat, j: nat)
    requires 33 <= i && i + 256 <= |blocks| && j <= 256
    ensures Reaches(blocks, Start, Ahead(blocks, i, j))
    decreases j
  {
    if j == 0 {
      ReachesFlooded(blocks, i);
      assert Ahead(blocks, i, 0) == Flooded(blocks, i);
    } else {
      ReachesAhead(blocks, i, j - 1);
      FurtherAhead(blocks, i, j - 1);
      ReachesStep(blocks, Start, Ahead(blocks, i, j - 1), LosePacket(0));
      ReachesStep(blocks, Start, Apply(blocks, Ahead(blocks, i, j - 1), LosePacket(0)), SenderReads);
    }
  }

  lemma WrongBlock(blocks: seq<Block>, i: nat)
    requires 33 <= i && i + 256 <= |blocks|
    ensures var z := Apply(blocks, Ahead(blocks, i, 256), Deliver);
      z.dups == 8 * (i - 1) && z.r.written == blocks[..i - 1] + [blocks[i + 255]]
  {
    assert (i + 256) % 256 == ((i - 1) % 256 + 1) % 256;
    DeliverIntact(blocks, Ahead(blocks, i, 256));
  }

  /** With 8 repetitions of each block before it, block i + 256 can be written in place of block i,
      for every i from 33 on. */
  lemma WrongRun(blocks: seq<Block>, i: nat)
    requires 33 <= i && i + 256 <= |blocks| && blocks[i - 1] != blocks[i + 255]
    ensures exists es :: Run(blocks, Start, es).dups == 8 * (i - 1) && !(Run(blocks, Start, es).r.written <= blocks)
  {
    ReachesAhead(blocks, i, 256);
    ReachesStep(blocks, Start, Ahead(blocks, i, 256), Deliver);
    var z := Apply(blocks, Ahead(blocks, i, 256), Deliver);
    WrongBlock(blocks, i);
    assert z.r.written[i - 1] == blocks[i + 255];
    var es :| Run(blocks, Start, es) == z;
    assert Run(blocks, Start, es).dups == 8 * (i - 1);
  }

  /** The bound of ReceivedIsPrefix cannot be raised: with 256 repeated deliveries,
      block 289 can be written in place of block 33. */
  lemma PrefixBoundIsSharp(blocks: seq<Block>)
    requires 289 <= |blocks| && blocks[32] != blocks[288]
    ensures exists es :: Run(blocks, Start, es).dups == 256 && !(Run(blocks, Start, es).r.written <= blocks)
  {
    WrongRun(blocks, 33);
  }

  /** Block 1 is sent twice and arrives twice; the second acknowledgement is taken for block 2's. */
  lemma StartOfLossyRun(blocks: seq<Block>)
    requires |blocks| == 2
    ensures Reaches(blocks, Start, Sys(SState(1, 2, Sending), RInit.(sectnum := 1, written := [blocks[0]]),
        [], [ACK, ACK], 1))
  {
    SentTwice(blocks);
    FirstCopy(blocks);
    SecondCopy(blocks);
    ReachesStep(blocks, Start, Sys(SState(1, 2, Sending), RInit, [1, 1], [], 0), Deliver);
    ReachesStep(blocks, Start, Sys(SState(1, 2, Sending), RInit.(sectnum := 1, written := [blocks[0]]), [1], [ACK], 0),
                Deliver);
  }

  lemma SentTwice(blocks: seq<Block>)
    requires |blocks| == 2
    ensures Reaches(blocks, Start, Sys(SState(1, 2, Sending), RInit, [1, 1], [], 0))
  {
    ReachesFlooded(blocks, 1);
    ReachesTimeouts(blocks, 1, 1);
    assert Times(2, 1) == [1, 1];
  }

  lemma FirstCopy(blocks: seq<Block>)
    requires |blocks| == 2
    ensures Apply(blocks, Sys(SState(1, 2, Sending), RInit, [1, 1], [], 0), Deliver)
         == Sys(SState(1, 2, Sending), RInit.(sectnum := 1, written := [blocks[0]]), [1], [ACK], 0)
  {
    DeliverIntact(blocks, Sys(SState(1, 2, Sending), RInit, [1, 1], [], 0));
  }

  lemma SecondCopy(blocks: seq<Block>)
    requires |blocks| == 2
    ensures var r1 := RInit.(sectnum := 1, written := [blocks[0]]);
      Apply(blocks, Sys(SState(1, 2, Sending), r1, [1], [ACK], 0), Deliver)
      == Sys(SState(1, 2, Sending), r1, [], [ACK, ACK], 1)
  {
    DeliverIntact(blocks, Sys(SState(1, 2, Sending), RInit.(sectnum := 1, written := [blocks[0]]), [1], [ACK], 0));
  }

  /** Block 2 is lost, and the second acknowledgement of block 1 ends its sending. */
  lemma MiddleOfLossyRun(blocks: seq<Block>, z4: Sys, z6: Sys)
    requires |blocks| == 2
    requires z4 == Sys(SState(2, 1, Sending), RInit.(sectnum := 1, written := [blocks[0]]), [2], [ACK], 1)
    requires z6 == z4.(s := SState(3, 0, Ending), fwd := [3], back := [])
    requires Reaches(blocks, Start, z4)
    ensures Reaches(blocks, Start, z6)
  {
    var z5 := z4.(fwd := []);
    assert Apply(blocks, z4, LosePacket(0)) == z5;
    ReadAck(blocks, z5);
    ReachesStep(blocks, Start, z4, LosePacket(0));
    ReachesStep(blocks, Start, z5, SenderReads);
  }

  lemma EndOfLossyRun(blocks: seq<Block>, z6: Sys)
    requires |blocks| == 2
    requires z6 == Sys(SState(3, 0, Ending), RInit.(sectnum := 1, written := [blocks[0]]), [3], [], 1)
    requires Reaches(blocks, Start, z6)
    ensures exists es :: var z := Run(blocks, Start, es);
      z.dups == 1 && z.s.status == Succeeded && z.r.status == Complete && z.r.written == [blocks[0]]
  {
    var z7 := z6.(r := z6.r.(status := Complete), fwd := [], back := [ACK]);
    assert Apply(blocks, z6, Deliver) == z7;
    ReachesStep(blocks, Start, z6, Deliver);
    ReachesStep(blocks, Start, z7, SenderReads);
    var es :| Run(blocks, Start, es) == Apply(blocks, z7, SenderReads);
    assert Run(blocks, Start, es).dups == 1;
  }

  /** Nor is success alone a promise: one repeated delivery, and a two-block transfer
      ends with both sides content and the second block missing. */
  lemma OneRepetitionLosesABlock(blocks: seq<Block>)
    requires |blocks| == 2
    ensures exists es :: var z := Run(blocks, Start, es);
      z.dups == 1 && z.s.status == Succeeded && z.r.status == Complete && z.r.written == [blocks[0]]
  {
    StartOfLossyRun(blocks);
    var r1 := RInit.(sectnum := 1, written := [blocks[0]]);
    var z3 := Sys(SState(1, 2, Sending), r1, [], [ACK, ACK], 1);
    ReadAck(blocks, z3);
    ReachesStep(blocks, Start, z3, SenderReads);
    var z6 := Sys(SState(3, 0, Ending), r1, [3], [], 1);
    MiddleOfLossyRun(blocks, Sys(SState(2, 1, Sending), r1, [2], [ACK], 1), z6);
    EndOfLossyRun(blocks, z6);
  }
}
