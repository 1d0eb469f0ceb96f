/** Which files the sector numbers, kept modulo 256, are good enough for: every run of a binary
    transfer is counted, without a bound on repetitions. */
module XmodemWrap {
  import opened Sequences
  import opened Xmodem
  import opened XmodemAsync

  function Copies(fwd: seq<nat>, k: nat): (r: nat) { multiset(fwd)[k] }

  lemma CopiesAppend(fwd: seq<nat>, k: nat, i: nat)
    ensures Copies(fwd + [k], i) == Copies(fwd, i) + if i == k then 1 else 0
  {}

  lemma CopiesFirst(fwd: seq<nat>, i: nat)
    requires fwd != []
    ensures Copies(fwd[1..], i) == Copies(fwd, i) - if i == fwd[0] then 1 else 0
  {
    assert fwd == [fwd[0]] + fwd[1..];
  }

  lemma CopiesRemove(fwd: seq<nat>, j: nat, i: nat)
    requires j < |fwd|
    ensures Copies(Remove(fwd, j), i) <= Copies(fwd, i)
  {
    assert fwd == fwd[..j] + [fwd[j]] + fwd[j + 1..];
  }

  /** How often the sender can have sent block i: a block it has passed was acknowledged by the ninth
      attempt at the latest. */
  function Limit(s: SState, i: nat): (r: nat) {
    if i < s.n then 9 else if s.status == Sending then s.attempts else 10
  }

  /** Repetitions, and the copies under way that can become some, are no more than was sent. */
  ghost predicate Counted(blocks: seq<Block>, z: Sys) {
    var r := |z.r.written|;
    && (forall i :: r < i <= |blocks| ==> Copies(z.fwd, i) <= Limit(z.s, i))
    && (z.s.status == Sending ==> 1 <= z.s.attempts <= RETRYMAX)
    && (z.s.status == Syncing ==> r == 0)
    && if r == 0 then z.dups == 0 else z.dups + Copies(z.fwd, r) <= 8 * (r - 1) + Limit(z.s, r) - 1
  }

  /** A step of the sender that says nothing: it waits on, or has come to an end. */
  lemma SilentCounts(blocks: seq<Block>, z: Sys, s: SState)
    requires Counted(blocks, z) && s.n == z.s.n && s.status != Sending
    requires s.status == Syncing ==> z.s.status == Syncing
    ensures Counted(blocks, z.(s := s))
  {}

  /** It says the number again that it is at. */
  lemma AgainCounts(blocks: seq<Block>, z: Sys, s: SState)
    requires Inv(blocks, z) && Counted(blocks, z) && s == z.s.(attempts := z.s.attempts + 1)
    requires (s.status == Sending && z.s.attempts < RETRYMAX) || s.status == Ending
    ensures Counted(blocks, z.(s := s, fwd := z.fwd + [s.n]))
  {
    forall i ensures Copies(z.fwd + [s.n], i) == Copies(z.fwd, i) + if i == s.n then 1 else 0 {
      CopiesAppend(z.fwd, s.n, i);
    }
  }

  lemma NoneBeyond(fwd: seq<nat>, lo: nat, hi: nat, i: nat)
    requires InOrder(fwd, lo, hi) && i > hi
    ensures Copies(fwd, i) == 0
  {}

  /** It says the next number for the first time. */
  lemma NextCounts(blocks: seq<Block>, z: Sys, n: nat)
    requires Inv(blocks, z) && Counted(blocks, z) && n <= |blocks| + 1
    requires if z.s.status == Syncing then n == 1
      else z.s.status == Sending && z.s.attempts < RETRYMAX && n == z.s.n + 1
    ensures Counted(blocks, z.(s := Present(n, |blocks|).0, fwd := z.fwd + [n]))
  {
    forall i ensures Copies(z.fwd + [n], i) == Copies(z.fwd, i) + if i == n then 1 else 0 {
      CopiesAppend(z.fwd, n, i);
    }
    if z.s.status == Sending { NoneBeyond(z.fwd, |z.r.written|, z.s.n, n); }
  }

  /** The three things the sender can do. */
  lemma HearIs(s: SState, total: nat, x: Reading)
    requires !Halted(s) && (s.status == Sending ==> s.attempts <= RETRYMAX)
    ensures var (s', sent) := Hear(s, total, x);
      || (sent == [] && s'.n == s.n && s'.status != Sending && (s'.status == Syncing ==> s.status == Syncing))
      || (sent == [s.n] && s' == s.(attempts := s.attempts + 1)
          && ((s.status == Sending && s.attempts < RETRYMAX) || s.status == Ending))
      || ((s', sent) == Present(s'.n, total)
          && if s.status == Syncing then s'.n == 1
             else s.status == Sending && s.attempts < RETRYMAX && s'.n == s.n + 1)
  {}

  lemma HearCounts(blocks: seq<Block>, z: Sys, x: Reading)
    requires Inv(blocks, z) && Counted(blocks, z) && !Halted(z.s)
    ensures Counted(blocks, SenderHears(z, |blocks|, x))
  {
    var (s, sent) := Hear(z.s, |blocks|, x);
    HearIs(z.s, |blocks|, x);
    HearMovesOn(z.s, |blocks|, x);
    StepCounts(blocks, z, s, sent);
  }

  lemma StepCounts(blocks: seq<Block>, z: Sys, s: SState, sent: seq<nat>)
    requires Inv(blocks, z) && Counted(blocks, z) && 1 <= s.n <= |blocks| + 1
    requires
      || (sent == [] && s.n == z.s.n && s.status != Sending && (s.status == Syncing ==> z.s.status == Syncing))
      || (sent == [z.s.n] && s == z.s.(attempts := z.s.attempts + 1)
          && ((z.s.status == Sending && z.s.attempts < RETRYMAX) || z.s.status == Ending))
      || ((s, sent) == Present(s.n, |blocks|)
          && if z.s.status == Syncing then s.n == 1
             else z.s.status == Sending && z.s.attempts < RETRYMAX && s.n == z.s.n + 1)
    ensures Counted(blocks, z.(s := s, fwd := z.fwd + sent))
  {
    if sent == [] {
      assert z.fwd + sent == z.fwd;
      SilentCounts(blocks, z, s);
    } else if s == z.s.(attempts := z.s.attempts + 1) && sent == [z.s.n] {
      AgainCounts(blocks, z, s);
    } else {
      NextCounts(blocks, z, s.n);
    }
  }

  // ------------------------------------------------------------ the receiver's side

  /** The sender is so near that even a repetition can only be of the last block. */
  predicate Close(z: Sys) { z.s.n <= |z.r.written| + 255 }

  /** The first packet under way has come. */
  predicate Took(z: Sys, z': Sys) { z.fwd != [] && z'.s == z.s && z'.fwd == z.fwd[1..] }

  lemma AcceptCounts(blocks: seq<Block>, z: Sys, z': Sys)
    requires Counted(blocks, z) && Inv(blocks, z) && Took(z, z') && z'.dups == z.dups
    requires z.fwd[0] == |z.r.written| + 1 == |z'.r.written| <= |blocks|
    ensures Counted(blocks, z')
  {
    forall i ensures Copies(z'.fwd, i) == Copies(z.fwd, i) - if i == z.fwd[0] then 1 else 0 { CopiesFirst(z.fwd, i); }
  }

  /** It was no new block, and may have been a repetition of the last one. */
  lemma GoneCounts(blocks: seq<Block>, z: Sys, z': Sys)
    requires Counted(blocks, z) && Inv(blocks, z) && Took(z, z') && |z'.r.written| == |z.r.written|
    requires z'.dups == z.dups || (z'.dups == z.dups + 1 && z.fwd[0] == |z.r.written|)
    ensures Counted(blocks, z')
  {
    forall i ensures Copies(z'.fwd, i) == Copies(z.fwd, i) - if i == z.fwd[0] then 1 else 0 { CopiesFirst(z.fwd, i); }
  }

  lemma RemoveCounts(blocks: seq<Block>, z: Sys, j: nat)
    requires Counted(blocks, z) && j < |z.fwd|
    ensures Counted(blocks, z.(fwd := Remove(z.fwd, j)))
  {
    forall i ensures Copies(Remove(z.fwd, j), i) <= Copies(z.fwd, i) { CopiesRemove(z.fwd, j, i); }
  }

  lemma DeliverIs(blocks: seq<Block>, z: Sys)
    requires Inv(blocks, z) && Close(z) && z.fwd != [] && z.r.status == Receiving
    ensures var z', k, r := Apply(blocks, z, Deliver), z.fwd[0], |z.r.written|;
      Took(z, z') && k >= 1
      && (z'.r.status == Receiving ==>
            if k == r + 1 then k == |z'.r.written| <= |blocks| && z'.dups == z.dups
            else k == r == |z'.r.written| && z'.dups == z.dups + 1)
  {
    FirstUnderWay(blocks, z);
    if z.fwd[0] <= |blocks| {
      SectorNumbersTell(|z.r.written|, z.fwd[0]);
      NextSector(|z.r.written|, z.r.sectnum);
      DeliverIntact(blocks, z);
    }
  }

  lemma DeliverCounts(blocks: seq<Block>, z: Sys)
    requires Inv(blocks, z) && Counted(blocks, z) && Close(z) && z.fwd != [] && z.r.status == Receiving
    ensures var z' := Apply(blocks, z, Deliver); z'.r.status == Receiving ==> Counted(blocks, z') && Close(z')
  {
    var z' := Apply(blocks, z, Deliver);
    DeliverIs(blocks, z);
    if z'.r.status == Receiving {
      if z.fwd[0] == |z.r.written| + 1 { AcceptCounts(blocks, z, z'); } else { GoneCounts(blocks, z, z'); }
    }
  }

  lemma DamagedIs(blocks: seq<Block>, z: Sys, got: Packet)
    requires Inv(blocks, z) && Close(z) && z.fwd != [] && z.r.status == Receiving
    ensures var z' := Apply(blocks, z, DeliverDamaged(got));
      z' == z || (Took(z, z') && |z'.r.written| == |z.r.written|
                  && (z'.dups == z.dups || (z'.dups == z.dups + 1 && z.fwd[0] == |z.r.written|)))
  {
    FirstUnderWay(blocks, z);
    SectorNumbersTell(|z.r.written|, z.fwd[0]);
  }

  lemma DamagedCounts(blocks: seq<Block>, z: Sys, got: Packet)
    requires Inv(blocks, z) && Counted(blocks, z) && Close(z) && z.fwd != [] && z.r.status == Receiving
    ensures var z' := Apply(blocks, z, DeliverDamaged(got)); Counted(blocks, z') && Close(z')
  {
    var z' := Apply(blocks, z, DeliverDamaged(got));
    DamagedIs(blocks, z, got);
    if z' != z { GoneCounts(blocks, z, z'); }
  }

  // ------------------------------------------------------------ while the numbers tell

  ghost predicate Strong(blocks: seq<Block>, z: Sys) {
    Inv(blocks, z) && Counted(blocks, z) && Close(z) && z.r.status == Receiving
  }

  /** A sender that is further ahead has used up acknowledgements of repetitions, of which there are
      at most 8 for each block: the receiver has at least 32 blocks. */
  lemma FarMeansLate(blocks: seq<Block>, z: Sys)
    requires Inv(blocks, z) && Counted(blocks, z) && z.r.status == Receiving && !Close(z)
    ensures |z.r.written| >= 32
  {}

  // ------------------------------------------------------------ when they do not

  /** Block l was the last one taken, for number |written| or a later one with the same sector number. */
  ghost predicate WeakAt(blocks: seq<Block>, z: Sys, l: nat) {
    var r := |z.r.written|;
    && 32 <= r <= l <= z.s.n <= |blocks| + 1 && l % 256 == r % 256 == z.r.sectnum
    && InOrder(z.fwd, l, z.s.n)
    && (z.s.status == Sending ==> z.s.n <= |blocks|)
    && ((z.s.status == Ending || z.s.status == Succeeded) ==> z.s.n == |blocks| + 1)
    && (z.s.status == Syncing ==> z.s.n == 1)
    && z.r.status == Receiving && z.r.written <= blocks
  }

  ghost predicate Weak(blocks: seq<Block>, z: Sys) { exists l :: WeakAt(blocks, z, l) }

  lemma StrongIsWeak(blocks: seq<Block>, z: Sys)
    requires Inv(blocks, z) && z.r.status == Receiving && |z.r.written| >= 32
    ensures Weak(blocks, z)
  {
    assert WeakAt(blocks, z, |z.r.written|);
  }

  /** From block 33 on every block is the same as the one 256 after it. */
  ghost predicate Repeats(blocks: seq<Block>) {
    forall i :: 32 <= i && i + 256 < |blocks| ==> blocks[i] == blocks[i + 256]
  }

  lemma {:induction false} SameBlock(blocks: seq<Block>, i: nat, m: nat)
    requires Repeats(blocks) && 32 <= i && i + 256 * m < |blocks|
    ensures blocks[i] == blocks[i + 256 * m]
    decreases m
  {
    if m > 0 { SameBlock(blocks, i, m - 1); }
  }

  /** A block taken in the place of another is the same. */
  lemma TakenIsSame(blocks: seq<Block>, r: nat, l: nat, k: nat)
    requires Repeats(blocks) && 32 <= r <= l <= k <= |blocks| && l % 256 == r % 256 && k % 256 == (r + 1) % 256
    ensures k > l && r < |blocks| && blocks[k - 1] == blocks[r]
  {
    var m := (k - 1 - r) / 256;
    assert k - 1 == r + 256 * m;
    SameBlock(blocks, r, m);
  }

  lemma WeakHears(blocks: seq<Block>, z: Sys, l: nat, x: Reading)
    requires WeakAt(blocks, z, l) && !Halted(z.s)
    ensures WeakAt(blocks, SenderHears(z, |blocks|, x), l)
  {
    var (s, sent) := Hear(z.s, |blocks|, x);
    HearMovesOn(z.s, |blocks|, x);
    OrderKept(z.fwd, l, z.s.n, sent, s.n);
  }

  /** Still a prefix, and weak as long as the receiver goes on. */
  ghost predicate StillWeak(blocks: seq<Block>, z: Sys) {
    z.r.written <= blocks && (z.r.status == Receiving ==> Weak(blocks, z))
  }

  lemma WeakDelivers(blocks: seq<Block>, z: Sys, l: nat)
    requires Repeats(blocks) && WeakAt(blocks, z, l) && z.fwd != []
    ensures StillWeak(blocks, Apply(blocks, z, Deliver))
  {
    var z', k, r := Apply(blocks, z, Deliver), z.fwd[0], |z.r.written|;
    if k <= |blocks| {
      DeliverIntact(blocks, z);
      NextSector(r, z.r.sectnum);
      if k % 256 == (r + 1) % 256 {
        TakenIsSame(blocks, r, l, k);
        assert WeakAt(blocks, z', k);
      } else if z'.r.status == Receiving {
        assert WeakAt(blocks, z', l);
      }
    }
  }

  lemma WeakDamaged(blocks: seq<Block>, z: Sys, l: nat, got: Packet)
    requires WeakAt(blocks, z, l)
    ensures StillWeak(blocks, Apply(blocks, z, DeliverDamaged(got)))
  {
    var z' := Apply(blocks, z, DeliverDamaged(got));
    if z'.r.status == Receiving { assert WeakAt(blocks, z', l); }
  }

  lemma WeakStep(blocks: seq<Block>, z: Sys, e: Step)
    requires Repeats(blocks) && Weak(blocks, z)
    ensures StillWeak(blocks, Apply(blocks, z, e))
  {
    var l :| WeakAt(blocks, z, l);
    var z' := Apply(blocks, z, e);
    match e
    case SenderReads =>
      if z.back != [] && !Halted(z.s) { WeakHears(blocks, z.(back := z.back[1..]), l, z.back[0]); }
      assert WeakAt(blocks, z', l);
    case SenderTimesOut =>
      if !Halted(z.s) { WeakHears(blocks, z, l, TIMEOUT); }
      assert WeakAt(blocks, z', l);
    case Deliver =>
      if z.fwd != [] { WeakDelivers(blocks, z, l); } else { assert WeakAt(blocks, z', l); }
    case DeliverDamaged(got) => WeakDamaged(blocks, z, l, got);
    case _ => if z'.r.status == Receiving { assert WeakAt(blocks, z', l); }
  }

  // ------------------------------------------------------------ the two together

  ghost predicate Good(blocks: seq<Block>, z: Sys) {
    z.r.written <= blocks && (z.r.status == Receiving ==> Strong(blocks, z) || Weak(blocks, z))
  }

  lemma SenderGood(blocks: seq<Block>, z: Sys)
    requires Inv(blocks, z) && Counted(blocks, z) && z.r.status == Receiving
    ensures Good(blocks, z)
  {
    if !Close(z) {
      FarMeansLate(blocks, z);
      StrongIsWeak(blocks, z);
    }
  }

  lemma StrongHears(blocks: seq<Block>, z: Sys, e: Step)
    requires Strong(blocks, z) && (e.SenderReads? || e.SenderTimesOut?)
    ensures Good(blocks, Apply(blocks, z, e))
  {
    StepKeepsInv(blocks, z, e);
    if !Halted(z.s) {
      if e.SenderTimesOut? {
        HearCounts(blocks, z, TIMEOUT);
      } else if z.back != [] {
        var y := z.(back := z.back[1..]);
        AcksWithout(z.back, 0);
        FewerAcks(blocks, z, y.back) by { assert Remove(z.back, 0) == z.back[1..]; }
        HearCounts(blocks, y, z.back[0]);
      }
    }
    SenderGood(blocks, Apply(blocks, z, e));
  }

  lemma StrongStep(blocks: seq<Block>, z: Sys, e: Step)
    requires Strong(blocks, z)
    ensures Good(blocks, Apply(blocks, z, e))
  {
    StepKeepsInv(blocks, z, e);
    match e
    case SenderReads => StrongHears(blocks, z, e);
    case SenderTimesOut => StrongHears(blocks, z, e);
    case Deliver => if z.fwd != [] { DeliverCounts(blocks, z); }
    case DeliverDamaged(got) => if z.fwd != [] { DamagedCounts(blocks, z, got); }
    case LosePacket(i) => if i < |z.fwd| { RemoveCounts(blocks, z, i); }
    case _ =>
  }

  lemma {:induction false} RunIsGood(blocks: seq<Block>, es: seq<Step>)
    requires Repeats(blocks)
    ensures Good(blocks, Run(blocks, Start, es))
    decreases |es|
  {
    if es == [] {
      assert Strong(blocks, Start);
    } else {
      var z, e := Run(blocks, Start, es[..|es| - 1]), es[|es| - 1];
      RunIsGood(blocks, es[..|es| - 1]);
      if z.r.status == Receiving {
        if Strong(blocks, z) { StrongStep(blocks, z, e); } else { WeakStep(blocks, z, e); }
      }
    }
  }

  /** Every run, whatever is lost, damaged, delayed or repeated, writes a prefix of the sender's
      blocks exactly when from block 33 on each block is the same as the one 256 after it. */
  lemma EveryRunIffRepeats(blocks: seq<Block>)
    ensures (forall es :: Run(blocks, Start, es).r.written <= blocks) <==> Repeats(blocks)
  {
    if Repeats(blocks) {
      forall es ensures Run(blocks, Start, es).r.written <= blocks { RunIsGood(blocks, es); }
    } else {
      var i :| 32 <= i && i + 256 < |blocks| && blocks[i] != blocks[i + 256];
      WrongRun(blocks, i + 1);
    }
  }

  /** So files of at most 288 blocks are never written wrong. */
  lemma ShortFilesAreSafe(blocks: seq<Block>, es: seq<Step>)
    requires |blocks| <= 288
    ensures Run(blocks, Start, es).r.written <= blocks
  {
    RunIsGood(blocks, es);
  }
}
