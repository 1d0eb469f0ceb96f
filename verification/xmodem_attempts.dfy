/** How many attempts the sender has: which acknowledgements come in time. */
module XmodemAttempts {
  import opened Sequences
  import opened Xmodem

  /** The sender's state after k readings, and the numbers it has transmitted. */
  function Dialogue(total: nat, resp: nat -> Reading, k: nat): (r: (SState, seq<nat>)) {
    if k == 0 then (SInit, [])
    else
      var (s, log) := Dialogue(total, resp, k - 1);
      var (s', sent) := Hear(s, total, resp(k - 1));
      (s', log + sent)
  }

  lemma DialogueNext(total: nat, resp: nat -> Reading, k: nat)
    ensures var (s, log) := Dialogue(total, resp, k); var (s', sent) := Hear(s, total, resp(k));
      Dialogue(total, resp, k + 1) == (s', log + sent) && (sent == [] ==> log + sent == log)
  {}

  /** Of the m responses from number k on, one is an acknowledgement that no CAN comes before. */
  ghost predicate AckedWithin(resp: nat -> Reading, k: nat, m: int) {
    exists j: nat :: k <= j < k + m && resp(j) == ACK && forall i: nat :: k <= i < j ==> resp(i) != CAN
  }

  lemma AckedLater(resp: nat -> Reading, k: nat, m: int)
    requires m > 0
    ensures AckedWithin(resp, k, m) <==> resp(k) == ACK || (resp(k) != CAN && AckedWithin(resp, k + 1, m - 1))
  {}

  /** A block that has been sent a times gets through exactly when one of the next RETRYMAX - a
      responses is an acknowledgement with no CAN before it; otherwise the sender has given up after
      one more response.  j is the response that decides. */
  lemma {:induction false} BlockGetsThrough(total: nat, resp: nat -> Reading, k: nat, n: nat, a: nat) returns (j: nat)
    requires Dialogue(total, resp, k).0 == SState(n, a, Sending) && 1 <= a <= RETRYMAX
    ensures k < j <= k + RETRYMAX + 1 - a
    ensures if AckedWithin(resp, k, RETRYMAX - a)
            then j <= k + RETRYMAX - a && Dialogue(total, resp, j).0 == Present(n + 1, total).0
            else Dialogue(total, resp, j).0.status == Failed
    decreases RETRYMAX - a
  {
    DialogueNext(total, resp, k);
    var x := resp(k);
    j := k + 1;
    if a < RETRYMAX {
      AckedLater(resp, k, RETRYMAX - a);
      if x != ACK && x != CAN { j := BlockGetsThrough(total, resp, k + 1, n, a + 1); }
    }
  }

  /** Of the m responses from number k on, one is an acknowledgement. */
  ghost predicate AckAmong(resp: nat -> Reading, k: nat, m: int) {
    exists j: nat :: k <= j < k + m && resp(j) == ACK
  }

  lemma AckAmongNext(resp: nat -> Reading, k: nat, m: int)
    requires m > 0
    ensures AckAmong(resp, k, m) <==> resp(k) == ACK || AckAmong(resp, k + 1, m - 1)
  {}

  /** The end of the file, said a + 1 times so far, is taken for heard exactly when one of the next
      RETRYMAX - a responses is an acknowledgement, whatever comes before it. */
  lemma {:induction false} EndGetsThrough(total: nat, resp: nat -> Reading, k: nat, n: nat, a: nat) returns (j: nat)
    requires Dialogue(total, resp, k).0 == SState(n, a, Ending) && a <= RETRYMAX
    ensures k < j <= k + RETRYMAX + 1 - a
    ensures Dialogue(total, resp, j).0.status == if AckAmong(resp, k, RETRYMAX - a) then Succeeded else Failed
    ensures AckAmong(resp, k, RETRYMAX - a) ==> j <= k + RETRYMAX - a
    decreases RETRYMAX - a
  {
    DialogueNext(total, resp, k);
    j := k + 1;
    if a < RETRYMAX {
      AckAmongNext(resp, k, RETRYMAX - a);
      if resp(k) != ACK { j := EndGetsThrough(total, resp, k + 1, n, a + 1); }
    }
  }

  // ------------------------------------------------------------ the tenth attempt

  /** The receiver asks for the file, says nothing to the first m - 1 attempts and acknowledges the
      next. */
  function Late(m: nat): (r: nat -> Reading) {
    (i: nat) => if i == 0 then NAK as Reading else if i < m then TIMEOUT as Reading else ACK as Reading
  }

  /** The sender's answer to a response, when the log is so many ones. */
  lemma LogGrows(total: nat, resp: nat -> Reading, k: nat, s: SState, n: nat, s': SState)
    requires Dialogue(total, resp, k) == (s, Times(n, 1)) && Hear(s, total, resp(k)) == (s', [1])
    ensures Dialogue(total, resp, k + 1) == (s', Times(n + 1, 1))
  {
    DialogueNext(total, resp, k);
    OneMoreTime(n, 1);
  }

  lemma {:induction false} LateBlock(m: nat, a: nat)
    requires 1 <= a <= m && a <= RETRYMAX
    ensures Dialogue(1, Late(m), a) == (SState(1, a, Sending), Times(a, 1))
    decreases a
  {
    if a == 1 {
      assert Times(0, 1) == [];
      LogGrows(1, Late(m), 0, SInit, 0, SState(1, 1, Sending));
    } else {
      LateBlock(m, a - 1);
      LogGrows(1, Late(m), a - 1, SState(1, a - 1, Sending), a - 1, SState(1, a, Sending));
    }
  }

  lemma {:induction false} LateEnd(m: nat, a: nat)
    requires 1 <= a <= m && a <= RETRYMAX + 1
    ensures Dialogue(0, Late(m), a) == (SState(1, a - 1, Ending), Times(a, 1))
    decreases a
  {
    if a == 1 {
      assert Times(0, 1) == [];
      LogGrows(0, Late(m), 0, SInit, 0, SState(1, 0, Ending));
    } else {
      LateEnd(m, a - 1);
      LogGrows(0, Late(m), a - 1, SState(1, a - 2, Ending), a - 1, SState(1, a - 1, Ending));
    }
  }

  /** A block acknowledged at its tenth attempt: the sender has given up. */
  lemma TenthBlockFails()
    ensures Dialogue(1, Late(10), 11) == (SState(1, 10, Failed), Times(10, 1))
  {
    LateBlock(10, 10);
    DialogueNext(1, Late(10), 10);
  }

  /** An end of file acknowledged at its tenth attempt is a success, at its eleventh a failure. */
  lemma EleventhEndFails()
    ensures Dialogue(0, Late(10), 11) == (SState(1, 9, Succeeded), Times(10, 1))
    ensures Dialogue(0, Late(11), 12) == (SState(1, 10, Failed), Times(11, 1))
  {
    LateEnd(10, 10);
    DialogueNext(0, Late(10), 10);
    LateEnd(11, 11);
    DialogueNext(0, Late(11), 11);
  }
}
