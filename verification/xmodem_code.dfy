/** The loops of rfile and sfile over their buffer, each equal to the step functions of
    module Xmodem.  `c28` selects the sender of version 2.8c. */
module XmodemCode {
  import opened Basics
  import opened Sequences
  import opened Xmodem
  import opened XmodemAsync
  import opened XmodemAttempts

  class Receiver {
    var sectnum: Byte
    var errors: nat
    var nlflag: bool
    var recfin: bool
    var written: seq<seq<Byte>>
    var status: RStatus
    const buff: array<Byte>

    ghost predicate Valid() { buff.Length == BBUFSIZ + 1 }

    ghost function View(): (r: RState)
      reads this
    {
      RState(sectnum, errors, nlflag, recfin, written, status)
    }

    constructor ()
      ensures Valid() && View() == RInit && fresh(buff)
    {
      sectnum, errors, nlflag, recfin, written, status := 0, 0, false, false, [], Receiving;
      buff := new Byte[BBUFSIZ + 1](_ => 0);
    }

    /** The text-mode part of the data loop's body. */
    method TakeTextChar(c: Reading, last: bool, bufctr: nat) returns (k: nat)
      requires Valid() && bufctr < BBUFSIZ + 1 && (nlflag && c != LF ==> bufctr < BBUFSIZ)
      modifies this`nlflag, this`recfin, buff
      ensures k <= bufctr + (if old(nlflag) then 2 else 1) && k <= BBUFSIZ + 1
      ensures Unpacked(buff[..k], nlflag, recfin)
           == UnpackChar(Unpacked(old(buff[..bufctr]), old(nlflag), old(recfin)), c, last)
      ensures nlflag ==> last
    {
      k := bufctr;
      ghost var before := buff[..k];
      buff[k] := c % 256;
      if nlflag {
        nlflag := false;
        if c != LF {
          buff[k] := CR;
          k := k + 1;
          buff[k] := c % 256;
        }
      }
      ghost var out := buff[..k];
      assert out == if old(nlflag) && c != LF then before + [CR] else before;
      if last && c == CR {
        nlflag := true;
      } else if c == LF && k > 0 && buff[k - 1] == CR {
        buff[k - 1] := LF;
        assert buff[..k] == out[|out| - 1 := LF];
      } else if c == CTRLZ {
        recfin := true;
      } else if !recfin {
        k := k + 1;
        assert buff[..k] == out + [c % 256];
      }
    }

    /** After j characters of the packet. */
    ghost predicate Taken(tmode: bool, u0: Unpacked, data: Readings, j: nat, bufctr: nat)
      requires Valid() && j <= BBUFSIZ && bufctr <= BBUFSIZ + 1
      reads this, buff
    {
      if tmode then
        UnpackText(u0, data, j) == Unpacked(buff[..bufctr], nlflag, recfin) && (0 < j < BBUFSIZ ==> !nlflag)
      else
        bufctr == j && buff[..j] == Stored(data)[..j] && nlflag == u0.nlflag && recfin == u0.recfin
    }

    /** The data loop: fills buff from a packet and adds up its checksum, never
        writing past the buffer's 129 bytes. */
    method TakeData(tmode: bool, data: Readings) returns (bufctr: nat, checksum: Byte)
      requires Valid()
      modifies this`nlflag, this`recfin, buff
      ensures bufctr <= BBUFSIZ + 1 && checksum == Checksum(data)
      ensures Unpacked(buff[..bufctr], nlflag, recfin) == Unpack(tmode, old(nlflag), old(recfin), data)
    {
      bufctr, checksum := 0, 0;
      ghost var u0 := Unpacked([], nlflag, recfin);
      assert data[..BBUFSIZ] == data;
      var j := 0;
      while j < BBUFSIZ
        invariant 0 <= j <= BBUFSIZ && bufctr <= j + (if tmode && j > 0 then 1 else 0)
        invariant checksum == Checksum(data[..j])
        invariant Taken(tmode, u0, data, j, bufctr)
      {
        assert data[..j + 1][..j] == data[..j];
        checksum := (checksum + data[j]) % 256;
        if !tmode {
          buff[bufctr] := data[j] % 256;
          bufctr := bufctr + 1;
        } else {
          bufctr := TakeTextChar(data[j], j == BBUFSIZ - 1, bufctr);
        }
        j := j + 1;
      }
      assert Stored(data)[..BBUFSIZ] == Stored(data);
    }

    /** One turn of the receive loop. */
    method Turn(tmode: bool, ev: Incoming) returns (sent: seq<Reading>)
      requires Valid()
      modifies this, buff
      ensures Valid()
      ensures (View(), sent) == Receive(old(View()), tmode, ev)
    {
      var errorflag, fatalerror := false, false;
      sent := [];
      match ev {
        case Silence => errorflag := true;
        case EndOfText =>
        case Soh(p) =>
          if p.sect + p.comp == 255 {
            if p.sect == (sectnum + 1) % 256 {
              var bufctr, checksum := TakeData(tmode, p.data);
              if checksum == p.check {
                errors := 0;
                sectnum := p.sect;
                written := written + [buff[..bufctr]];
                sent := [ACK];
              } else {
                errorflag := true;
              }
            } else if p.sect == sectnum % 256 {
              sent := [ACK];
            } else {
              errorflag, fatalerror := true, true;
            }
          } else {
            errorflag := true;
          }
      }
      if errorflag {
        errors := errors + 1;
        sent := if fatalerror then [CAN, NAK] else [NAK];
      }
      if ev == EndOfText && errors < ERRORMAX {
        status := Complete;
        sent := [ACK];
      } else if ev == EndOfText || (errorflag && errors == ERRORMAX) {
        status := TooManyErrors;
      } else if fatalerror {
        status := FatalError;
      }
    }
  }

  // ------------------------------------------------------------ what sfile reads from its file

  /** The characters still to be put into blocks when the file f has been read up to pos;
      a line feed may be left over. */
  function PendingAt(tmode: bool, f: seq<Byte>, pos: nat, leftover: bool): (r: seq<Byte>)
    requires pos <= |f|
  {
    if tmode then (if leftover then [LF] else []) + Expand(f[pos..]) else f[pos..]
  }

  lemma PendingAdvances(tmode: bool, f: seq<Byte>, pos: nat)
    requires pos < |f|
    ensures var p := PendingAt(tmode, f, pos, false);
      if tmode && f[pos] == LF then
        p == [CR] + PendingAt(tmode, f, pos + 1, true) && p == [CR, LF] + PendingAt(tmode, f, pos + 1, false)
      else p == [f[pos]] + PendingAt(tmode, f, pos + 1, false)
  {
    assert f[pos..][1..] == f[pos + 1..];
    assert [CR] + [LF] == [CR, LF];
  }

  /** The buffer holds `taken`, then padding up to k, then what it held before. */
  ghost predicate Filled(buff: seq<Byte>, taken: seq<Byte>, k: nat, tmode: bool, stale: seq<Byte>) {
    && |buff| == |stale| == BBUFSIZ && |taken| <= k <= BBUFSIZ
    && (forall i :: 0 <= i < |taken| ==> buff[i] == taken[i])
    && (forall i :: |taken| <= i < BBUFSIZ ==> buff[i] == if tmode && i < k then CTRLZ else stale[i])
  }

  /** A buffer filled to the end holds the next block. */
  lemma FilledIsBlock(buff: seq<Byte>, taken: seq<Byte>, rest: seq<Byte>, tmode: bool, stale: seq<Byte>)
    requires Filled(buff, taken, BBUFSIZ, tmode, stale) && (|taken| < BBUFSIZ ==> rest == [])
    ensures var p := taken + rest;
      if |p| >= BBUFSIZ then buff == p[..BBUFSIZ] && rest == p[BBUFSIZ..]
      else taken == p && buff == p + if tmode then CtrlZs(BBUFSIZ - |p|) else stale[|p|..]
  {}

  class Sender {
    const file: seq<Byte>
    const tmode: bool
    const c28: bool
    var pos: nat
    var nlflag: bool
    var sendfin: bool
    var sectnum: nat
    const buff: array<Byte>

    ghost predicate Valid()
      reads this
    {
      buff.Length == BBUFSIZ && pos <= |file| && (nlflag ==> tmode)
    }

    /** The characters not yet put into a block. */
    ghost function Pending(): (r: seq<Byte>)
      reads this
      requires pos <= |file|
    {
      PendingAt(tmode, file, pos, nlflag)
    }

    constructor (file: seq<Byte>, tmode: bool, c28: bool, buff: array<Byte>)
      requires buff.Length == BBUFSIZ
      ensures Valid() && pos == 0 && !nlflag && !sendfin && sectnum == 1
      ensures this.file == file && this.tmode == tmode && this.c28 == c28 && this.buff == buff
    {
      this.file, this.tmode, this.c28, this.buff := file, tmode, c28, buff;
      pos, nlflag, sendfin, sectnum := 0, false, false, 1;
    }

    /** What the fill loop does at the end of the file. */
    method PadStep(bufctr: nat, ghost taken: seq<Byte>, ghost stale: seq<Byte>) returns (k: nat)
      requires Valid() && bufctr < BBUFSIZ && pos == |file| && !nlflag
      requires Filled(buff[..], taken, bufctr, tmode, stale)
      modifies this`sendfin, buff
      ensures sendfin && k == (if c28 && !tmode && bufctr == 0 then 0 else bufctr + 1)
      ensures Filled(buff[..], taken, k, tmode, stale)
    {
      sendfin := true;
      k := bufctr;
      if tmode {
        buff[k] := CTRLZ;
        k := k + 1;
      } else if c28 && k == 0 {
      } else {
        k := k + 1;
      }
    }

    method Put(c: Byte, k: nat, ghost taken: seq<Byte>, ghost stale: seq<Byte>)
      requires buff.Length == BBUFSIZ && |taken| == k < BBUFSIZ && Filled(buff[..], taken, k, tmode, stale)
      modifies buff
      ensures Filled(buff[..], taken + [c], k + 1, tmode, stale)
    {
      buff[k] := c;
    }

    /** What it does with the next character. */
    method CopyStep(bufctr: nat, ghost taken: seq<Byte>, ghost stale: seq<Byte>) returns (k: nat, ghost got: seq<Byte>)
      requires Valid() && bufctr < BBUFSIZ && pos < |file| && !nlflag
      requires |taken| == bufctr && Filled(buff[..], taken, bufctr, tmode, stale)
      modifies this`pos, this`nlflag, buff
      ensures Valid() && got != [] && k == bufctr + |got| && (nlflag ==> k == BBUFSIZ)
      ensures old(Pending()) == got + Pending()
      ensures Filled(buff[..], taken + got, k, tmode, stale)
    {
      k := bufctr;
      var c := file[pos];
      PendingAdvances(tmode, file, pos);
      pos := pos + 1;
      if tmode && c == LF {
        Put(CR, k, taken, stale);
        k, got := k + 1, [CR];
        if k < BBUFSIZ {
          Put(LF, k, taken + [CR], stale);
          assert taken + [CR] + [LF] == taken + [CR, LF];
          k, got := k + 1, [CR, LF];
        } else {
          nlflag := true;
        }
      } else {
        Put(c, k, taken, stale);
        k, got := k + 1, [c];
      }
    }

    /** At the end of the file nothing is pending. */
    lemma PendingAtEnd()
      requires Valid() && pos == |file| && !nlflag
      ensures Pending() == []
    {}

    method LeftoverStep(ghost stale: seq<Byte>) returns (bufctr: nat, ghost got: seq<Byte>)
      requires Valid() && Filled(buff[..], [], 0, tmode, stale)
      modifies this`nlflag, buff
      ensures Valid() && bufctr == |got| <= 1 && !nlflag && old(Pending()) == got + Pending()
      ensures Filled(buff[..], got, bufctr, tmode, stale)
    {
      bufctr, got := 0, [];
      if nlflag {
        buff[0] := LF;
        bufctr, got := 1, [LF];
        nlflag := false;
      }
    }

    /** Between two passes of the fill loop: of the characters p, those taken are in the buffer. */
    ghost predicate Filling(bufctr: nat, taken: seq<Byte>, p: seq<Byte>, stale: seq<Byte>)
      reads this, buff
    {
      && Valid() && p == taken + Pending()
      && Filled(buff[..], taken, bufctr, tmode, stale)
      && (|taken| < bufctr ==> sendfin)
      && (sendfin ==> Pending() == [] && (|taken| < bufctr || bufctr == 0))
      && (bufctr < BBUFSIZ ==> !nlflag)
      && (c28 && !tmode && bufctr > 0 ==> taken != [])
    }

    /** One pass of the fill loop. */
    method FillPass(bufctr: nat, ghost taken: seq<Byte>, ghost p: seq<Byte>, ghost stale: seq<Byte>)
      returns (k: nat, ghost taken': seq<Byte>)
      requires Filling(bufctr, taken, p, stale) && bufctr < BBUFSIZ && (sendfin ==> bufctr > 0)
      modifies this`pos, this`nlflag, this`sendfin, buff
      ensures Filling(k, taken', p, stale)
      ensures if k == 0 then sendfin && c28 && !tmode else k > bufctr
    {
      if pos == |file| {
        PendingAtEnd();
        taken' := taken;
        k := PadStep(bufctr, taken, stale);
      } else {
        ghost var rest, got := Pending(), [];
        k, got := CopyStep(bufctr, taken, stale);
        Associative(taken, got, Pending());
        taken' := taken + got;
      }
    }

    /** The fill loop: takes pending characters while there are any, then pads. */
    method FillLoop() returns (bufctr: nat, ghost taken: seq<Byte>)
      requires Valid() && !sendfin
      modifies this`pos, this`nlflag, this`sendfin, buff
      ensures Filling(bufctr, taken, old(Pending()), old(buff[..]))
      ensures bufctr == BBUFSIZ || (bufctr == 0 && sendfin && c28 && !tmode)
    {
      ghost var p, stale := Pending(), buff[..];
      bufctr, taken := LeftoverStep(stale);
      while bufctr < BBUFSIZ
        invariant Filling(bufctr, taken, p, stale) && (sendfin ==> bufctr > 0)
        decreases BBUFSIZ - bufctr
      {
        bufctr, taken := FillPass(bufctr, taken, p, stale);
        if bufctr == 0 { return; }
      }
    }

    /** Fills the buffer with the next block; nothing only when 2.8c finds nothing left. */
    method Fill() returns (bufctr: nat)
      requires Valid() && !sendfin
      modifies this`pos, this`nlflag, this`sendfin, buff
      ensures Valid()
      ensures var p := old(Pending());
        if |p| >= BBUFSIZ then
          bufctr == BBUFSIZ && buff[..] == p[..BBUFSIZ] && Pending() == p[BBUFSIZ..] && !sendfin
        else if p == [] && c28 && !tmode then
          bufctr == 0 && sendfin
        else
          && bufctr == BBUFSIZ && sendfin
          && buff[..] == p + if tmode then CtrlZs(BBUFSIZ - |p|) else old(buff[..])[|p|..]
    {
      ghost var taken, stale := [], buff[..];
      bufctr, taken := FillLoop();
      if bufctr == BBUFSIZ { FilledIsBlock(buff[..], taken, Pending(), tmode, stale); }
    }

    /** The packet for the buffer: number, complement, data, and the sum formed on the way. */
    method Transmit() returns (p: Packet)
      requires Valid()
      ensures p == MakePacket(sectnum, buff[..])
    {
      var checksum: int, bufctr := 0, 0;
      while bufctr < BBUFSIZ
        invariant 0 <= bufctr <= BBUFSIZ && checksum == Checksum(buff[..bufctr])
      {
        assert buff[..bufctr + 1][..bufctr] == buff[..bufctr];
        checksum := (checksum + buff[bufctr]) % 256;
        bufctr := bufctr + 1;
      }
      assert buff[..BBUFSIZ] == buff[..];
      p := Packet(sectnum % 256, (-1 - sectnum) % 256, buff[..], checksum);
    }

    /** Waits for the receiver's first NAK. */
    method Synchronize(resp: nat -> Reading, ghost total: nat) returns (k: nat, ok: bool)
      ensures k <= RETRYMAX + 1
      ensures var (s, log) := Dialogue(total, resp, k);
        if ok then (s, log) == Present(1, total) else s.status == Failed && log == []
    {
      var attempts := 0;
      var x := resp(0);
      assert forall sent: seq<nat> :: [] + sent == sent;
      k := 1;
      while x != NAK
        invariant 1 <= k == attempts + 1 && attempts <= RETRYMAX && x == resp(k - 1)
        invariant Dialogue(total, resp, k - 1) == (SState(1, attempts, Syncing), [])
        decreases RETRYMAX - attempts
      {
        attempts := attempts + 1;
        if attempts > RETRYMAX { return k, false; }
        x := resp(k);
        k := k + 1;
      }
      ok := true;
    }

    /** Sends the block in the buffer until it is acknowledged or there were too many
        attempts; an acknowledgement of the last of the RETRYMAX attempts comes too late. */
    method SendBlock(resp: nat -> Reading, k0: nat, line0: seq<Incoming>, ghost all: seq<Block>)
      returns (k: nat, line: seq<Incoming>, ok: bool)
      requires Valid() && 1 <= sectnum <= |all| && buff[..] == all[sectnum - 1]
      requires Said(all, resp, k0, line0, sectnum)
      ensures k0 < k <= k0 + RETRYMAX
      ensures if ok then Said(all, resp, k, line, sectnum + 1) else Over(all, resp, k, line, Failed)
      ensures ok <==> AckedWithin(resp, k0, RETRYMAX - 1)
    {
      k, line, ok := k0, line0, false;
      var attempts := 0;
      ghost var heard := AckedWithin(resp, k, RETRYMAX - 1);
      while true
        invariant attempts < RETRYMAX && k == k0 + attempts
        invariant heard <==> AckedWithin(resp, k, RETRYMAX - 1 - attempts)
        invariant Saying(all, resp, k, line, SState(sectnum, attempts + 1, Sending))
        decreases RETRYMAX - attempts
      {
        var p := Transmit();
        attempts := attempts + 1;
        SaidBlock(all, resp, k, line, SState(sectnum, attempts, Sending), p);
        line := line + [Soh(p)];
        if attempts < RETRYMAX { AckedLater(resp, k, RETRYMAX - attempts); }
        var x := resp(k);
        k := k + 1;
        if x == CAN || attempts == RETRYMAX { return; }
        if x == ACK { return k, line, true; }
      }
    }

    /** Says that the file is over until the receiver acknowledges it; an acknowledgement of the
        last attempt, the one after RETRYMAX others, comes too late. */
    method SendEnd(resp: nat -> Reading, k0: nat, line0: seq<Incoming>, ghost all: seq<Block>)
      returns (k: nat, line: seq<Incoming>, ok: bool)
      requires Said(all, resp, k0, line0, |all| + 1)
      ensures k0 < k <= k0 + RETRYMAX + 1
      ensures Over(all, resp, k, line, if ok then Succeeded else Failed)
      ensures ok <==> AckAmong(resp, k0, RETRYMAX)
    {
      k, line := k0, line0 + [EndOfText];
      var attempts := 0;
      ghost var log := Dialogue(|all|, resp, k).1;
      while true
        invariant attempts <= RETRYMAX && k == k0 + attempts
        invariant forall i: nat :: k0 <= i < k ==> resp(i) != ACK
        invariant Dialogue(|all|, resp, k) == (SState(|all| + 1, attempts, Ending), log)
        invariant |log| == |line| && OnLine(all, log, line)
        decreases RETRYMAX - attempts
      {
        var x := resp(k);
        k := k + 1;
        if x == ACK { return k, line, attempts < RETRYMAX; }
        attempts := attempts + 1;
        if attempts > RETRYMAX { return k, line, false; }
        line := line + [EndOfText];
        log := log + [|all| + 1];
      }
    }

    /** The whole of sfile, reading the responses `resp`: it ends, and what it has put on the
        line and concluded is what the step function makes of the same responses. */
    method SendFile(resp: nat -> Reading) returns (k: nat, line: seq<Incoming>, ok: bool)
      requires Valid() && pos == 0 && !nlflag && !sendfin && sectnum == 1
      modifies this, buff
      ensures var all := FileBlocks(tmode, c28, file, old(buff[..]));
        && Over(all, resp, k, line, if ok then Succeeded else Failed)
        && k <= RETRYMAX * |all| + 22
    {
      assert file[0..] == file;
      ghost var all := FileBlocks(tmode, c28, file, buff[..]);
      line := [];
      k, ok := Synchronize(resp, |all|);
      if !ok { return; }
      assert all[0..] == all && Pending() == if tmode then Expand(file) else file;
      k, line, ok := SendAll(resp, k, line, all);
      if !ok { return; }
      k, line, ok := SendEnd(resp, k, line, all);
    }

    /** sfile's outer loop. */
    method SendAll(resp: nat -> Reading, k0: nat, line0: seq<Incoming>, ghost all: seq<Block>)
      returns (k: nat, line: seq<Incoming>, ok: bool)
      requires Between(all, resp, k0, line0, true) && sectnum == 1 && k0 <= RETRYMAX + 1
      modifies this`pos, this`nlflag, this`sendfin, this`sectnum, buff
      ensures k <= RETRYMAX * |all| + 11
      ensures if ok then Said(all, resp, k, line, |all| + 1) else Over(all, resp, k, line, Failed)
    {
      k, line, ok := k0, line0, true;
      var more := true;
      while more
        invariant Between(all, resp, k, line, more)
        invariant k <= RETRYMAX * (sectnum - 1) + 11 && sectnum <= |all| + 1
        decreases |all| - sectnum, more
      {
        k, line, ok, more := SendNext(resp, k, line, all);
        if !ok { return; }
      }
    }

    lemma BlocksNext(all: seq<Block>, i: nat, b: Block, rest: seq<Block>)
      requires i <= |all| && all[i..] == [b] + rest
      ensures i < |all| && all[i] == b && all[i + 1..] == rest
    {
      assert all[i..][0] == b && all[i..][1..] == rest;
    }

    /** At the head of sfile's outer loop. */
    ghost predicate Between(all: seq<Block>, resp: nat -> Reading, k: nat, line: seq<Incoming>, more: bool)
      reads this, buff
    {
      && Valid() && 1 <= sectnum && Said(all, resp, k, line, sectnum)
      && if more then
           !sendfin && sectnum <= |all| + 1 && Blocks(tmode, c28, Pending(), buff[..]) == all[sectnum - 1..]
         else sectnum == |all| + 1
    }

    /** One pass of sfile's outer loop. */
    method SendNext(resp: nat -> Reading, k0: nat, line0: seq<Incoming>, ghost all: seq<Block>)
      returns (k: nat, line: seq<Incoming>, ok: bool, more: bool)
      requires Between(all, resp, k0, line0, true)
      modifies this`pos, this`nlflag, this`sendfin, this`sectnum, buff
      ensures k <= k0 + RETRYMAX * (sectnum - old(sectnum)) && sectnum <= |all| + 1
      ensures if ok then Between(all, resp, k, line, more) && sectnum == old(sectnum)
               + (if more || k > k0 then 1 else 0)
              else Over(all, resp, k, line, Failed)
    {
      k, line, ok, more := k0, line0, true, false;
      var bufctr := Fill();
      if bufctr == 0 { return; }
      BlocksNext(all, sectnum - 1, buff[..], if sendfin then [] else Blocks(tmode, c28, Pending(), buff[..]));
      k, line, ok := SendBlock(resp, k, line, all);
      sectnum := sectnum + 1;
      more := !sendfin;
    }
  }

  /** Every transmission on the line is the numbered block, or the end marker. */
  ghost predicate OnLine(all: seq<Block>, log: seq<nat>, line: seq<Incoming>) {
    |line| <= |log| && forall i :: 0 <= i < |line| ==> line[i] == Sent(all, log[i])
  }

  /** After k responses the sender's variables are s, and number s.n is yet to be transmitted. */
  ghost predicate Saying(all: seq<Block>, resp: nat -> Reading, k: nat, line: seq<Incoming>, s: SState) {
    var (s', log) := Dialogue(|all|, resp, k);
    s' == s && |log| == |line| + 1 && log[|line|] == s.n && OnLine(all, log, line)
  }

  /** After k responses number n is the next thing to say. */
  ghost predicate Said(all: seq<Block>, resp: nat -> Reading, k: nat, line: seq<Incoming>, n: nat) {
    Saying(all, resp, k, line, Present(n, |all|).0)
  }

  /** After k responses the conversation is over. */
  ghost predicate Over(all: seq<Block>, resp: nat -> Reading, k: nat, line: seq<Incoming>, status: SStatus) {
    var (s, log) := Dialogue(|all|, resp, k);
    s.status == status && |log| == |line| && OnLine(all, log, line)
  }

  /** A block has been said again: what the next response makes of it. */
  lemma SaidBlock(all: seq<Block>, resp: nat -> Reading, k: nat, line: seq<Incoming>, s: SState, p: Packet)
    requires Saying(all, resp, k, line, s) && s.status == Sending && 1 <= s.n <= |all|
      && p == MakePacket(s.n, all[s.n - 1])
    ensures var longer, x := line + [Soh(p)], resp(k);
      if x == CAN || s.attempts == RETRYMAX then Over(all, resp, k + 1, longer, Failed)
      else if x == ACK then Said(all, resp, k + 1, longer, s.n + 1)
      else Saying(all, resp, k + 1, longer, s.(attempts := s.attempts + 1))
  {
    DialogueNext(|all|, resp, k);
  }
}
