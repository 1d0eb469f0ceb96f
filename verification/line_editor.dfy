/** ddb's input line editor: a buffer edited in place while the characters sent to the
    terminal keep the screen in step with it. */
module LineEditor {
  import opened Basics

  const BELL := 7
  const BACKUP := 8
  const NL := 10
  const RETURN := 13
  const ESCAPE := 27
  const BLANK := 32
  const RUBOUT := 127

  function Ctrl(c: char): (r: int) { c as int % 32 }

  predicate Printable(c: int) { 32 <= c <= 126 }
  predicate AllPrintable(s: seq<int>) { forall i :: 0 <= i < |s| ==> Printable(s[i]) }

  // ------------------------------------------------------------ an ideal terminal

  /** The current line, blank wherever nothing was written, and the cursor. */
  datatype Term = Term(cells: nat -> int, cur: nat)

  const Cleared := Term(_ => BLANK, 0)

  function Display(t: Term, c: int): (r: Term) {
    if c == BACKUP then t.(cur := if t.cur > 0 then t.cur - 1 else 0)
    else if c == NL then Cleared
    else if c == BELL then t
    else Term((i: nat) => if i == t.cur then c else t.cells(i), t.cur + 1)
  }

  /** The screen after all the characters sent to it. */
  function Screen(out: seq<int>): (r: Term) {
    if out == [] then Cleared else Display(Screen(out[..|out| - 1]), out[|out| - 1])
  }

  /** The line shows the text and then blanks, with the cursor at the given place. */
  ghost predicate Shows(t: Term, text: seq<int>, cur: nat) {
    t.cur == cur && forall i: nat :: t.cells(i) == if i < |text| then text[i] else BLANK
  }

  // ------------------------------------------------------------ what the keys mean

  /** The line as the text before and after the cursor. */
  datatype Zip = Zip(before: seq<int>, after: seq<int>)

  function Text(z: Zip): (r: seq<int>) { z.before + z.after }

  /** Without its final blanks, or without its final characters that are not blank. */
  function DropRun(s: seq<int>, blanks: bool): (r: seq<int>) {
    if s != [] && (s[|s| - 1] == BLANK) == blanks then DropRun(s[..|s| - 1], blanks) else s
  }

  predicate MovesCursor(c: int) { c in {Ctrl('a'), Ctrl('b'), Ctrl('e'), Ctrl('f')} }

  function Move(z: Zip, c: int): (r: Zip) {
    var b, a := z.before, z.after;
    if c == Ctrl('b') then if b != [] then Zip(b[..|b| - 1], [b[|b| - 1]] + a) else z
    else if c == Ctrl('f') then if a != [] then Zip(b + [a[0]], a[1..]) else z
    else if c == Ctrl('a') then Zip([], b + a)
    else Zip(b + a, [])
  }

  /** One key on a line of at most `max` characters. */
  function Key(max: nat, z: Zip, c: int): (r: Zip) {
    var b, a := z.before, z.after;
    var n := |b|;
    if MovesCursor(c) then Move(z, c)
    else if c == Ctrl('h') || c == RUBOUT then if n > 0 then Zip(b[..n - 1], a) else z
    else if c == Ctrl('d') then if a != [] then Zip(b, a[1..]) else z
    else if c == Ctrl('u') || c == Ctrl('c') then Zip([], [])
    else if c == Ctrl('k') then Zip(b, [])
    else if c == Ctrl('t') then if n >= 2 then Zip(b[..n - 2] + [b[n - 1], b[n - 2]], a) else z
    else if c == Ctrl('w') then Zip(DropRun(DropRun(b, true), false), a)
    else if Printable(c) && n + |a| < max then Zip(b + [c], a)
    else z
  }

  /** The line and how much of an escape sequence has been seen. */
  datatype Line = Line(z: Zip, esc: nat)

  /** Cursor keys arrive as ESC [ C or ESC O C; None when no key has been completed. */

  function Translate(esc: nat, c: int): (r: (nat, Option<int>)) {
    if esc == 1 then (if c == '[' as int || c == 'O' as int then 2 else 0, None)
    else if esc == 2 then
      (0, if c == 'A' as int then Some(Ctrl('p')) else if c == 'B' as int then Some(Ctrl('n'))
          else if c == 'C' as int then Some(Ctrl('f')) else if c == 'D' as int then Some(Ctrl('b')) else None)
    else if c == ESCAPE then (1, None)
    else (0, Some(c))
  }

  function Press(max: nat, l: Line, c: int): (r: Line) {
    var (esc, k) := Translate(l.esc, c);
    Line(if k.Some? then Key(max, l.z, k.value) else l.z, esc)
  }

  predicate EndsLine(esc: nat, c: int) {
    var k := Translate(esc, c).1;
    k.Some? && k.value in {NL, RETURN, -1}
  }

  predicate RecallsHistory(esc: nat, c: int) {
    var k := Translate(esc, c).1;
    k.Some? && k.value in {Ctrl('p'), Ctrl('n')}
  }

  // ------------------------------------------------------------ the editor

  lemma GapClosed(o: seq<int>, b: seq<int>, lc: nat, le: nat, n: nat)
    requires |o| == |b| && lc <= le <= |o| && n <= le - lc
    requires forall i :: 0 <= i < lc ==> b[i] == o[i]
    requires forall i :: lc <= i < le - n ==> b[i] == o[i + n]
    ensures b[..lc] == o[..lc] && b[lc..le - n] == o[lc..le][n..]
  {}

  class Editor {
    const buf: array<int>     // db_lbuf_start; its last two places are kept for NL and NUL
    var lc: nat               // db_lc
    var le: nat               // db_le
    var escstate: nat
    var out: seq<int>         // everything given to cnputc

    ghost predicate Sane()
      reads this, buf
    {
      && buf.Length >= 2 && lc <= le <= buf.Length - 2 && escstate <= 2
      && forall i :: 0 <= i < le ==> Printable(buf[i])
    }

    ghost function T(): (r: Term)
      reads `out
    {
      Screen(out)
    }

    /** The screen is in step with the buffer. */
    ghost predicate Valid()
      reads this, buf
    {
      Sane() && Shows(T(), buf[..le], lc)
    }

    ghost function Z(): (r: Zip)
      requires lc <= le <= buf.Length
      reads this, buf
    {
      Zip(buf[..lc], buf[lc..le])
    }

    constructor (buf: array<int>)
      requires buf.Length >= 2
      ensures Valid() && this.buf == buf && Z() == Zip([], []) && escstate == 0 && out == []
    {
      this.buf := buf;
      lc, le, escstate, out := 0, 0, 0, [];
    }

    method Cnputc(c: int)
      modifies `out
      ensures out == old(out) + [c] && T() == Display(old(T()), c)
    {
      out := out + [c];
    }

    /** db_putnchars with BACKUP: the cursor moves left, the line stays. */
    method Backup(n: nat)
      requires n <= T().cur
      modifies `out
      ensures old(out) <= out && T() == Term(old(T()).cells, old(T()).cur - n)
    {
      var count := n;
      while count > 0
        invariant 0 <= count <= n && old(out) <= out
        invariant T() == Term(old(T()).cells, old(T()).cur - (n - count))
      {
        Cnputc(BACKUP);
        count := count - 1;
      }
    }

    /** db_putnchars with BLANK */
    method PutBlanks(n: nat)
      modifies `out
      ensures old(out) <= out && T().cur == old(T()).cur + n
      ensures forall i: nat :: T().cells(i) == if old(T()).cur <= i < old(T()).cur + n then BLANK else old(T()).cells(i)
    {
      var count := 0;
      while count < n
        invariant 0 <= count <= n && old(out) <= out && T().cur == old(T()).cur + count
        invariant forall i: nat ::
          T().cells(i) == if old(T()).cur <= i < old(T()).cur + count then BLANK else old(T()).cells(i)
      {
        Cnputc(BLANK);
        count := count + 1;
      }
    }

    /** db_putstring: shows a stretch of the buffer from the cursor on. */
    method PutString(from: nat, count: nat)
      requires from + count <= buf.Length && forall i :: from <= i < from + count ==> Printable(buf[i])
      modifies `out
      ensures old(out) <= out && T().cur == old(T()).cur + count
      ensures forall i: nat ::
        T().cells(i) == if old(T()).cur <= i < old(T()).cur + count then buf[from + (i - old(T()).cur)]
                       else old(T()).cells(i)
    {
      var s := 0;
      while s < count
        invariant 0 <= s <= count && old(out) <= out && T().cur == old(T()).cur + s
        invariant forall i: nat ::
          T().cells(i) == if old(T()).cur <= i < old(T()).cur + s then buf[from + (i - old(T()).cur)]
                         else old(T()).cells(i)
      {
        Cnputc(buf[from + s]);
        s := s + 1;
      }
    }

    /** The copying loop of db_delete: closes a gap of n in the buffer and shows what moves. */
    method CloseGap(n: nat)
      requires Valid() && n <= le - lc
      modifies `out, buf
      ensures old(out) <= out && T().cur == le - n
      ensures forall i :: 0 <= i < lc || le - n <= i < le ==> buf[i] == old(buf[i])
      ensures forall i :: lc <= i < le - n ==> buf[i] == old(buf[i + n])
      ensures forall i :: 0 <= i < le ==> Printable(buf[i])
      ensures forall i: nat :: T().cells(i) == if i < le - n then buf[i] else if i < le then old(buf[i]) else BLANK
    {
      ghost var o := buf[..];
      var p := lc;
      while p < le - n
        invariant lc <= p <= le - n && old(out) <= out
        invariant Closing(o, p, n)
      {
        CloseOne(o, p, n);
        p := p + 1;
      }
    }

    /** The gap has moved up to p, in the buffer and on the screen. */
    ghost predicate Closing(o: seq<int>, p: nat, n: nat)
      reads this, buf
    {
      && Sane() && |o| == buf.Length && lc <= p && p + n <= le && T().cur == p
      && (forall i :: lc <= i < p ==> buf[i] == o[i + n])
      && (forall i :: 0 <= i < lc || p <= i < le ==> buf[i] == o[i])
      && forall i: nat :: T().cells(i) == if i < p then buf[i] else if i < le then o[i] else BLANK
    }

    method CloseOne(ghost o: seq<int>, p: nat, n: nat)
      requires Closing(o, p, n) && p + n < le
      modifies `out, buf
      ensures old(out) <= out && Closing(o, p + 1, n)
    {
      assert buf[p + n] == o[p + n];
      buf[p] := buf[p + n];
      Cnputc(buf[p]);
    }

    /** The rest of db_delete: blanks out the end of the line and goes back to the cursor. */
    method Shorten(n: nat)
      requires Sane() && n <= le - lc && T().cur == le - n
      requires forall i: nat :: (i < le - n ==> T().cells(i) == buf[i]) && (le <= i ==> T().cells(i) == BLANK)
      modifies `le, `out
      ensures Valid() && old(out) <= out && le == old(le) - n
    {
      PutBlanks(n);
      Backup(le - lc);
      le := le - n;
    }

    /** db_delete at the cursor: closes the gap in the buffer and on the screen. */
    method DeleteForward(n: nat)
      requires Valid() && n <= le - lc
      modifies `le, `out, buf
      ensures Valid() && old(out) <= out && Z() == Zip(old(Z()).before, old(Z()).after[n..])
    {
      ghost var o := buf[..];
      CloseGap(n);
      GapClosed(o, buf[..], lc, le, n);
      Shorten(n);
    }

    /** db_delete before the cursor. */
    method DeleteBackward(n: nat)
      requires Valid() && n <= lc
      modifies `lc, `le, `out, buf
      ensures Valid() && old(out) <= out && Z() == Zip(old(Z()).before[..old(lc) - n], old(Z()).after)
    {
      lc := lc - n;
      Backup(n);
      DeleteForward(n);
    }

    method Left()
      requires Valid() && lc > 0
      modifies `lc, `out
      ensures Valid() && old(out) <= out && lc == old(lc) - 1
      ensures var b := old(Z()).before; Z() == Zip(b[..lc], [b[lc]] + old(Z()).after)
    {
      Cnputc(BACKUP);
      lc := lc - 1;
    }

    method Right()
      requires Valid() && lc < le
      modifies `lc, `out
      ensures Valid() && old(out) <= out && lc == old(lc) + 1
      ensures var a := old(Z()).after; Z() == Zip(old(Z()).before + [a[0]], a[1..])
    {
      Cnputc(buf[lc]);
      lc := lc + 1;
    }

    method ToStart()
      requires Valid()
      modifies `lc, `out
      ensures Valid() && old(out) <= out && Z() == Zip([], Text(old(Z())))
    {
      while lc > 0
        invariant Valid() && old(out) <= out
      {
        Left();
      }
    }

    method ToEnd()
      requires Valid()
      modifies `lc, `out
      ensures Valid() && old(out) <= out && Z() == Zip(Text(old(Z())), [])
    {
      while lc < le
        invariant Valid() && old(out) <= out
      {
        Right();
      }
    }

    /** Exchanges the two characters before the cursor. */
    method Twiddle()
      requires Valid() && lc >= 2
      modifies `out, buf
      ensures Valid() && old(out) <= out
      ensures var b := old(Z()).before; Z() == Zip(b[..lc - 2] + [b[lc - 1], b[lc - 2]], old(Z()).after)
    {
      var c := buf[lc - 2];
      buf[lc - 2] := buf[lc - 1];
      buf[lc - 1] := c;
      Cnputc(BACKUP);
      Cnputc(BACKUP);
      Cnputc(buf[lc - 2]);
      Cnputc(buf[lc - 1]);
    }

    /** One of the two loops of ^W: erases blanks, or other characters, before the cursor. */
    method EraseRun(blanks: bool)
      requires Valid()
      modifies `lc, `le, `out, buf
      ensures Valid() && old(out) <= out
      ensures Z() == Zip(DropRun(old(Z()).before, blanks), old(Z()).after)
    {
      while lc > 0 && (buf[lc - 1] == BLANK) == blanks
        invariant Valid() && old(out) <= out && Z().after == old(Z()).after
        invariant DropRun(Z().before, blanks) == DropRun(old(Z()).before, blanks)
        decreases lc
      {
        DeleteBackward(1);
      }
    }

    /** Shifts the text after the cursor up by one place and puts a character there. */
    method MakeRoom(c: int)
      requires Sane() && le < buf.Length - 2
      modifies buf
      ensures forall i :: 0 <= i < lc ==> buf[i] == old(buf[i])
      ensures buf[lc] == c
      ensures forall i :: lc < i <= le ==> buf[i] == old(buf[i - 1])
    {
      var p := le;
      while p > lc
        invariant lc <= p <= le
        invariant forall i :: 0 <= i < p ==> buf[i] == old(buf[i])
        invariant forall i :: p < i <= le ==> buf[i] == old(buf[i - 1])
      {
        buf[p] := buf[p - 1];
        p := p - 1;
      }
      buf[lc] := c;
    }

    /** Shows the character just put before the cursor and what follows it. */
    method ShowFrom()
      requires Sane() && 0 < lc && T().cur == lc - 1
      requires forall i: nat :: (i < lc - 1 ==> T().cells(i) == buf[i]) && (le <= i ==> T().cells(i) == BLANK)
      modifies `out
      ensures Valid() && old(out) <= out
    {
      Cnputc(buf[lc - 1]);
      PutString(lc, le - lc);
      Backup(le - lc);
    }

    /** Makes room at the cursor and shows the new character and what follows it. */
    method Insert(c: int)
      requires Valid() && le < buf.Length - 2 && Printable(c)
      modifies `lc, `le, `out, buf
      ensures Valid() && old(out) <= out && Z() == Zip(old(Z()).before + [c], old(Z()).after)
    {
      MakeRoom(c);
      assert forall i :: 0 <= i <= le ==> Printable(buf[i]);
      assert buf[..lc + 1] == old(buf[..lc]) + [c] && buf[lc + 1..le + 1] == old(buf[lc..le]);
      lc := lc + 1;
      le := le + 1;
      ShowFrom();
    }

    /** ^R: starts a fresh line on the terminal and shows the buffer again. */
    method Redraw()
      requires Valid()
      modifies `out
      ensures Valid() && old(out) <= out
    {
      Cnputc('^' as int);
      Cnputc('R' as int);
      Cnputc(NL);
      if le > 0 {
        PutString(0, le);
        Backup(le - lc);
      }
    }

    /** ^U and ^C: deletes up to the cursor and falls through to ^K. */
    method Kill(whole: bool)
      requires Valid()
      modifies `lc, `le, `out, buf
      ensures Valid() && old(out) <= out && Z() == Zip(if whole then [] else old(Z()).before, [])
    {
      if whole && lc > 0 { DeleteBackward(lc); }
      if lc < le { DeleteForward(le - lc); }
    }

    method MoveCursor(c: int)
      requires Valid() && MovesCursor(c)
      modifies `lc, `out
      ensures Valid() && old(out) <= out && Z() == Move(old(Z()), c)
    {
      if c == Ctrl('b') {
        if lc > 0 { Left(); }
      } else if c == Ctrl('f') {
        if lc < le { Right(); }
      } else if c == Ctrl('a') {
        ToStart();
      } else {
        ToEnd();
      }
    }

    /** The switch of db_inputchar on a completed key that stays on the line. */
    method Edit(c: int)
      requires Valid() && c !in {Ctrl('p'), Ctrl('n'), NL, RETURN, -1, ESCAPE}
      modifies `lc, `le, `out, buf
      ensures Valid() && old(out) <= out && Z() == Key(buf.Length - 2, old(Z()), c)
    {
      if MovesCursor(c) {
        MoveCursor(c);
      } else if c == Ctrl('h') || c == RUBOUT {
        if lc > 0 { DeleteBackward(1); }
      } else if c == Ctrl('d') {
        if lc < le { DeleteForward(1); }
      } else if c == Ctrl('u') || c == Ctrl('c') {
        Kill(true);
      } else if c == Ctrl('k') {
        Kill(false);
      } else if c == Ctrl('t') {
        if lc >= 2 { Twiddle(); }
      } else if c == Ctrl('w') {
        EraseRun(true);
        EraseRun(false);
      } else if c == Ctrl('r') {
        Redraw();
      } else if le == buf.Length - 2 {
        Cnputc(BELL);
      } else if Printable(c) {
        Insert(c);
      }
    }

    /** db_inputchar: true at the end of the line, which has the final character appended. */
    method InputChar(c: int) returns (done: bool)
      requires Valid() && !RecallsHistory(escstate, c)
      modifies `lc, `le, `out, `escstate, buf
      ensures old(out) <= out && done == EndsLine(old(escstate), c)
      ensures escstate == Translate(old(escstate), c).0
      ensures !done ==> Valid() && Line(Z(), escstate) == Press(buf.Length - 2, old(Line(Z(), escstate)), c)
      ensures done ==> lc <= le == old(le) + 1 <= buf.Length - 1
                       && buf[..le] == old(buf[..le]) + [if c == -1 then RETURN else c]
    {
      var k := c;
      if escstate == 1 {
        escstate := if c == '[' as int || c == 'O' as int then 2 else 0;
        return false;
      } else if escstate == 2 {
        escstate := 0;
        if c == 'C' as int {
          k := Ctrl('f');
        } else if c == 'D' as int {
          k := Ctrl('b');
        } else {
          return false;
        }
      }
      if k == ESCAPE {
        escstate := 1;
      } else if k == NL || k == RETURN || k == -1 {
        buf[le] := if k == -1 then RETURN else k;
        le := le + 1;
        return true;
      } else {
        Edit(k);
      }
      return false;
    }
  }

  // ------------------------------------------------------------ whole lines

  function PressAll(max: nat, l: Line, keys: seq<int>): (r: Line) {
    if keys == [] then l else Press(max, PressAll(max, l, keys[..|keys| - 1]), keys[|keys| - 1])
  }

  const Blank := Line(Zip([], []), 0)

  /** The keys before the one that ends the line; all of them when none does. */
  function Typed(esc: nat, keys: seq<int>): (k: nat)
    ensures k <= |keys|
    decreases |keys|
  {
    if keys == [] || EndsLine(esc, keys[0]) then 0 else 1 + Typed(Translate(esc, keys[0]).0, keys[1..])
  }

  ghost predicate NoHistory(esc: nat, keys: seq<int>)
    decreases |keys|
  {
    keys == [] || (!RecallsHistory(esc, keys[0]) && NoHistory(Translate(esc, keys[0]).0, keys[1..]))
  }

  /** db_readline: edits a line until it ends.  Until then the screen shows exactly the
      text the keys stand for, with the cursor in its place; at the end the buffer holds
      that text, the final character and a NUL, all within its size. */
  method ReadLine(lstart: array<int>, keys: seq<int>) returns (n: nat, done: bool, out: seq<int>)
    requires NoHistory(0, keys)
    modifies lstart
    ensures var k := Typed(0, keys);
      if lstart.Length < 2 then n == 0 && lstart[..] == old(lstart[..])
      else
        var l := PressAll(lstart.Length - 2, Blank, keys[..k]);
        if k == |keys| then
          !done && n == |Text(l.z)| <= lstart.Length - 2 && lstart[..n] == Text(l.z)
          && Shows(Screen(out), Text(l.z), |l.z.before|)
        else
          && done && n == |Text(l.z)| + 1 < lstart.Length && lstart[n] == 0
          && lstart[..n] == Text(l.z) + [if keys[k] == -1 then RETURN else keys[k]]
  {
    n, done, out := 0, false, [];
    if lstart.Length < 2 { return; }
    var e := new Editor(lstart);
    var i := 0;
    assert keys[0..] == keys;
    while i < |keys|
      invariant 0 <= i <= |keys| && e.buf == lstart && fresh(e)
      invariant Editing(e, keys, i)
    {
      BufferIsText(e);
      done := NextChar(e, keys, i);
      if done {
        lstart[e.le] := 0;
        return e.le, true, e.out;
      }
      i := i + 1;
    }
    assert keys[..i] == keys;
    BufferIsText(e);
    return e.le, false, e.out;
  }

  /** The line being edited is what the first i keys stand for. */
  ghost predicate Editing(e: Editor, keys: seq<int>, i: nat)
    requires i <= |keys|
    reads e, e.buf
  {
    && e.Valid()
    && Line(e.Z(), e.escstate) == PressAll(e.buf.Length - 2, Blank, keys[..i])
    && Typed(0, keys) == i + Typed(e.escstate, keys[i..]) && NoHistory(e.escstate, keys[i..])
  }

  method NextChar(e: Editor, keys: seq<int>, i: nat) returns (done: bool)
    requires i < |keys| && Editing(e, keys, i)
    modifies e`lc, e`le, e`out, e`escstate, e.buf
    ensures done <==> Typed(0, keys) == i
    ensures !done ==> Editing(e, keys, i + 1)
    ensures done ==> e.le == old(e.le) + 1 <= e.buf.Length - 1
                     && e.buf[..e.le] == old(e.buf[..e.le]) + [if keys[i] == -1 then RETURN else keys[i]]
  {
    assert keys[i..][1..] == keys[i + 1..] && keys[..i + 1][..i] == keys[..i];
    done := e.InputChar(keys[i]);
  }

  lemma BufferIsText(e: Editor)
    requires e.lc <= e.le <= e.buf.Length
    ensures e.buf[..e.le] == Text(e.Z()) && |e.Z().before| == e.lc
  {}

  // ------------------------------------------------------------ laws of the keys

  /** Cursor keys change nothing but the cursor. */
  lemma MovesKeepText(max: nat, z: Zip, c: int)
    requires MovesCursor(c)
    ensures Text(Key(max, z, c)) == Text(z)
  {}

  /** No key takes the line beyond its size or puts a control character into it. */
  lemma {:induction false} LineStaysSane(max: nat, keys: seq<int>)
    ensures var z := PressAll(max, Blank, keys).z; Fits(max, z) && |Text(z)| <= max && AllPrintable(Text(z))
  {
    if keys != [] {
      LineStaysSane(max, keys[..|keys| - 1]);
      var l := PressAll(max, Blank, keys[..|keys| - 1]);
      var k := Translate(l.esc, keys[|keys| - 1]).1;
      if k.Some? { KeyStaysSane(max, l.z, k.value); }
    }
  }

  predicate Fits(max: nat, z: Zip) {
    AllPrintable(z.before) && AllPrintable(z.after) && |z.before| + |z.after| <= max
  }

  lemma MoveStaysSane(max: nat, z: Zip, c: int)
    requires Fits(max, z)
    ensures Fits(max, Move(z, c))
  {}

  lemma KeyStaysSane(max: nat, z: Zip, c: int)
    requires Fits(max, z)
    ensures Fits(max, Key(max, z, c))
  {
    if MovesCursor(c) {
      MoveStaysSane(max, z, c);
    } else {
      ErasedRun(z.before, true);
      ErasedRun(DropRun(z.before, true), false);
    }
  }

  lemma {:induction false} ErasedRun(s: seq<int>, blanks: bool)
    ensures var r := DropRun(s, blanks);
      && r <= s && (forall i :: |r| <= i < |s| ==> (s[i] == BLANK) == blanks)
      && (r != [] ==> (r[|r| - 1] == BLANK) != blanks)
  {
    if s != [] && (s[|s| - 1] == BLANK) == blanks { ErasedRun(s[..|s| - 1], blanks); }
  }

  /** ^W removes exactly the blanks before the cursor and the word before those. */
  lemma WordEraseRemovesAWord(max: nat, z: Zip)
    ensures var z' := Key(max, z, Ctrl('w')); var m := |DropRun(z.before, true)|;
      && z'.after == z.after && z'.before <= z.before && |z'.before| <= m <= |z.before|
      && (forall i :: m <= i < |z.before| ==> z.before[i] == BLANK)
      && (forall i :: |z'.before| <= i < m ==> z.before[i] != BLANK)
      && (m > 0 ==> z.before[m - 1] != BLANK)
      && (z'.before != [] ==> z'.before[|z'.before| - 1] == BLANK)
  {
    ErasedRun(z.before, true);
    ErasedRun(DropRun(z.before, true), false);
  }

  /** Typing text on an empty line gives that text. */
  lemma {:induction false} TypingGivesText(max: nat, w: seq<int>)
    requires AllPrintable(w) && |w| <= max
    ensures PressAll(max, Blank, w) == Line(Zip(w, []), 0)
  {
    if w != [] {
      TypingGivesText(max, w[..|w| - 1]);
      assert w == w[..|w| - 1] + [w[|w| - 1]];
    }
  }

  /** A character typed anywhere and erased again leaves the line as it was. */
  lemma EraseUndoesTyping(max: nat, z: Zip, c: int)
    requires Printable(c) && |Text(z)| < max
    ensures Key(max, Key(max, z, c), Ctrl('h')) == z && Key(max, Key(max, z, c), RUBOUT) == z
    ensures Key(max, Key(max, Key(max, z, c), Ctrl('b')), Ctrl('d')) == z
  {
    assert (z.before + [c])[..|z.before|] == z.before;
    assert ([c] + z.after)[1..] == z.after;
  }

  /** Where the cursor keys leave the cursor: ^A at the start, ^E at the end, ^B and ^F one to the side. */
  lemma CursorKeys(max: nat, z: Zip, c: int)
    requires c == 1 || c == 2 || c == 5 || c == 6
    ensures var p, n, q := |z.before|, |Text(z)|, |Key(max, z, c).before|;
      Text(Key(max, z, c)) == Text(z)
      && (c == 1 ==> q == 0)
      && (c == 5 ==> q == n)
      && (c == 2 ==> q == if p > 0 then p - 1 else 0)
      && (c == 6 ==> q == if p < n then p + 1 else n)
  {}

  /** What the erasing keys leave of a text with the cursor at p: ^K the front, ^U and ^C nothing, ^D all
      but the character at p, ^H and rubout all but the one before it. */
  lemma ErasingKeys(max: nat, z: Zip, c: int)
    requires c in {3, 4, 8, 11, 21, 127}
    ensures var t, p := Text(z), |z.before|;
      var t', q := Text(Key(max, z, c)), |Key(max, z, c).before|;
      && (c == 11 ==> t' == t[..p] && q == p)
      && (c == 21 || c == 3 ==> t' == [])
      && (c == 4 ==> t' == (if p < |t| then t[..p] + t[p + 1..] else t) && q == p)
      && (c == 8 || c == 127 ==> if p > 0 then t' == t[..p - 1] + t[p..] && q == p - 1 else t' == t && q == p)
  {}

  /** ^T exchanges the two characters before the cursor. */
  lemma TransposeKey(max: nat, z: Zip)
    ensures var t, p := Text(z), |z.before|;
      var t', q := Text(Key(max, z, 20)), |Key(max, z, 20).before|;
      q == p && |t'| == |t|
      && forall i :: 0 <= i < |t| ==>
           t'[i] == if p >= 2 && i == p - 2 then t[p - 1] else if p >= 2 && i == p - 1 then t[p - 2] else t[i]
  {}

  /** A printable character goes in at the cursor if the line has room. */
  lemma TypingKey(max: nat, z: Zip, c: int)
    requires 32 <= c < 127
    ensures var t, p := Text(z), |z.before|;
      var t', q := Text(Key(max, z, c)), |Key(max, z, c).before|;
      if |t| < max then t' == t[..p] + [c] + t[p..] && q == p + 1 else t' == t && q == p
  {}

  lemma ThreeKeys(max: nat, l: Line, a: int, b: int, c: int)
    ensures PressAll(max, l, [a, b, c]) == Press(max, Press(max, Press(max, l, a), b), c)
  {
    var k := [a, b, c];
    assert k[..2][..1] == [a] && k[..2][1] == b && [a][..0] == [];
    assert PressAll(max, l, [a]) == Press(max, PressAll(max, l, []), a);
    assert PressAll(max, l, k[..2]) == Press(max, PressAll(max, l, [a]), b);
  }

  /** The right and left arrows are ^F and ^B, in both forms in which terminals send them. */
  lemma ArrowKeys(max: nat, z: Zip, b: char)
    requires b == '[' || b == 'O'
    ensures PressAll(max, Line(z, 0), [27, b as int, 'C' as int]) == Line(Key(max, z, 6), 0)
    ensures PressAll(max, Line(z, 0), [27, b as int, 'D' as int]) == Line(Key(max, z, 2), 0)
  {
    ThreeKeys(max, Line(z, 0), 27, b as int, 'C' as int);
    ThreeKeys(max, Line(z, 0), 27, b as int, 'D' as int);
  }
}
