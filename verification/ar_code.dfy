/** The archiver as it works: an archive read member by member into temporary files, two of
    which change places on the way.

    Predicates such as Holds, At and IsChosen speak of every list that equals theirs, not of the list
    itself: that hides the recursive functions applied to it, which are then unfolded only in the
    lemmas that name them. */
module ArCode {
  import opened Basics
  import opened Sequences
  import opened Ar
  import opened ArLists
  import opened ArReplace

  // ------------------------------------------------------------ bytes of members

  function Lead(magic: bool): (r: seq<Byte>) { if magic then Magic() else [] }

  lemma AppendMember(xs: seq<Member>, m: Member)
    requires AllGood(xs) && Good(m)
    ensures AllGood(xs + [m]) && AllBytes(xs + [m]) == AllBytes(xs) + MemberBytes(m)
  {
    var ys := xs + [m];
    assert ys[..|ys| - 1] == xs;
  }

  /** Where member i lies in the bytes of all. */
  lemma {:induction false} MemberAt(ms: seq<Member>, i: nat)
    requires AllGood(ms) && i < |ms|
    ensures AllGood(ms[..i]) && AllGood(ms[..i + 1])
    ensures AllBytes(ms[..i]) + MemberBytes(ms[i]) == AllBytes(ms[..i + 1])
    ensures AllBytes(ms[..i + 1]) <= AllBytes(ms)
    decreases |ms|
  {
    assert ms[..i + 1][..i] == ms[..i];
    AppendMember(ms[..i], ms[i]);
    assert ms[..i] + [ms[i]] == ms[..i + 1];
    PrefixBytes(ms, i + 1);
  }

  lemma {:induction false} PrefixBytes(ms: seq<Member>, i: nat)
    requires AllGood(ms) && i <= |ms|
    ensures AllGood(ms[..i]) && AllBytes(ms[..i]) <= AllBytes(ms)
    decreases |ms|
  {
    if i == |ms| {
      assert ms[..i] == ms;
    } else {
      PrefixBytes(ms[..|ms| - 1], i);
      assert ms[..|ms| - 1][..i] == ms[..i];
    }
  }

  /** The bytes are those of the members, after the magic number if there is one. */
  ghost predicate Holds(bytes: seq<Byte>, magic: bool, ms: seq<Member>) {
    AllGood(ms) && forall xs: seq<Member> {:trigger AllBytes(xs)} :: xs == ms ==> bytes == Lead(magic) + AllBytes(xs)
  }

  /** Reading has come to member i of the archive. */
  ghost predicate At(archive: seq<Byte>, ms: seq<Member>, i: nat, at: nat) {
    && AllGood(ms) && i <= |ms|
    && forall xs: seq<Member> {:trigger AllBytes(xs)} :: xs == ms[..i] ==>
         AllGood(xs) && at == 2 + |AllBytes(xs)| && Holds(archive, true, ms)
  }

  /** The bytes are an archive that reads back as these members. */
  predicate ReadsBack(bytes: seq<Byte>, ms: seq<Member>) {
    |bytes| >= 2 && bytes[..2] == Magic() && Parse(bytes[2..]) == Some(TidyAll(ms))
  }

  lemma HeldReadsBack(bytes: seq<Byte>, ms: seq<Member>)
    requires Holds(bytes, true, ms)
    ensures ReadsBack(bytes, ms)
  {
    assert bytes == Magic() + AllBytes(ms);
    assert bytes[2..] == AllBytes(ms);
    ParseBack(ms);
  }

  lemma HoldsNext(bytes: seq<Byte>, magic: bool, ms: seq<Member>, m: Member)
    requires Holds(bytes, magic, ms) && Good(m)
    ensures Holds(bytes + MemberBytes(m), magic, ms + [m])
  {
    AppendMember(ms, m);
    Associative(Lead(magic), AllBytes(ms), MemberBytes(m));
  }

  /** What copyfil writes for a body of size bytes that is read from input at at. */
  function Copied(input: seq<Byte>, at: nat, size: int, pad: Byte, oodd: bool): (r: seq<Byte>)
    requires 0 <= size && at + size <= |input|
  {
    input[at..at + size] + if oodd && Odd(size) then [pad] else []
  }

  function Taken(size: int, iodd: bool): (r: int) { size + if iodd && Odd(size) then 1 else 0 }

  /** What getaf found; only a file that is there but is no archive ends every command. */
  datatype Opening = Opened | Missing | NotAnArchive

  /** The arguments when match has come to place i. */
  function LookedAt(args: Args, i: nat): (r: Args) {
    seq(|args|, j requires 0 <= j < |args| => if j < i then Stripped(args[j]) else args[j])
  }

  /** No argument before place i names n. */
  ghost predicate NotBefore(args: Args, n: Name, i: nat) {
    i <= |args| && FindArg(args, n) == i + FindArg(args[i..], n)
  }

  lemma LookOn(args: Args, n: Name, i: nat)
    requires i < |args| && NotBefore(args, n, i)
    ensures |LookedAt(args, i)| == |args| && LookedAt(args, i)[i] == args[i]
    ensures if args[i].Some? && Trim(args[i].value) == n
            then FindArg(args, n) == i && LookedAt(args, i + 1)[i := None] == UsedUp(args, i)
            else NotBefore(args, n, i + 1)
    ensures LookedAt(args, i)[i := Stripped(args[i])] == LookedAt(args, i + 1)
    ensures args[i].None? ==> LookedAt(args, i) == LookedAt(args, i + 1)
  {
    assert args[i..][1..] == args[i + 1..];
  }

  lemma AllLookedAt(args: Args, n: Name)
    requires NotBefore(args, n, |args|)
    ensures FindArg(args, n) == |args| && LookedAt(args, |args|) == UsedUp(args, |args|)
  {}

  class Archiver {
    const there: bool
    const position: Option<Name>
    const after: bool
    const newer: bool
    const files: Files
    const buf: array<Byte>
    var archive: seq<Byte>
    var at: nat
    var tf: seq<Byte>
    var tf1: seq<Byte>
    var tf2: seq<Byte>
    var has1: bool
    var bastate: nat
    var namv: Args
    var header: Header
    var size: Long
    var file: Name
    ghost var inTf: seq<Member>
    ghost var inTf1: seq<Member>
    ghost var inTf2: seq<Member>
    ghost var lead: bool
    ghost var lead1: bool

    /** The temporary files hold these members; `lead` and `lead1` say where the magic number is. */
    ghost predicate Temps()
      reads `tf, `tf1, `tf2, `inTf, `inTf1, `inTf2, `lead, `lead1
    {
      Holds(tf, lead, inTf) && Holds(tf1, lead1, inTf1) && Holds(tf2, false, inTf2)
    }

    /** Reading is about to go on with member i. */
    ghost predicate Between(ms: seq<Member>, i: nat)
      reads this`archive, `at
    {
      At(archive, ms, i, at) && buf.Length == 512
    }

    /** The header of member i has been read. */
    ghost predicate InMember(ms: seq<Member>, i: nat)
      reads this`archive, `at, `header, `size
    {
      && i < |ms| && at >= HEADLEN && At(archive, ms, i, at - HEADLEN) && buf.Length == 512
      && header == ms[i].h && size == |ms[i].body|
    }

    /** read(2) fails on an archive that could not be opened, as it does at the end of an empty one. */
    constructor (af: Option<seq<Byte>>, namv: Args, position: Option<Name>, after: bool, newer: bool, files: Files)
      ensures fresh(buf) && buf.Length == 512 && there == af.Some? && this.namv == namv
      ensures archive == if af.Some? then af.value else Magic()
      ensures this.position == position && this.after == after && this.newer == newer && this.files == files
      ensures at == 0 && !has1 && bastate == if position.Some? then 1 else 0
      ensures Temps() && inTf == inTf1 == inTf2 == [] && lead && !lead1
    {
      there := af.Some?;
      this.position, this.after, this.newer, this.files := position, after, newer, files;
      buf := new Byte[512](i => 0);
      archive := if af.Some? then af.value else Magic();
      at, tf, tf1, tf2, has1 := 0, Magic(), [], [], false;
      inTf, inTf1, inTf2, lead, lead1 := [], [], [], true, false;
      bastate := if position.Some? then 1 else 0;
      this.namv, size, file := namv, 0, [];
      header := Header([], 0, 0, 0, []);
    }

    /** read(2) into the buffer. */
    method ReadInto(input: seq<Byte>, from: nat, n: nat) returns (got: nat)
      requires buf.Length == 512 && n <= 512
      modifies buf
      ensures got <= n && (from + n <= |input| ==> got == n && buf[..n] == input[from..from + n])
      ensures got < n ==> from + got >= |input|
      ensures buf[got..] == old(buf[got..])
    {
      got := 0;
      while got < n && from + got < |input|
        invariant got <= n && (got > 0 ==> from + got <= |input|)
        invariant forall k :: 0 <= k < got ==> buf[k] == input[from + k]
        invariant forall k :: got <= k < 512 ==> buf[k] == old(buf[k])
      {
        buf[got] := input[from + got];
        got := got + 1;
      }
    }

    /** One turn of copyfil's loop: at most 512 bytes, and the pad of an odd end. */
    method Chunk(input: seq<Byte>, from: nat, iodd: bool, oodd: bool)
      returns (piece: seq<Byte>, got: nat, ghost pad: Byte)
      requires buf.Length == 512 && size > 0
      modifies buf
      ensures size >= 512 && from + 512 <= |input| ==> got == 512 && piece == input[from..from + 512]
      ensures size < 512 && from + Taken(size, iodd) <= |input| ==>
        got == Taken(size, iodd) && piece == Copied(input, from, size, pad, oodd)
        && (iodd && Odd(size) ==> pad == input[from + size])
    {
      var i, o := 512, 512;
      if size < i {
        i, o := size as int, size as int;
        if i % 2 == 1 {
          if iodd { i := i + 1; }
          if oodd { o := o + 1; }
        }
      }
      got := ReadInto(input, from, i);
      piece := buf[..o];
      pad := if size < 512 then buf[size] else 0;
      if size < 512 && from + Taken(size, iodd) <= |input| {
        ghost var b := buf[..];
        assert b[..i] == buf[..i] && b[..o] == piece;
        Prefixes(b, input, from, i, size);
        assert piece == b[..size] + if oodd && Odd(size) then [pad] else [];
      }
    }

    /** copyfil's loop: a body of size bytes read at from, or only passed over. */
    method CopyBody(input: seq<Byte>, from: nat, skip: bool, iodd: bool, oodd: bool)
      returns (out: seq<Byte>, next: nat, ghost pad: Byte)
      requires buf.Length == 512
      modifies buf, `size
      ensures old(size) >= 0 && from + Taken(old(size), iodd) <= |input| ==>
        CopiedTo(input, from, old(size), skip, iodd, oodd, out, next, pad)
    {
      ghost var whole := size;
      ghost var enough := size >= 0 && from + Taken(size, iodd) <= |input|;
      ghost var body: seq<Byte> := [];
      out, next, pad := [], from, 0;
      while size > 0
        invariant size <= whole && out == if skip then [] else body
        invariant enough ==> Progress(input, from, whole, size, next, body, iodd, oodd, pad)
        decreases size
      {
        var piece, got;
        ghost var before, had, padBefore := next, body, pad;
        piece, got, pad := Chunk(input, next, iodd, oodd);
        if enough { Joined(input, from, before, whole, size, had, padBefore, piece, got, iodd, oodd, pad); }
        if !skip { out := out + piece; }
        body := body + piece;
        next := next + got;
        size := size - 512;
      }
    }

    /** copyfil: the same after the header, if there is to be one. */
    method CopyFil(input: seq<Byte>, from: nat, head: bool, skip: bool, iodd: bool, oodd: bool)
      returns (out: seq<Byte>, next: nat, ghost pad: Byte)
      requires buf.Length == 512
      modifies buf, `size
      ensures Wrote(input, from, header, old(size), head, skip, iodd, oodd, out, next, pad)
    {
      var first := if head then HeaderBytes(header, size) else [];
      out, next, pad := CopyBody(input, from, skip, iodd, oodd);
      out := first + out;
    }

    /** The first two temporary files change places. */
    method Swap()
      requires Temps()
      modifies `tf, `tf1, `inTf, `inTf1, `lead, `lead1
      ensures Temps() && inTf == old(inTf1) && inTf1 == old(inTf) && lead == old(lead1) && lead1 == old(lead)
    {
      tf, tf1 := tf1, tf;
      inTf, inTf1, lead, lead1 := inTf1, inTf, lead1, lead;
    }

    /** The next header, unless the archive ends. */
    method ReadHeader(ghost ms: seq<Member>, ghost i: nat) returns (whole: bool)
      requires Between(ms, i)
      modifies `at, `header, `size
      ensures whole == (i < |ms|) && (whole ==> InMember(ms, i))
    {
      HeaderAt(archive, ms, i, at);
      whole := |archive| - at >= HEADLEN;
      if !whole {
        at := |archive|;
      } else {
        var r := HeaderOf(archive[at..at + HEADLEN]);
        header, size := r.0, r.1;
        at := at + HEADLEN;
      }
    }

    /** getdir: the next header, or true at the end, when the first two files change places. */
    method GetDir(ghost ms: seq<Member>, ghost i: nat) returns (eof: bool)
      requires Between(ms, i) && Temps()
      modifies `at, `header, `size, `file, `tf, `tf1, `inTf, `inTf1, `lead, `lead1
      ensures eof == (i == |ms|) && Temps()
      ensures !eof ==> InMember(ms, i) && file == NameOf(ms[i])
      ensures !(eof && has1) ==> inTf == old(inTf) && inTf1 == old(inTf1) && lead == old(lead) && lead1 == old(lead1)
      ensures eof && has1 ==> inTf == old(inTf1) && inTf1 == old(inTf) && lead == old(lead1) && lead1 == old(lead)
    {
      var whole := ReadHeader(ms, i);
      if !whole {
        if has1 { Swap(); }
        return true;
      }
      file := CString(header.name);
      eof := false;
    }

    /** The member is copied after the bytes of a temporary file. */
    method CopyAfter(ghost ms: seq<Member>, ghost i: nat, bytes: seq<Byte>, ghost magic: bool, ghost xs: seq<Member>)
      returns (longer: seq<Byte>)
      requires InMember(ms, i) && Holds(bytes, magic, xs)
      modifies `at, `size, buf
      ensures Between(ms, i + 1) && Holds(longer, magic, xs + [ms[i]])
    {
      var out, next, pad := CopyFil(archive, at, true, false, true, true);
      CopiedMember(archive, ms, i, at, out, next, pad, bytes, magic, xs);
      at := next;
      longer := bytes + out;
    }

    /** The member is copied to the first temporary file. */
    method CopyMember(ghost ms: seq<Member>, ghost i: nat)
      requires InMember(ms, i) && Temps()
      modifies `at, `size, `tf, `inTf, buf
      ensures Between(ms, i + 1) && Temps() && inTf == old(inTf) + [ms[i]]
    {
      tf := CopyAfter(ms, i, tf, lead, inTf);
      inTf := inTf + [ms[i]];
    }

    /** The member is copied to the third temporary file. */
    method CopyMoved(ghost ms: seq<Member>, ghost i: nat)
      requires InMember(ms, i) && Temps()
      modifies `at, `size, `tf2, `inTf2, buf
      ensures Between(ms, i + 1) && Temps() && inTf2 == old(inTf2) + [ms[i]]
    {
      tf2 := CopyAfter(ms, i, tf2, false, inTf2);
      inTf2 := inTf2 + [ms[i]];
    }

    /** The member is passed over. */
    method SkipMember(ghost ms: seq<Member>, ghost i: nat)
      requires InMember(ms, i)
      modifies `at, `size, buf
      ensures Between(ms, i + 1)
    {
      var out, next, pad := CopyFil(archive, at, false, true, true, false);
      SkippedMember(archive, ms, i, at, out, next, pad);
      at := next;
    }

    /** The file f as a member, after the bytes given. */
    method FileAfter(f: File, bytes: seq<Byte>, ghost magic: bool, ghost xs: seq<Member>)
      returns (longer: seq<Byte>, ghost pad: Byte)
      requires Holds(bytes, magic, xs) && buf.Length == 512 && |f.body| < 0x8000_0000 && |f.mode| == 2
      modifies `header, `size, buf
      ensures Holds(longer, magic, xs + [Made(file, f, pad)])
    {
      header := Made(file, f, 0).h;
      size := |f.body|;
      var out, next;
      out, next, pad := CopyFil(f.body, 0, true, false, false, true);
      MovedFile(file, f, out, next, pad, bytes, magic, xs);
      longer := bytes + out;
    }

    /** movefil: the file f becomes a member of the first temporary file. */
    method MoveFil(f: File) returns (ghost pad: Byte)
      requires Temps() && buf.Length == 512 && |f.body| < 0x8000_0000 && |f.mode| == 2
      modifies `header, `size, `tf, `inTf, buf
      ensures Temps() && inTf == old(inTf) + [Made(file, f, pad)]
    {
      tf, pad := FileAfter(f, tf, lead, inTf);
      inTf := inTf + [Made(file, f, pad)];
    }

    /** match: the first argument naming the member is used up, and its path taken; trim overwrites
        the slashes at the end of each argument it is given. */
    method Match() returns (found: bool)
      modifies `namv, `file
      ensures var i := FindArg(old(namv), old(file));
        found == (i < |old(namv)|) && namv == UsedUp(old(namv), i)
        && file == if found then WithoutSlashes(old(namv)[i].value) else old(file)
    {
      ghost var args := namv;
      var i := 0;
      while i < |namv|
        invariant i <= |namv| == |args| && NotBefore(args, file, i)
        invariant namv == LookedAt(args, i) && file == old(file)
      {
        LookOn(args, file, i);
        if namv[i].Some? {
          namv := namv[i := Some(WithoutSlashes(namv[i].value))];
          if LastPart(namv[i].value) == file {
            file := namv[i].value;
            namv := namv[i := None];
            return true;
          }
        }
        i := i + 1;
      }
      AllLookedAt(args, file);
      found := false;
    }

    /** match, for member i. */
    method MatchNext(ghost args: Args, ghost ms: seq<Member>, ghost i: nat) returns (found: bool)
      requires i < |ms| && IsLeft(namv, args, ms, i) && file == NameOf(ms[i])
      modifies `namv, `file
      ensures found == (FindArg(old(namv), NameOf(ms[i])) < |old(namv)|) && IsLeft(namv, args, ms, i + 1)
    {
      LeftStep(namv, args, ms, i);
      found := Match();
    }

    /** bamatch: at the position member, or the one after it, a new first file is started. */
    method BaMatch(ghost ms: seq<Member>, ghost i: nat)
      requires i < |ms| && file == NameOf(ms[i]) && bastate == StateAt(ms, i, position, after) && Temps()
      requires has1 == (i > Split(ms, position, after)) && (!has1 ==> inTf1 == [] && !lead1)
      modifies `bastate, `tf, `tf1, `has1, `inTf, `inTf1, `lead, `lead1
      ensures Temps() && bastate == StateAt(ms, i + 1, position, after) && has1 == (i + 1 > Split(ms, position, after))
      ensures i == Split(ms, position, after) ==> inTf == [] && !lead && inTf1 == old(inTf) && lead1 == old(lead)
      ensures i != Split(ms, position, after) ==>
        inTf == old(inTf) && inTf1 == old(inTf1) && lead == old(lead) && lead1 == old(lead1)
    {
      StateMoves(ms, i, position, after);
      if bastate == 1 {
        if file != position.value { return; }
        bastate := 2;
        if after { return; }
      }
      if bastate == 2 {
        bastate := 0;
        NewFirst();
      }
    }

    /** The first temporary file becomes the second, and an empty one is the first. */
    method NewFirst()
      requires Temps()
      modifies `tf, `tf1, `has1, `inTf, `inTf1, `lead, `lead1
      ensures Temps() && has1 && inTf == [] && !lead && inTf1 == old(inTf) && lead1 == old(lead)
    {
      NothingHeld();
      has1 := true;
      tf, tf1 := [], tf;
      inTf, inTf1, lead, lead1 := [], inTf, false, lead;
    }

    /** getaf */
    method GetAf() returns (r: Opening)
      modifies `at
      ensures r == Opens() && (!r.NotAnArchive? ==> at == 2)
    {
      if !there {
        at := 2;
        return Missing;
      }
      if |archive| < 2 || archive[..2] != Magic() { return NotAnArchive; }
      at := 2;
      r := Opened;
    }

    /** install: the temporary files one after the other are the new archive. */
    method Install(has2: bool) returns (result: seq<Byte>)
      requires Temps() && lead && (has1 ==> !lead1)
      ensures Holds(result, true, inTf + (if has2 then inTf2 else []) + (if has1 then inTf1 else []))
    {
      result := tf;
      if has2 {
        HoldsBoth(result, inTf, tf2, inTf2);
        result := result + tf2;
      } else {
        assert inTf + [] == inTf;
      }
      if has1 {
        HoldsBoth(result, inTf + (if has2 then inTf2 else []), tf1, inTf1);
        result := result + tf1;
      } else {
        ghost var xs := inTf + if has2 then inTf2 else [];
        assert xs + [] == xs;
      }
    }

    function Opens(): (r: Opening)
      reads `archive
    {
      if !there then Missing
      else if |archive| < 2 || archive[..2] != Magic() then NotAnArchive
      else Opened
    }

    /** Everything is as it was when the command began; an archive that is not there has no members. */
    ghost predicate Started(ms: seq<Member>)
      reads this
    {
      && Temps() && inTf == inTf1 == inTf2 == [] && lead && !lead1 && !has1 && buf.Length == 512 && GoodFiles(files)
      && bastate == StateAt(ms, 0, position, after) && AllGood(ms) && (!there ==> ms == [])
      && (!Opens().NotAnArchive? ==> archive == Magic() + AllBytes(ms))
    }

    // ---------------------------------------------------------- d

    /** Where the members have gone after i of them, for d. */
    ghost predicate Thinned(args: Args, ms: seq<Member>, i: nat)
      reads this
    {
      Temps() && Between(ms, i) && lead && !has1 && IsLeft(namv, args, ms, i) && IsChosen(inTf, args, ms, i, 0, false)
    }

    method DropOrKeep(ghost args: Args, ghost ms: seq<Member>, ghost i: nat, found: bool)
      requires Temps() && lead && !has1 && InMember(ms, i) && IsLeft(namv, args, ms, i + 1)
      requires IsChosen(if found then inTf else inTf + [ms[i]], args, ms, i + 1, 0, false)
      modifies `at, `size, `tf, `inTf, buf
      ensures Thinned(args, ms, i + 1)
    {
      if found { SkipMember(ms, i); } else { CopyMember(ms, i); }
    }

    /** One member of dcmd's loop. */
    method DeleteOne(ghost args: Args, ghost ms: seq<Member>, ghost i: nat)
      requires Temps() && lead && !has1 && IsLeft(namv, args, ms, i) && IsChosen(inTf, args, ms, i, 0, false)
      requires InMember(ms, i) && file == NameOf(ms[i])
      modifies this, buf
      ensures Thinned(args, ms, i + 1)
    {
      ChosenStep(inTf, namv, args, ms, i, 0, false);
      var found := MatchNext(args, ms, i);
      DropOrKeep(args, ms, i, found);
    }

    /** dcmd's loop. */
    method DeleteAll(ghost args: Args, ghost ms: seq<Member>)
      requires Thinned(args, ms, 0)
      modifies this, buf
      ensures Temps() && lead && !has1 && inTf == Deleted(args, ms)
    {
      ghost var i := 0;
      while true
        invariant i <= |ms| && Thinned(args, ms, i)
        decreases |ms| - i
      {
        var eof := GetDir(ms, i);
        if eof { break; }
        DeleteOne(args, ms, i);
        i := i + 1;
      }
      AllChosen(inTf, args, ms, 0, false);
    }

    /** dcmd; None if it ends with a complaint, and the archive is left alone. */
    method Delete(ghost ms: seq<Member>) returns (result: Option<seq<Byte>>)
      requires Started(ms)
      modifies this, buf
      ensures result.Some? <==> old(Opens()).Opened?
      ensures result.Some? ==>
        Holds(result.value, true, Deleted(old(namv), ms)) && ReadsBack(result.value, Deleted(old(namv), ms))
    {
      ghost var args := namv;
      var r := GetAf();
      if !r.Opened? { return None; }
      AtStart(archive, ms);
      NoneChosen(args, ms);
      DeleteAll(args, ms);
      var bytes := Install(false);
      assert inTf + [] + [] == inTf;
      HeldReadsBack(bytes, inTf);
      result := Some(bytes);
    }

    // ---------------------------------------------------------- m

    /** The state of the search for the position, before member i. */
    ghost predicate Searching(ms: seq<Member>, i: nat)
      reads `bastate, `has1, `inTf1, `lead, `lead1
    {
      && bastate == StateAt(ms, i, position, after) && has1 == (i > Split(ms, position, after))
      && if has1 then !lead && lead1 else lead && !lead1 && inTf1 == []
    }

    /** Where the members have gone after i of them, for m. */
    ghost predicate Sorted(args: Args, ms: seq<Member>, i: nat)
      reads this
    {
      && Temps() && Searching(ms, i) && IsLeft(namv, args, ms, i) && IsChosen(inTf2, args, ms, i, 0, true)
      && if has1 then Split(ms, position, after) < i && IsChosen(inTf1, args, ms, Split(ms, position, after), 0, false)
                      && IsChosen(inTf, args, ms, i, Split(ms, position, after), false)
         else IsChosen(inTf, args, ms, i, 0, false)
    }

    /** The same when the split may have been made just before member i. */
    ghost predicate Placed(args: Args, ms: seq<Member>, i: nat)
      reads this
    {
      && Temps() && Searching(ms, i + 1)
      && if has1 then Split(ms, position, after) <= i && IsChosen(inTf1, args, ms, Split(ms, position, after), 0, false)
                      && IsChosen(inTf, args, ms, i, Split(ms, position, after), false)
         else IsChosen(inTf, args, ms, i, 0, false)
    }

    /** bamatch keeps the members sorted. */
    method PlaceSplit(ghost args: Args, ghost ms: seq<Member>, ghost i: nat)
      requires Sorted(args, ms, i) && i < |ms| && file == NameOf(ms[i])
      modifies `bastate, `tf, `tf1, `has1, `inTf, `inTf1, `lead, `lead1
      ensures Placed(args, ms, i)
    {
      NothingFrom(args, ms, i, false);
      BaMatch(ms, i);
    }

    /** A member that is not moved. */
    method Keep(ghost args: Args, ghost ms: seq<Member>, ghost i: nat)
      requires Placed(args, ms, i) && InMember(ms, i) && IsLeft(namv, args, ms, i + 1)
      requires IsChosen(inTf2, args, ms, i + 1, 0, true) && KeptOn(args, ms, i, false)
      modifies `at, `size, `tf, `inTf, buf
      ensures Sorted(args, ms, i + 1) && Between(ms, i + 1)
    {
      CopyMember(ms, i);
    }

    /** A member that is. */
    method SetAside(ghost args: Args, ghost ms: seq<Member>, ghost i: nat)
      requires Placed(args, ms, i) && InMember(ms, i) && IsLeft(namv, args, ms, i + 1)
      requires IsChosen(inTf2 + [ms[i]], args, ms, i + 1, 0, true) && KeptOn(args, ms, i, true)
      modifies `at, `size, `tf2, `inTf2, buf
      ensures Sorted(args, ms, i + 1) && Between(ms, i + 1)
    {
      CopyMoved(ms, i);
    }

    /** The member is matched, and so to be moved, or not. */
    method Sift(ghost args: Args, ghost ms: seq<Member>, ghost i: nat) returns (found: bool)
      requires Placed(args, ms, i) && i < |ms| && file == NameOf(ms[i])
      requires IsLeft(namv, args, ms, i) && IsChosen(inTf2, args, ms, i, 0, true)
      modifies `namv, `file
      ensures Placed(args, ms, i) && IsLeft(namv, args, ms, i + 1) && KeptOn(args, ms, i, found)
      ensures IsChosen(if found then inTf2 + [ms[i]] else inTf2, args, ms, i + 1, 0, true)
    {
      ChosenStep(inTf2, namv, args, ms, i, 0, true);
      EveryStep(namv, args, ms, i);
      found := MatchNext(args, ms, i);
    }

    /** One member of mcmd's loop. */
    method MoveOne(ghost args: Args, ghost ms: seq<Member>, ghost i: nat)
      requires Sorted(args, ms, i) && InMember(ms, i) && file == NameOf(ms[i])
      modifies this, buf
      ensures Sorted(args, ms, i + 1) && Between(ms, i + 1)
    {
      PlaceSplit(args, ms, i);
      var found := Sift(args, ms, i);
      if found { SetAside(args, ms, i); } else { Keep(args, ms, i); }
    }

    /** All the members are in their places, and the first two files as getdir leaves them at the end. */
    ghost predicate SortedOut(args: Args, ms: seq<Member>)
      reads this
    {
      && Temps() && lead && (has1 ==> !lead1) && inTf2 == Chosen(args, ms, 0, true)
      && var p := Split(ms, position, after);
        if has1 then p < |ms| && IsChosen(inTf, args, ms, p, 0, false) && IsChosen(inTf1, args, ms, |ms|, p, false)
        else p == |ms| && IsChosen(inTf, args, ms, |ms|, 0, false)
    }

    /** The next header, or the end. */
    method NextSorted(ghost args: Args, ghost ms: seq<Member>, ghost i: nat) returns (eof: bool)
      requires Sorted(args, ms, i) && Between(ms, i)
      modifies `at, `header, `size, `file, `tf, `tf1, `inTf, `inTf1, `lead, `lead1
      ensures eof == (i == |ms|) && (eof ==> SortedOut(args, ms))
      ensures !eof ==> Sorted(args, ms, i) && InMember(ms, i) && file == NameOf(ms[i])
    {
      eof := GetDir(ms, i);
      if eof { AllChosen(inTf2, args, ms, 0, true); }
    }

    method FinishMove(ghost args: Args, ghost ms: seq<Member>) returns (result: seq<Byte>)
      requires SortedOut(args, ms)
      ensures Holds(result, true, Moved(args, ms, position, after))
    {
      MovedParts(args, ms, position, after, inTf, inTf2, if has1 then inTf1 else []);
      result := Install(true);
    }

    /** mcmd's loop. */
    method MoveAll(ghost args: Args, ghost ms: seq<Member>)
      requires Sorted(args, ms, 0) && Between(ms, 0)
      modifies this, buf
      ensures SortedOut(args, ms)
    {
      ghost var i := 0;
      while true
        invariant i <= |ms| && Sorted(args, ms, i) && Between(ms, i)
        decreases |ms| - i
      {
        var eof := NextSorted(args, ms, i);
        if eof { break; }
        MoveOne(args, ms, i);
        i := i + 1;
      }
    }

    /** mcmd; None if it ends with a complaint. */
    method Move(ghost ms: seq<Member>) returns (result: Option<seq<Byte>>)
      requires Started(ms)
      modifies this, buf
      ensures result.Some? <==> old(Opens()).Opened?
      ensures var moved := Moved(old(namv), ms, position, after);
        result.Some? ==> Holds(result.value, true, moved) && ReadsBack(result.value, moved)
    {
      ghost var args := namv;
      var r := GetAf();
      if !r.Opened? { return None; }
      AtStart(archive, ms);
      NoneChosen(args, ms);
      MoveAll(args, ms);
      var bytes := FinishMove(args, ms);
      HeldReadsBack(bytes, Moved(args, ms, position, after));
      result := Some(bytes);
    }

    // ---------------------------------------------------------- r

    /** Where the members have gone after i of them, for r. */
    ghost predicate Renewed(args: Args, ms: seq<Member>, i: nat)
      reads this
    {
      && Temps() && Searching(ms, i) && IsLeft(namv, args, ms, i) && GoodFiles(files)
      && if has1 then Split(ms, position, after) < i
                      && IsReplaced(inTf1, args, ms, Split(ms, position, after), 0, files, newer)
                      && IsReplaced(inTf, args, ms, i, Split(ms, position, after), files, newer)
         else IsReplaced(inTf, args, ms, i, 0, files, newer)
    }

    /** The same when the split may have been made just before member i. */
    ghost predicate RenewedPlaced(args: Args, ms: seq<Member>, i: nat)
      reads this
    {
      && Temps() && Searching(ms, i + 1) && GoodFiles(files)
      && if has1 then Split(ms, position, after) <= i
                      && IsReplaced(inTf1, args, ms, Split(ms, position, after), 0, files, newer)
                      && IsReplaced(inTf, args, ms, i, Split(ms, position, after), files, newer)
         else IsReplaced(inTf, args, ms, i, 0, files, newer)
    }

    method PlaceRenewed(ghost args: Args, ghost ms: seq<Member>, ghost i: nat)
      requires Renewed(args, ms, i) && i < |ms| && file == NameOf(ms[i])
      modifies `bastate, `tf, `tf1, `has1, `inTf, `inTf1, `lead, `lead1
      ensures RenewedPlaced(args, ms, i)
    {
      NothingReplaced(args, ms, i, files, newer);
      BaMatch(ms, i);
    }

    /** The file whose path has been taken replaces the member, or the member is kept. */
    method ReplaceOrKeep(ghost ms: seq<Member>, ghost i: nat, matched: bool) returns (ghost m: Member)
      requires InMember(ms, i) && Temps() && GoodFiles(files)
      modifies `at, `size, `tf, `inTf, `header, buf
      ensures Between(ms, i + 1) && Temps() && inTf == old(inTf) + [m]
      ensures NoPad(m) == NoPad(Choice(if matched then Some(file) else None, ms[i], files, newer))
    {
      if matched && file in files && !(newer && files[file].date <= header.date) {
        SkipMember(ms, i);
        ghost var pad := MoveFil(files[file]);
        m := Made(file, files[file], pad);
      } else {
        CopyMember(ms, i);
        m := ms[i];
      }
    }

    /** The member, replaced or not, takes its place. */
    method PlaceRenewal(ghost args: Args, ghost ms: seq<Member>, ghost i: nat, matched: bool)
      requires RenewedPlaced(args, ms, i) && InMember(ms, i) && IsLeft(namv, args, ms, i + 1)
      requires Continues(args, ms, i, Choice(if matched then Some(file) else None, ms[i], files, newer), files, newer)
      modifies `at, `size, `tf, `inTf, `header, buf
      ensures Renewed(args, ms, i + 1) && Between(ms, i + 1)
    {
      ghost var m := ReplaceOrKeep(ms, i, matched);
    }

    /** Whether the member is to be replaced, and by what: without arguments every one is. */
    method FindPath(ghost args: Args, ghost ms: seq<Member>, ghost i: nat) returns (matched: bool)
      requires i < |ms| && IsLeft(namv, args, ms, i) && file == NameOf(ms[i])
      modifies `namv, `file
      ensures IsLeft(namv, args, ms, i + 1) && PathFor(old(namv), ms[i]) == if matched then Some(file) else None
    {
      LeftStep(namv, args, ms, i);
      matched := |namv| == 0;
      if !matched { matched := Match(); }
    }

    /** One member of rcmd's loop. */
    method RenewOne(ghost args: Args, ghost ms: seq<Member>, ghost i: nat)
      requires Renewed(args, ms, i) && InMember(ms, i) && file == NameOf(ms[i])
      modifies this, buf
      ensures Renewed(args, ms, i + 1) && Between(ms, i + 1)
    {
      EveryReplaced(namv, args, ms, i, files, newer);
      PlaceRenewed(args, ms, i);
      var matched := FindPath(args, ms, i);
      PlaceRenewal(args, ms, i, matched);
    }

    method RenewAll(ghost args: Args, ghost ms: seq<Member>)
      requires Renewed(args, ms, 0) && Between(ms, 0)
      modifies this, buf
      ensures Temps() && lead && (has1 ==> !lead1)
      ensures IsLeft(namv, args, ms, |ms|) && GoodFiles(files) && buf.Length == 512
      ensures var p := Split(ms, position, after);
        if has1 then p < |ms| && IsReplaced(inTf, args, ms, p, 0, files, newer)
                     && IsReplaced(inTf1, args, ms, |ms|, p, files, newer)
        else p == |ms| && IsReplaced(inTf, args, ms, |ms|, 0, files, newer)
    {
      ghost var i := 0;
      while true
        invariant i <= |ms| && Renewed(args, ms, i) && Between(ms, i)
        decreases |ms| - i
      {
        var eof := GetDir(ms, i);
        if eof { break; }
        RenewOne(args, ms, i);
        i := i + 1;
      }
    }

    /** One argument of cleanup's loop. */
    method AddOne(i: nat, ghost added: seq<Member>, ghost sofar: seq<Member>) returns (ghost more: seq<Member>)
      requires i < |namv| && Temps() && GoodFiles(files) && buf.Length == 512 && Alike(added, sofar)
      modifies `namv, `file, `header, `size, `tf, `inTf, buf
      ensures |namv| == |old(namv)| && namv[i + 1..] == old(namv)[i + 1..] == old(namv)[i..][1..]
      ensures Temps() && inTf == old(inTf) + more && Alike(added + more, sofar + NewMember(old(namv)[i], files))
    {
      more := [];
      assert added + [] == added && sofar + [] == sofar && inTf + [] == inTf;
      if namv[i].Some? {
        file := namv[i].value;
        namv := namv[i := None];
        if file in files {
          ghost var pad := MoveFil(files[file]);
          more := [Made(file, files[file], pad)];
          AlikeNext(added, sofar, more[0], Made(file, files[file], 0));
        }
      }
    }

    /** cleanup: the files named by the arguments that are left follow, in their order. */
    method AddNew() returns (ghost added: seq<Member>)
      requires Temps() && GoodFiles(files) && buf.Length == 512
      modifies `namv, `file, `header, `size, `tf, `inTf, buf
      ensures Temps() && inTf == old(inTf) + added && Alike(added, Inserted(old(namv), files))
    {
      added := [];
      ghost var args := namv;
      var i := 0;
      assert args[..0] == [] && inTf == old(inTf) + added;
      while i < |namv|
        invariant i <= |namv| == |args| && Temps() && inTf == old(inTf) + added
        invariant namv[i..] == args[i..] && Alike(added, Inserted(args[..i], files))
      {
        InsertedNext(args, i, files);
        assert namv[i] == namv[i..][0] == args[i] && args[i..][1..] == args[i + 1..];
        ghost var more := AddOne(i, added, Inserted(args[..i], files));
        Associative(old(inTf), added, more);
        added := added + more;
        i := i + 1;
      }
      assert args[..i] == args;
    }

    /** The rest of rcmd once every member has been seen. */
    method FinishReplace(ghost args: Args, ghost ms: seq<Member>) returns (result: seq<Byte>, ghost kept: seq<Member>)
      requires Temps() && lead && (has1 ==> !lead1)
      requires IsLeft(namv, args, ms, |ms|) && GoodFiles(files) && buf.Length == 512
      requires var p := Split(ms, position, after);
        if has1 then p < |ms| && IsReplaced(inTf, args, ms, p, 0, files, newer)
                     && IsReplaced(inTf1, args, ms, |ms|, p, files, newer)
        else p == |ms| && IsReplaced(inTf, args, ms, |ms|, 0, files, newer)
      modifies this, buf
      ensures Holds(result, true, kept) && Alike(kept, Updated(args, ms, position, after, files, newer))
    {
      ghost var a, left := inTf, namv;
      ghost var added := AddNew();
      UpdatedParts(args, ms, position, after, files, newer, a, added, if has1 then inTf1 else [], left);
      kept := a + added + if has1 then inTf1 else [];
      result := Install(false);
      assert inTf + [] == inTf;
    }

    /** rcmd, which makes an archive that is not there; kept are the members of the new archive, up
        to the bytes that pad them. */
    method Replace(ghost ms: seq<Member>) returns (result: Option<seq<Byte>>, ghost kept: seq<Member>)
      requires Started(ms)
      modifies this, buf
      ensures result.Some? <==> !old(Opens()).NotAnArchive?
      ensures result.Some? ==> Holds(result.value, true, kept) && ReadsBack(result.value, kept)
      ensures result.Some? ==> Alike(kept, Updated(old(namv), ms, position, after, files, newer))
      ensures result.Some? ==> FileIsIn(result.value, old(namv), ms, files, newer)
    {
      kept := [];
      ghost var args := namv;
      var r := GetAf();
      if r.NotAnArchive? { return None, kept; }
      AtStart(archive, ms);
      NoneChosen(args, ms);
      NothingReplaced(args, ms, 0, files, newer);
      RenewAll(args, ms);
      var bytes;
      bytes, kept := FinishReplace(args, ms);
      HeldReadsBack(bytes, kept);
      OneFileReadsBack(bytes, kept, args, ms, position, after, files, newer);
      result := Some(bytes);
    }
  }

  /** A whole body has been read and, unless it was skipped, written. */
  ghost predicate CopiedTo(input: seq<Byte>, from: nat, whole: int, skip: bool, iodd: bool, oodd: bool,
                           out: seq<Byte>, next: nat, pad: Byte)
    requires whole >= 0 && from + Taken(whole, iodd) <= |input|
  {
    next == from + Taken(whole, iodd) && out == (if skip then [] else Copied(input, from, whole, pad, oodd))
    && (iodd && Odd(whole) ==> pad == input[from + whole])
  }

  /** What has been read when size bytes are still to come. */
  ghost predicate Progress(input: seq<Byte>, from: nat, whole: int, size: int, next: nat, body: seq<Byte>,
                           iodd: bool, oodd: bool, pad: Byte)
    requires whole >= 0 && from + Taken(whole, iodd) <= |input|
  {
    if size > 0 then
      size <= whole && (whole - size) % 512 == 0 && next == from + (whole - size) && body == input[from..next]
    else
      next == from + Taken(whole, iodd) && body == Copied(input, from, whole, pad, oodd)
      && (iodd && Odd(whole) ==> pad == input[from + whole])
  }

  lemma Parities(whole: int, size: int)
    requires (whole - size) % 512 == 0
    ensures Odd(size) == Odd(whole) && (whole - (size - 512)) % 512 == 0
  {}

  /** A chunk joined to those before it. */
  lemma Joined(input: seq<Byte>, from: nat, before: nat, whole: int, size: int, had: seq<Byte>, padBefore: Byte,
               piece: seq<Byte>, got: nat, iodd: bool, oodd: bool, pad: Byte)
    requires whole >= 0 && size > 0 && from + Taken(whole, iodd) <= |input|
    requires Progress(input, from, whole, size, before, had, iodd, oodd, padBefore)
    requires size >= 512 && before + 512 <= |input| ==> got == 512 && piece == input[before..before + 512]
    requires size < 512 && before + Taken(size, iodd) <= |input| ==>
      got == Taken(size, iodd) && piece == Copied(input, before, size, pad, oodd)
      && (iodd && Odd(size) ==> pad == input[before + size])
    ensures Progress(input, from, whole, size - 512, before + got, had + piece, iodd, oodd, pad)
  {
    Parities(whole, size);
  }

  /** copyfil's effect, if the input is long enough. */
  ghost predicate Wrote(input: seq<Byte>, from: nat, h: Header, whole: Long, head: bool,
                        skip: bool, iodd: bool, oodd: bool,
                        out: seq<Byte>, next: nat, pad: Byte) {
    whole >= 0 && from + Taken(whole, iodd) <= |input| ==>
      exists body :: CopiedTo(input, from, whole, skip, iodd, oodd, body, next, pad)
        && out == (if head then HeaderBytes(h, whole) else []) + body
  }

  lemma NothingHeld()
    ensures Holds([], false, [])
  {
    assert AllBytes([]) == [];
  }

  lemma Inside(archive: seq<Byte>, a: seq<Byte>, b: seq<Byte>, whole: seq<Byte>)
    requires archive == Magic() + whole && a + b <= whole
    ensures 2 + |a| + |b| <= |archive| && archive[2 + |a|..2 + |a| + |b|] == b
  {}

  lemma Within(archive: seq<Byte>, b: seq<Byte>, from: nat, x: nat, y: nat)
    requires from + |b| <= |archive| && archive[from..from + |b|] == b && x <= y <= |b|
    ensures archive[from + x..from + y] == b[x..y]
  {
    forall k | 0 <= k < y - x ensures archive[from + x..from + y][k] == b[x..y][k] {
      assert archive[from..from + |b|][x + k] == archive[from + (x + k)];
    }
  }

  lemma Prefixes(b: seq<Byte>, input: seq<Byte>, from: nat, i: nat, n: nat)
    requires n <= i <= |b| && from + i <= |input| && b[..i] == input[from..from + i]
    ensures b[..n] == input[from..from + n] && (n < i ==> b[n] == input[from + n])
  {
    forall k | 0 <= k < i ensures b[k] == input[from + k] { assert b[..i][k] == input[from..from + i][k]; }
  }

  /** Where the bytes of member i lie. */
  lemma WholeAt(archive: seq<Byte>, ms: seq<Member>, i: nat, at: nat)
    requires i < |ms| && At(archive, ms, i, at)
    ensures Good(ms[i])
    ensures var n := |MemberBytes(ms[i])|;
      at + n <= |archive| && archive[at..at + n] == MemberBytes(ms[i]) && At(archive, ms, i + 1, at + n)
  {
    var a, whole := AllBytes(ms[..i]), AllBytes(ms);
    MemberAt(ms, i);
    Inside(archive, a, MemberBytes(ms[i]), whole);
  }

  /** Where its header lies. */
  lemma HeaderAt(archive: seq<Byte>, ms: seq<Member>, i: nat, at: nat)
    requires At(archive, ms, i, at)
    ensures if i == |ms| then at == |archive|
            else at + HEADLEN <= |archive| && HeaderOf(archive[at..at + HEADLEN]) == (ms[i].h, |ms[i].body|)
  {
    if i == |ms| {
      assert ms[..i] == ms;
      assert at == 2 + |AllBytes(ms)|;
    } else {
      WholeAt(archive, ms, i, at);
      var m := ms[i];
      HeaderBack(m.h, |m.body|);
      Within(archive, MemberBytes(m), at, 0, HEADLEN);
      assert MemberBytes(m)[0..HEADLEN] == HeaderBytes(m.h, |m.body|);
    }
  }

  /** Where its body and pad lie. */
  lemma BodyAt(archive: seq<Byte>, ms: seq<Member>, i: nat, at: nat)
    requires i < |ms| && at >= HEADLEN && At(archive, ms, i, at - HEADLEN)
    ensures var n := |ms[i].body|;
      at + Taken(n, true) <= |archive| && archive[at..at + n] == ms[i].body && (Odd(n) ==> archive[at + n] == ms[i].pad)
    ensures At(archive, ms, i + 1, at + Taken(|ms[i].body|, true))
  {
    WholeAt(archive, ms, i, at - HEADLEN);
    var m := ms[i];
    MemberParts(m);
    Within(archive, MemberBytes(m), at - HEADLEN, HEADLEN, HEADLEN + |m.body|);
    if Odd(|m.body|) { Within(archive, MemberBytes(m), at - HEADLEN, HEADLEN + |m.body|, HEADLEN + |m.body| + 1); }
  }

  lemma MemberParts(m: Member)
    requires Good(m)
    ensures var b, n := MemberBytes(m), |m.body|;
      |b| == HEADLEN + Taken(n, true) && b[HEADLEN..HEADLEN + n] == m.body
      && (Odd(n) ==> b[HEADLEN + n..HEADLEN + n + 1] == [m.pad])
  {}

  /** A member copied with its header is the bytes of the member. */
  lemma WholeOut(input: seq<Byte>, from: nat, m: Member, iodd: bool, out: seq<Byte>, next: nat, pad: Byte)
    requires Good(m) && from + Taken(|m.body|, iodd) <= |input| && input[from..from + |m.body|] == m.body
    requires Odd(|m.body|) ==> m.pad == if iodd then input[from + |m.body|] else pad
    requires Wrote(input, from, m.h, |m.body|, true, false, iodd, true, out, next, pad)
    ensures out == MemberBytes(m) && next == from + Taken(|m.body|, iodd)
  {
    var body :| CopiedTo(input, from, |m.body|, false, iodd, true, body, next, pad)
        && out == HeaderBytes(m.h, |m.body|) + body;
    assert body == m.body + Padding(m);
  }

  lemma CopiedMember(archive: seq<Byte>, ms: seq<Member>, i: nat, at: nat, out: seq<Byte>, next: nat, pad: Byte,
                     tf: seq<Byte>, magic: bool, xs: seq<Member>)
    requires i < |ms| && at >= HEADLEN && At(archive, ms, i, at - HEADLEN) && Holds(tf, magic, xs)
    requires Good(ms[i]) ==> Wrote(archive, at, ms[i].h, |ms[i].body|, true, false, true, true, out, next, pad)
    ensures At(archive, ms, i + 1, next) && Holds(tf + out, magic, xs + [ms[i]])
  {
    BodyAt(archive, ms, i, at);
    assert Good(ms[i]);
    WholeOut(archive, at, ms[i], true, out, next, pad);
    HoldsNext(tf, magic, xs, ms[i]);
  }

  lemma SkippedMember(archive: seq<Byte>, ms: seq<Member>, i: nat, at: nat, out: seq<Byte>, next: nat, pad: Byte)
    requires i < |ms| && at >= HEADLEN && At(archive, ms, i, at - HEADLEN)
    requires Good(ms[i]) ==> Wrote(archive, at, ms[i].h, |ms[i].body|, false, true, true, false, out, next, pad)
    ensures At(archive, ms, i + 1, next)
  {
    BodyAt(archive, ms, i, at);
    assert Good(ms[i]);
  }

  lemma MovedFile(path: Name, f: File, out: seq<Byte>, next: nat, pad: Byte,
                  tf: seq<Byte>, magic: bool, xs: seq<Member>)
    requires |f.body| < 0x8000_0000 && |f.mode| == 2 && Holds(tf, magic, xs)
    requires Wrote(f.body, 0, Made(path, f, pad).h, |f.body|, true, false, false, true, out, next, pad)
    ensures Holds(tf + out, magic, xs + [Made(path, f, pad)])
  {
    var m := Made(path, f, pad);
    assert f.body[0..|f.body|] == f.body;
    WholeOut(f.body, 0, m, false, out, next, pad);
    HoldsNext(tf, magic, xs, m);
  }

  lemma LastHeld(b: seq<Byte>, ys: seq<Member>) returns (rest: seq<Byte>)
    requires Holds(b, false, ys) && ys != []
    ensures Good(ys[|ys| - 1]) && Holds(rest, false, ys[..|ys| - 1]) && b == rest + MemberBytes(ys[|ys| - 1])
  {
    assert b == [] + AllBytes(ys) == AllBytes(ys);
    rest := AllBytes(ys[..|ys| - 1]);
    assert [] + rest == rest;
  }

  lemma {:induction false} HoldsBoth(a: seq<Byte>, xs: seq<Member>, b: seq<Byte>, ys: seq<Member>)
    requires Holds(a, true, xs) && Holds(b, false, ys)
    ensures Holds(a + b, true, xs + ys)
    decreases |ys|
  {
    if ys == [] {
      assert b == [] by { assert b == [] + AllBytes(ys); }
      assert a + b == a && xs + ys == xs;
    } else {
      var init, m := ys[..|ys| - 1], ys[|ys| - 1];
      var rest := LastHeld(b, ys);
      HoldsBoth(a, xs, rest, init);
      HoldsNext(a + rest, true, xs + init, m);
      Associative(a, rest, MemberBytes(m));
      assert (xs + init) + [m] == xs + ys;
    }
  }

  lemma AtStart(archive: seq<Byte>, ms: seq<Member>)
    requires AllGood(ms) && archive == Magic() + AllBytes(ms)
    ensures archive[..2] == Magic() && At(archive, ms, 0, 2)
  {
    assert ms[..0] == [];
    assert AllBytes(ms[..0]) == [];
  }

  // ------------------------------------------------------------ the lists, a member at a time

  /** left are the arguments left after i members. */
  ghost predicate IsLeft(left: Args, args: Args, ms: seq<Member>, i: nat) {
    && i <= |ms| && |left| == |args|
    && forall xs: seq<Member> {:trigger Left(args, xs)} :: xs == ms[..i] ==> left == Left(args, xs)
  }

  /** list are the members from place p on, up to place i, that are matched or that are not. */
  ghost predicate IsChosen(list: seq<Member>, args: Args, ms: seq<Member>, i: nat, p: nat, matched: bool) {
    && i <= |ms|
    && forall xs: seq<Member> {:trigger Chosen(args, xs, p, matched)} :: xs == ms[..i] ==>
         list == Chosen(args, xs, p, matched)
  }

  lemma NoneChosen(args: Args, ms: seq<Member>)
    ensures IsLeft(args, args, ms, 0) && IsChosen([], args, ms, 0, 0, true) && IsChosen([], args, ms, 0, 0, false)
  {}

  lemma NothingFrom(args: Args, ms: seq<Member>, i: nat, matched: bool)
    requires i <= |ms|
    ensures IsChosen([], args, ms, i, i, matched)
  {}

  lemma LeftStep(left: Args, args: Args, ms: seq<Member>, i: nat)
    requires i < |ms| && IsLeft(left, args, ms, i)
    ensures IsLeft(UsedUp(left, FindArg(left, NameOf(ms[i]))), args, ms, i + 1)
  {
    assert ms[..i + 1][..i] == ms[..i];
    assert left == Left(args, ms[..i]);
  }

  lemma ChosenUnfolds(args: Args, ms: seq<Member>, i: nat, p: nat, matched: bool)
    requires p <= i < |ms|
    ensures var found := FindArg(Left(args, ms[..i]), NameOf(ms[i])) < |args|;
      Chosen(args, ms[..i + 1], p, matched)
      == Chosen(args, ms[..i], p, matched) + if found == matched then [ms[i]] else []
  {
    var xs := ms[..i + 1];
    assert xs[..|xs| - 1] == ms[..i] && xs[|xs| - 1] == ms[i];
  }

  lemma ChosenStep(list: seq<Member>, left: Args, args: Args, ms: seq<Member>, i: nat, p: nat, matched: bool)
    requires p <= i < |ms| && IsLeft(left, args, ms, i) && IsChosen(list, args, ms, i, p, matched)
    ensures var found := FindArg(left, NameOf(ms[i])) < |left|;
      IsChosen(if found == matched then list + [ms[i]] else list, args, ms, i + 1, p, matched)
  {
    ChosenUnfolds(args, ms, i, p, matched);
    assert left == Left(args, ms[..i]);
    assert list + [] == list;
  }

  /** Lists of the members not matched, of i members, go on with member i unless it is found. */
  ghost predicate KeptOn(args: Args, ms: seq<Member>, i: nat, found: bool)
    requires i < |ms|
  {
    forall p: nat, xs :: p <= i && IsChosen(xs, args, ms, i, p, false) ==>
      IsChosen(if found then xs else xs + [ms[i]], args, ms, i + 1, p, false)
  }

  lemma EveryStep(left: Args, args: Args, ms: seq<Member>, i: nat)
    requires i < |ms| && IsLeft(left, args, ms, i)
    ensures KeptOn(args, ms, i, FindArg(left, NameOf(ms[i])) < |left|)
  {
    forall p: nat, xs | p <= i && IsChosen(xs, args, ms, i, p, false)
      ensures IsChosen(if FindArg(left, NameOf(ms[i])) < |left| then xs else xs + [ms[i]], args, ms, i + 1, p, false)
    {
      ChosenStep(xs, left, args, ms, i, p, false);
    }
  }

  lemma AllChosen(list: seq<Member>, args: Args, ms: seq<Member>, p: nat, matched: bool)
    requires IsChosen(list, args, ms, |ms|, p, matched)
    ensures list == Chosen(args, ms, p, matched)
  {
    assert ms[..|ms|] == ms;
  }

  /** The three files put together are what m makes of the members. */
  lemma MovedParts(args: Args, ms: seq<Member>, position: Option<Name>, after: bool,
                   a: seq<Member>, b: seq<Member>, c: seq<Member>)
    requires var p := Split(ms, position, after);
      if p < |ms| then IsChosen(a, args, ms, p, 0, false) && IsChosen(c, args, ms, |ms|, p, false)
      else IsChosen(a, args, ms, |ms|, 0, false) && c == []
    requires b == Chosen(args, ms, 0, true)
    ensures a + b + c == Moved(args, ms, position, after)
  {
    var p := Split(ms, position, after);
    assert ms[..|ms|] == ms;
    assert a == Chosen(args, ms[..p], 0, false);
    if p < |ms| { AllChosen(c, args, ms, p, false); }
    assert c == Chosen(args, ms, p, false);
  }

  // ------------------------------------------------------------ replaced members, up to pads

  function NoPad(m: Member): (r: Member) { m.(pad := 0) }

  ghost predicate Alike(xs: seq<Member>, ys: seq<Member>) {
    |xs| == |ys| && forall k :: 0 <= k < |xs| ==> NoPad(xs[k]) == NoPad(ys[k])
  }

  /** If one file was given that is there: the archive reads back with a member that has its name and
      contents, or u has left it as it was. */
  ghost predicate FileIsIn(bytes: seq<Byte>, args: Args, ms: seq<Member>, fs: Files, newer: bool) {
    |args| == 1 && args[0].Some? && OneGiven(args[0].value, fs) ==>
      var p := args[0].value;
      |bytes| >= 2 && Parse(bytes[2..]).Some?
      && var back := Parse(bytes[2..]).value;
         if exists i :: KeptBack(p, ms, fs[p], newer, i) then Alike(back, ms)
         else exists k :: Carries(back, p, fs[p], k)
  }

  predicate OneGiven(p: Name, fs: Files) { p in fs && WithoutSlashes(p) == p && NameFits(p) }

  lemma OneFileReadsBack(bytes: seq<Byte>, kept: seq<Member>, args: Args, ms: seq<Member>,
                         position: Option<Name>, after: bool, fs: Files, newer: bool)
    requires ReadsBack(bytes, kept) && AllGood(ms)
    requires Alike(kept, Updated(args, ms, position, after, fs, newer))
    ensures FileIsIn(bytes, args, ms, fs, newer)
  {
    if |args| == 1 && args[0].Some? && OneGiven(args[0].value, fs) {
      var p := args[0].value;
      assert args == [Some(p)];
      var us := Updated(args, ms, position, after, fs, newer);
      OneFileIn(p, ms, position, after, fs, newer);
      forall k | 0 <= k < |us| ensures NoPad(TidyAll(kept)[k]) == NoPad(us[k]) {
        assert NoPad(kept[k]) == NoPad(us[k]);
      }
      if k: nat :| Carries(us, p, fs[p], k) {
        assert NoPad(TidyAll(kept)[k]) == NoPad(us[k]);
        assert Carries(TidyAll(kept), p, fs[p], k);
      }
    }
  }

  ghost predicate IsReplaced(list: seq<Member>, args: Args, ms: seq<Member>, i: nat, p: nat, fs: Files, newer: bool) {
    && i <= |ms|
    && forall xs: seq<Member> {:trigger Replaced(args, xs, p, fs, newer)} :: xs == ms[..i] ==>
         Alike(list, Replaced(args, xs, p, fs, newer))
  }

  lemma NothingReplaced(args: Args, ms: seq<Member>, i: nat, fs: Files, newer: bool)
    requires i <= |ms|
    ensures IsReplaced([], args, ms, i, i, fs, newer)
  {}

  lemma ReplacedUnfolds(args: Args, ms: seq<Member>, i: nat, p: nat, fs: Files, newer: bool)
    requires p <= i < |ms|
    ensures Replaced(args, ms[..i + 1], p, fs, newer)
         == Replaced(args, ms[..i], p, fs, newer) + [Choice(PathFor(Left(args, ms[..i]), ms[i]), ms[i], fs, newer)]
  {
    var xs := ms[..i + 1];
    assert xs[..|xs| - 1] == ms[..i] && xs[|xs| - 1] == ms[i];
  }

  lemma AlikeNext(xs: seq<Member>, ys: seq<Member>, x: Member, y: Member)
    requires Alike(xs, ys) && NoPad(x) == NoPad(y)
    ensures Alike(xs + [x], ys + [y])
  {}

  /** One more member, in a list that starts at any place. */
  lemma EveryReplaced(left: Args, args: Args, ms: seq<Member>, i: nat, fs: Files, newer: bool)
    requires i < |ms| && IsLeft(left, args, ms, i)
    ensures Continues(args, ms, i, Choice(PathFor(left, ms[i]), ms[i], fs, newer), fs, newer)
  {
    var choice := Choice(PathFor(left, ms[i]), ms[i], fs, newer);
    forall p: nat, xs, m | p <= i && IsReplaced(xs, args, ms, i, p, fs, newer) && NoPad(m) == NoPad(choice)
      ensures IsReplaced(xs + [m], args, ms, i + 1, p, fs, newer)
    {
      assert left == Left(args, ms[..i]);
      ReplacedUnfolds(args, ms, i, p, fs, newer);
      AlikeNext(xs, Replaced(args, ms[..i], p, fs, newer), m, choice);
    }
  }

  /** Lists of i members replaced go on with choice, up to its pad. */
  ghost predicate Continues(args: Args, ms: seq<Member>, i: nat, choice: Member, fs: Files, newer: bool) {
    forall p: nat, xs, m :: p <= i && IsReplaced(xs, args, ms, i, p, fs, newer) && NoPad(m) == NoPad(choice) ==>
      IsReplaced(xs + [m], args, ms, i + 1, p, fs, newer)
  }

  lemma InsertedNext(args: Args, i: nat, fs: Files)
    requires i < |args|
    ensures Inserted(args[..i + 1], fs)
         == Inserted(args[..i], fs) + NewMember(args[i], fs)
  {
    assert args[..i + 1][..i] == args[..i];
  }

  lemma AlikeJoined(a: seq<Member>, a': seq<Member>, b: seq<Member>, b': seq<Member>)
    requires Alike(a, a') && Alike(b, b')
    ensures Alike(a + b, a' + b')
  {}

  /** The files put together are what r makes of the members. */
  lemma UpdatedParts(args: Args, ms: seq<Member>, position: Option<Name>, after: bool, fs: Files, newer: bool,
                     a: seq<Member>, b: seq<Member>, c: seq<Member>, left: Args)
    requires var p := Split(ms, position, after);
      if p < |ms| then IsReplaced(a, args, ms, p, 0, fs, newer) && IsReplaced(c, args, ms, |ms|, p, fs, newer)
      else IsReplaced(a, args, ms, |ms|, 0, fs, newer) && c == []
    requires IsLeft(left, args, ms, |ms|) && Alike(b, Inserted(left, fs))
    ensures Alike(a + b + c, Updated(args, ms, position, after, fs, newer))
  {
    var p := Split(ms, position, after);
    assert ms[..|ms|] == ms;
    assert left == Left(args, ms);
    var x, z := Replaced(args, ms[..p], 0, fs, newer), Replaced(args, ms, p, fs, newer);
    assert Alike(a, x);
    AlikeJoined(a, x, b, Inserted(left, fs));
    AlikeJoined(a + b, x + Inserted(left, fs), c, z);
  }

  // ------------------------------------------------------------ finding the position

  /** The first member with the position's name, or |ms|. */
  function FirstNamed(ms: seq<Member>, position: Option<Name>): (q: nat)
    ensures q <= |ms|
    decreases |ms|
  {
    if ms == [] then 0
    else if position.Some? && NameOf(ms[0]) == position.value then 0
    else 1 + FirstNamed(ms[1..], position)
  }

  /** bastate before member i: 1 still looking, 2 just after the position, 0 done or never asked. */
  function StateAt(ms: seq<Member>, i: nat, position: Option<Name>, after: bool): (r: nat) {
    var q := FirstNamed(ms, position);
    if position.None? then 0
    else if i <= q then 1
    else if after && i == q + 1 then 2
    else 0
  }

  lemma {:induction false} NamedFirst(ms: seq<Member>, position: Option<Name>, after: bool, i: nat)
    requires i < |ms|
    ensures var q := FirstNamed(ms, position);
      (i < q ==> position.None? || NameOf(ms[i]) != position.value)
      && (i == q ==> position.Some? && NameOf(ms[i]) == position.value)
      && Split(ms, position, after) == if q < |ms| && after then q + 1 else q
    decreases |ms|
  {
    if FirstNamed(ms, position) > 0 {
      if i > 0 { NamedFirst(ms[1..], position, after, i - 1); }
      else if |ms| > 1 { NamedFirst(ms[1..], position, after, 0); }
    }
  }

  lemma StateMoves(ms: seq<Member>, i: nat, position: Option<Name>, after: bool)
    requires i < |ms|
    ensures var s, p := StateAt(ms, i, position, after), Split(ms, position, after);
      var t := StateAt(ms, i + 1, position, after);
      s <= 2 && (s > 0 ==> position.Some?)
      && (if s == 1 && NameOf(ms[i]) != position.value then t == 1 && i != p
          else if s == 1 && after then t == 2 && p == i + 1
          else if s > 0 then t == 0 && p == i
          else t == 0 && i != p)
  {
    NamedFirst(ms, position, after, i);
    if position.None? { NoPosition(ms, after); }
  }

  lemma {:induction false} NoPosition(ms: seq<Member>, after: bool)
    ensures Split(ms, None, after) == |ms| && FirstNamed(ms, None) == |ms|
    decreases |ms|
  {
    if ms != [] { NoPosition(ms[1..], after); }
  }
}
