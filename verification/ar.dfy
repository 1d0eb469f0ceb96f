/** The archiver's files as bytes, and what its commands make of the list of members. */
module Ar {
  import opened Basics
  import opened Sequences

  type Long = x: int | -0x8000_0000 <= x < 0x8000_0000
  type Name = seq<Byte>

  /** A header without its size, which is that of the body. */
  datatype Header = Header(name: Name, date: Long, uid: Byte, gid: Byte, mode: seq<Byte>)

  /** A member; pad is the byte after a body of odd length. */
  datatype Member = Member(h: Header, body: seq<Byte>, pad: Byte)

  const NAMELEN := 14
  const HEADLEN := 26

  predicate GoodHeader(h: Header) { |h.name| == NAMELEN && |h.mode| == 2 }
  predicate Good(m: Member) { GoodHeader(m.h) && |m.body| < 0x8000_0000 }
  predicate AllGood(ms: seq<Member>) { forall i :: 0 <= i < |ms| ==> Good(ms[i]) }

  // ------------------------------------------------------------ bytes

  function LongBytes(x: Long): (b: seq<Byte>)
    ensures |b| == 4
  {
    var u := x % 0x1_0000_0000;
    [u % 0x100, u / 0x100 % 0x100, u / 0x1_0000 % 0x100, u / 0x100_0000]
  }

  function LongOf(b: seq<Byte>): (r: Long)
    requires |b| == 4
  {
    var u := b[0] as int + 0x100 * (b[1] as int) + 0x1_0000 * (b[2] as int) + 0x100_0000 * (b[3] as int);
    if u >= 0x8000_0000 then u - 0x1_0000_0000 else u
  }

  function HeaderBytes(h: Header, size: Long): (b: seq<Byte>)
    ensures |h.name| == NAMELEN && |h.mode| == 2 ==> |b| == HEADLEN
  {
    h.name + (LongBytes(h.date) + ([h.uid, h.gid] + (h.mode + LongBytes(size))))
  }

  /** Reads a header back: its fields and the size. */
  function HeaderOf(b: seq<Byte>): (r: (Header, Long))
    requires |b| == HEADLEN
    ensures |r.0.name| == NAMELEN && |r.0.mode| == 2
  {
    (Header(b[..14], LongOf(b[14..18]), b[18], b[19], b[20..22]), LongOf(b[22..26]))
  }

  predicate Odd(n: int) { n % 2 == 1 }

  function Padding(m: Member): (r: seq<Byte>) { if Odd(|m.body|) then [m.pad] else [] }

  function MemberBytes(m: Member): (r: seq<Byte>)
    requires Good(m)
  {
    HeaderBytes(m.h, |m.body|) + (m.body + Padding(m))
  }

  function AllBytes(ms: seq<Member>): (r: seq<Byte>)
    requires AllGood(ms)
  {
    if ms == [] then [] else assert Good(ms[|ms| - 1]); AllBytes(ms[..|ms| - 1]) + MemberBytes(ms[|ms| - 1])
  }

  function Magic(): (r: seq<Byte>) { [0x65, 0xff] }

  lemma LongBack(x: Long)
    ensures LongOf(LongBytes(x)) == x
  {
    var u: int := x % 0x1_0000_0000;
    Digits(u);
  }

  lemma Digits(u: int)
    requires 0 <= u < 0x1_0000_0000
    ensures u == u % 0x100 + 0x100 * (u / 0x100 % 0x100) + 0x1_0000 * (u / 0x1_0000 % 0x100)
              + 0x100_0000 * (u / 0x100_0000)
  {
    assert u / 0x100 / 0x100 == u / 0x1_0000;
    assert u / 0x1_0000 / 0x100 == u / 0x100_0000;
  }

  /** A header is read back as it was written. */
  lemma HeaderBack(h: Header, size: Long)
    requires GoodHeader(h)
    ensures HeaderOf(HeaderBytes(h, size)) == (h, size)
  {
    var b := HeaderBytes(h, size);
    assert b[..14] == h.name;
    assert b[14..18] == LongBytes(h.date);
    assert b[18] == h.uid && b[19] == h.gid;
    assert b[20..22] == h.mode;
    assert b[22..26] == LongBytes(size);
    LongBack(h.date);
    LongBack(size);
  }

  /** The members found in the bytes after the magic number: until no whole header is left, or a
      body is cut short. */
  function Parse(b: seq<Byte>): (r: Option<seq<Member>>)
    decreases |b|
  {
    if |b| < HEADLEN then (if b == [] then Some([]) else None)
    else
      var (h, size) := HeaderOf(b[..HEADLEN]);
      var end := HEADLEN + size + if Odd(size) then 1 else 0;
      if size < 0 || end > |b| then None
      else
        match Parse(b[end..])
        case None => None
        case Some(ms) => Some([Member(h, b[HEADLEN..HEADLEN + size], if Odd(size) then b[end - 1] else 0)] + ms)
  }

  /** A pad byte that is not there counts as 0. */
  function Tidy(m: Member): (r: Member) { if Odd(|m.body|) then m else m.(pad := 0) }

  function TidyAll(ms: seq<Member>): (r: seq<Member>)
    ensures |r| == |ms|
  {
    seq(|ms|, i requires 0 <= i < |ms| => Tidy(ms[i]))
  }

  lemma ParseOne(m: Member, rest: seq<Byte>)
    requires Good(m)
    ensures Parse(MemberBytes(m) + rest)
         == Following([Tidy(m)], Parse(rest))
  {
    var b := MemberBytes(m) + rest;
    var size := |m.body|;
    var end := HEADLEN + size + if Odd(size) then 1 else 0;
    assert b[..HEADLEN] == HeaderBytes(m.h, size);
    HeaderBack(m.h, size);
    assert b[HEADLEN..HEADLEN + size] == m.body;
    assert b[end..] == rest;
    assert Odd(size) ==> b[end - 1] == m.pad;
  }

  lemma TidyLast(ms: seq<Member>, us: seq<Member>)
    requires ms != []
    ensures TidyAll(ms[..|ms| - 1]) + ([Tidy(ms[|ms| - 1])] + us) == TidyAll(ms) + us
  {}

  lemma BytesLast(ms: seq<Member>, rest: seq<Byte>)
    requires AllGood(ms) && ms != []
    ensures AllGood(ms[..|ms| - 1]) && Good(ms[|ms| - 1])
    ensures AllBytes(ms) + rest == AllBytes(ms[..|ms| - 1]) + (MemberBytes(ms[|ms| - 1]) + rest)
  {
    assert Good(ms[|ms| - 1]);
    Associative(AllBytes(ms[..|ms| - 1]), MemberBytes(ms[|ms| - 1]), rest);
  }

  function Following(m: seq<Member>, r: Option<seq<Member>>): (result: Option<seq<Member>>) {
    match r case None => None case Some(us) => Some(m + us)
  }

  lemma {:induction false} ParseOnto(ms: seq<Member>, rest: seq<Byte>)
    requires AllGood(ms)
    ensures Parse(AllBytes(ms) + rest) == Following(TidyAll(ms), Parse(rest))
    decreases |ms|
  {
    if ms == [] {
      assert AllBytes(ms) + rest == rest;
      match Parse(rest) case None => case Some(us) => assert TidyAll(ms) + us == us;
    } else {
      var init, last := ms[..|ms| - 1], ms[|ms| - 1];
      BytesLast(ms, rest);
      ParseOnto(init, MemberBytes(last) + rest);
      ParseOne(last, rest);
      match Parse(rest) case None => case Some(us) => TidyLast(ms, us);
    }
  }

  /** Every list of members, written out, is a well-formed even-padded archive that parses back. */
  lemma ParseBack(ms: seq<Member>)
    requires AllGood(ms)
    ensures Parse(AllBytes(ms)) == Some(TidyAll(ms)) && !Odd(|AllBytes(ms)|)
  {
    assert AllBytes(ms) + [] == AllBytes(ms);
    ParseOnto(ms, []);
    assert TidyAll(ms) + [] == TidyAll(ms);
    EvenLength(ms);
  }

  lemma {:induction false} EvenLength(ms: seq<Member>)
    requires AllGood(ms)
    ensures !Odd(|AllBytes(ms)|)
    decreases |ms|
  {
    if ms != [] {
      BytesLast(ms, []);
      EvenLength(ms[..|ms| - 1]);
      EvenMember(ms[|ms| - 1]);
      EvenSum(|AllBytes(ms[..|ms| - 1])|, |MemberBytes(ms[|ms| - 1])|);
    }
  }

  lemma EvenSum(a: nat, b: nat)
    requires !Odd(a) && !Odd(b)
    ensures !Odd(a + b)
  {}

  lemma EvenUp(n: nat)
    ensures !Odd(n + if Odd(n) then 1 else 0)
  {}

  lemma EvenMember(m: Member)
    requires Good(m)
    ensures !Odd(|MemberBytes(m)|)
  {
    EvenUp(|m.body|);
    EvenSum(HEADLEN, |m.body| + |Padding(m)|);
  }
}
