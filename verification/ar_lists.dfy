/** What m, d and r do to the list of members. */
module ArLists {
  import opened Basics
  import opened Sequences
  import opened Ar

  // ------------------------------------------------------------ names

  /** The name as a C string: up to the first zero. */
  function CString(b: seq<Byte>): (r: Name) {
    if b == [] || b[0] == 0 then [] else [b[0]] + CString(b[1..])
  }

  function NameOf(m: Member): (r: Name) { CString(m.h.name) }

  const SLASH := 47

  function WithoutSlashes(p: Name): (r: Name) {
    if p != [] && p[|p| - 1] == SLASH then WithoutSlashes(p[..|p| - 1]) else p
  }

  function LastPart(p: Name): (r: Name) {
    if p == [] || p[|p| - 1] == SLASH then [] else LastPart(p[..|p| - 1]) + [p[|p| - 1]]
  }

  /** trim: the last component of a path. */
  function Trim(p: Name): (r: Name) { LastPart(WithoutSlashes(p)) }

  /** The name field of a header: cut to 14 bytes, padded with zeros. */
  function Field(n: Name): (f: Name)
    ensures |f| == NAMELEN
  {
    if |n| >= NAMELEN then n[..NAMELEN] else n + seq(NAMELEN - |n|, i => 0)
  }

  // ------------------------------------------------------------ matching

  type Args = seq<Option<Name>>

  /** The first argument not used up that names n, or |args|. */
  function FindArg(args: Args, n: Name): (i: nat)
    ensures i <= |args| && (i < |args| ==> args[i].Some? && Trim(args[i].value) == n)
    decreases |args|
  {
    if args == [] then 0
    else if args[0].Some? && Trim(args[0].value) == n then 0
    else FindArg(args[1..], n) + 1
  }

  /** An argument trim has looked at: the slashes at its end are overwritten. */
  function Stripped(a: Option<Name>): (r: Option<Name>) {
    if a.Some? then Some(WithoutSlashes(a.value)) else None
  }

  /** The arguments when the one at place i has been used up, and those before it looked at. */
  function UsedUp(args: Args, i: nat): (r: Args)
    ensures |r| == |args|
  {
    seq(|args|, j requires 0 <= j < |args| =>
      if j < i then Stripped(args[j]) else if j == i then None else args[j])
  }

  /** The arguments left after the members have been matched one by one. */
  function Left(args: Args, ms: seq<Member>): (r: Args)
    ensures |r| == |args|
  {
    if ms == [] then args
    else
      var r := Left(args, ms[..|ms| - 1]);
      UsedUp(r, FindArg(r, NameOf(ms[|ms| - 1])))
  }

  /** Whether the last of the members is matched. */
  predicate LastMatched(args: Args, ms: seq<Member>)
    requires ms != []
  {
    FindArg(Left(args, ms[..|ms| - 1]), NameOf(ms[|ms| - 1])) < |args|
  }

  function CountArgs(args: Args, n: Name): (r: nat) {
    if args == [] then 0
    else (if args[0].Some? && Trim(args[0].value) == n then 1 else 0) + CountArgs(args[1..], n)
  }

  function CountMembers(ms: seq<Member>, n: Name): (r: nat) {
    if ms == [] then 0
    else CountMembers(ms[..|ms| - 1], n) + (if NameOf(ms[|ms| - 1]) == n then 1 else 0)
  }

  lemma {:induction false} FindCounts(args: Args, n: Name)
    ensures FindArg(args, n) < |args| <==> CountArgs(args, n) > 0
    decreases |args|
  {
    if args != [] { FindCounts(args[1..], n); }
  }

  /** A path and what trim makes of it name the same member. */
  lemma {:induction false} StrippedNames(p: Name)
    ensures WithoutSlashes(WithoutSlashes(p)) == WithoutSlashes(p) && Trim(WithoutSlashes(p)) == Trim(p)
    decreases |p|
  {
    if p != [] && p[|p| - 1] == SLASH { StrippedNames(p[..|p| - 1]); }
  }

  lemma {:induction false} UsedUpCounts(args: Args, i: nat, n: Name)
    requires i < |args| ==> args[i].Some?
    ensures CountArgs(UsedUp(args, i), n)
         == CountArgs(args, n) - if i < |args| && Trim(args[i].value) == n then 1 else 0
    decreases |args|
  {
    if args != [] {
      var u := UsedUp(args, i);
      if i > 0 {
        UsedUpCounts(args[1..], i - 1, n);
        assert u[1..] == UsedUp(args[1..], i - 1);
        if args[0].Some? { StrippedNames(args[0].value); }
      } else {
        assert u[1..] == args[1..];
      }
    }
  }

  lemma {:induction false} LeftCounts(args: Args, ms: seq<Member>, n: Name)
    ensures CountArgs(Left(args, ms), n)
         == if CountMembers(ms, n) < CountArgs(args, n) then CountArgs(args, n) - CountMembers(ms, n) else 0
    decreases |ms|
  {
    if ms != [] {
      var init, name := ms[..|ms| - 1], NameOf(ms[|ms| - 1]);
      LeftCounts(args, init, n);
      var r := Left(args, init);
      var i := FindArg(r, name);
      FindCounts(r, name);
      UsedUpCounts(r, i, n);
    }
  }

  /** A member is matched exactly when fewer members of its name come before it than there are
      arguments of that name: each argument takes one first occurrence. */
  lemma MatchedIff(args: Args, ms: seq<Member>, i: nat)
    requires i < |ms|
    ensures LastMatched(args, ms[..i + 1]) <==> CountMembers(ms[..i], NameOf(ms[i])) < CountArgs(args, NameOf(ms[i]))
  {
    assert ms[..i + 1][..i] == ms[..i];
    LeftCounts(args, ms[..i], NameOf(ms[i]));
    FindCounts(Left(args, ms[..i]), NameOf(ms[i]));
  }

  /** Member number k was compared with argument j, or took it. */
  ghost predicate Reaches(args: Args, ms: seq<Member>, k: nat, j: nat)
    requires k < |ms|
  {
    FindArg(Left(args, ms[..k]), NameOf(ms[k])) >= j
  }

  /** None of the members has come as far as argument j in the search for its own name. */
  ghost predicate Untouched(args: Args, ms: seq<Member>, j: nat) {
    forall k :: 0 <= k < |ms| ==> !Reaches(args, ms, k, j)
  }

  lemma UntouchedNext(args: Args, ms: seq<Member>, j: nat)
    requires ms != []
    ensures Untouched(args, ms, j)
        <==> Untouched(args, ms[..|ms| - 1], j) && FindArg(Left(args, ms[..|ms| - 1]), NameOf(ms[|ms| - 1])) < j
  {
    var n := |ms| - 1;
    forall k | 0 <= k < n ensures Reaches(args, ms, k, j) <==> Reaches(args, ms[..n], k, j) {
      assert ms[..n][..k] == ms[..k];
    }
    assert Reaches(args, ms, n, j) <==> FindArg(Left(args, ms[..n]), NameOf(ms[n])) >= j;
  }

  /** What one more member does to argument j. */
  lemma {:induction false} LeftLast(args: Args, ms: seq<Member>, j: nat)
    requires j < |args| && ms != []
    ensures var before, i := Left(args, ms[..|ms| - 1]), FindArg(Left(args, ms[..|ms| - 1]), NameOf(ms[|ms| - 1]));
      Left(args, ms)[j] == if i < j then before[j] else if i == j then None else Stripped(before[j])
  {}

  /** An argument is opened with the slashes at its end exactly when no member has come as far as it. */
  lemma {:induction false} SlashesStayIff(args: Args, ms: seq<Member>, j: nat)
    requires j < |args| && args[j].Some? && WithoutSlashes(args[j].value) != args[j].value
    ensures Left(args, ms)[j] == args[j] <==> Untouched(args, ms, j)
    decreases |ms|
  {
    if ms != [] {
      SlashesStayIff(args, ms[..|ms| - 1], j);
      UntouchedNext(args, ms, j);
      LeftLast(args, ms, j);
      LeftIs(args, ms[..|ms| - 1], j);
      StrippedNames(args[j].value);
    }
  }

  /** An argument stays as it is, loses the slashes at its end, or is used up. */
  lemma {:induction false} LeftIs(args: Args, ms: seq<Member>, j: nat)
    requires j < |args|
    ensures Left(args, ms)[j] in {args[j], Stripped(args[j]), None}
    decreases |ms|
  {
    if ms != [] {
      LeftIs(args, ms[..|ms| - 1], j);
      LeftLast(args, ms, j);
      if args[j].Some? { StrippedNames(args[j].value); }
    }
  }

  /** The path of a file in a directory, with a slash too many: d/f/ */
  const DF: Name := [100, 47, 102]
  const DFS: Name := [100, 47, 102, 47]

  /** An archive without members leaves the slash, one with another member does not. */
  lemma {:induction false} SlashOpened(m: Member)
    requires NameOf(m) == [120]
    ensures Left([Some(DFS)], []) == [Some(DFS)] && Left([Some(DFS)], [m]) == [Some(DF)]
  {
    var args: Args, ms := [Some(DFS)], [m];
    SlashStripped();
    NotFound(Some(DFS), [120]);
    assert ms[..|ms| - 1] == [] && Left(args, ms[..|ms| - 1]) == args;
    assert Left(args, ms) == UsedUp(args, 1);
    assert UsedUp(args, 1) == [Some(DF)];
  }

  lemma {:induction false} NotFound(a: Option<Name>, n: Name)
    requires a.Some? && Trim(a.value) != n
    ensures FindArg([a], n) == 1
  {
    assert [a][1..] == [];
  }

  lemma SlashStripped()
    ensures WithoutSlashes(DFS) == DF && Trim(DFS) == [102]
  {
    assert DFS[..3] == DF;
    assert WithoutSlashes(DF) == DF;
    assert LastPart(DF[..2]) == [];
    assert LastPart(DF) == LastPart(DF[..2]) + [102];
  }

  // ------------------------------------------------------------ the lists

  /** The members from place p on that are matched, or that are not. */
  function Chosen(args: Args, ms: seq<Member>, p: nat, matched: bool): (r: seq<Member>)
    decreases |ms|
  {
    if |ms| <= p then []
    else Chosen(args, ms[..|ms| - 1], p, matched)
         + if LastMatched(args, ms) == matched then [ms[|ms| - 1]] else []
  }

  /** Where the list is split: before (or after) the first member named as position, else at its end. */
  function Split(ms: seq<Member>, position: Option<Name>, after: bool): (p: nat)
    ensures p <= |ms|
    decreases |ms|
  {
    if ms == [] then 0
    else if position.Some? && NameOf(ms[0]) == position.value then (if after then 1 else 0)
    else 1 + Split(ms[1..], position, after)
  }

  /** m */
  function Moved(args: Args, ms: seq<Member>, position: Option<Name>, after: bool): (r: seq<Member>) {
    var p := Split(ms, position, after);
    Chosen(args, ms[..p], 0, false) + Chosen(args, ms, 0, true) + Chosen(args, ms, p, false)
  }

  /** d */
  function Deleted(args: Args, ms: seq<Member>): (r: seq<Member>) { Chosen(args, ms, 0, false) }

  /** A file of the system; a path without one cannot be opened. */
  datatype File = File(body: seq<Byte>, date: Long, uid: Byte, gid: Byte, mode: seq<Byte>)

  type Files = map<Name, File>

  predicate GoodFiles(fs: Files) { forall p :: p in fs ==> |fs[p].body| < 0x8000_0000 && |fs[p].mode| == 2 }

  /** The member a file becomes; what pads it is whatever is in the buffer. */
  function Made(path: Name, f: File, pad: Byte): (r: Member) {
    Member(Header(Field(Trim(path)), f.date, f.uid, f.gid, f.mode), f.body, pad)
  }

  /** The path r tries for a member when left are the arguments: without arguments, the member's
      name; else the argument that names it, as trim has left it. */
  function PathFor(left: Args, m: Member): (r: Option<Name>) {
    if left == [] then Some(NameOf(m))
    else if FindArg(left, NameOf(m)) < |left| then Stripped(left[FindArg(left, NameOf(m))])
    else None
  }

  /** What r makes of a member for which path was found. */
  function Choice(path: Option<Name>, m: Member, fs: Files, newer: bool): (r: Member) {
    if path.Some? && path.value in fs && !(newer && fs[path.value].date <= m.h.date)
    then Made(path.value, fs[path.value], 0)
    else m
  }

  /** The members from place p on, replaced where r replaces them; a made member's pad is given as 0. */
  function Replaced(args: Args, ms: seq<Member>, p: nat, fs: Files, newer: bool): (r: seq<Member>)
    decreases |ms|
  {
    if |ms| <= p then []
    else
      var init, m := ms[..|ms| - 1], ms[|ms| - 1];
      Replaced(args, init, p, fs, newer) + [Choice(PathFor(Left(args, init), m), m, fs, newer)]
  }

  function NewMember(a: Option<Name>, fs: Files): (r: seq<Member>) {
    if a.Some? && a.value in fs then [Made(a.value, fs[a.value], 0)] else []
  }

  /** The files that are new, in the order of the arguments. */
  function Inserted(args: Args, fs: Files): (r: seq<Member>) {
    if args == [] then []
    else Inserted(args[..|args| - 1], fs) + NewMember(args[|args| - 1], fs)
  }

  /** r */
  function Updated(args: Args, ms: seq<Member>, position: Option<Name>, after: bool,
                     fs: Files, newer: bool): (r: seq<Member>) {
    var p := Split(ms, position, after);
    Replaced(args, ms[..p], 0, fs, newer) + Inserted(Left(args, ms), fs) + Replaced(args, ms, p, fs, newer)
  }

  // ------------------------------------------------------------ what the lists keep

  lemma {:induction false} ChosenSplits(args: Args, ms: seq<Member>, p: nat, matched: bool)
    requires p <= |ms|
    ensures Chosen(args, ms, 0, matched) == Chosen(args, ms[..p], 0, matched) + Chosen(args, ms, p, matched)
    decreases |ms|
  {
    if |ms| == p {
      assert ms[..p] == ms;
    } else {
      ChosenSplits(args, ms[..|ms| - 1], p, matched);
      assert ms[..|ms| - 1][..p] == ms[..p];
    }
  }

  /** The elements of a and of b are together those of c. */
  ghost predicate Shares(a: seq<Member>, b: seq<Member>, c: seq<Member>) {
    multiset(a + b) == multiset(c)
  }

  lemma AddLeft(a: seq<Member>, b: seq<Member>, c: seq<Member>, m: Member)
    requires Shares(a, b, c)
    ensures Shares(a + [m], b, c + [m])
  {
    assert multiset(a + [m] + b) == multiset(a + b) + multiset{m};
  }

  lemma AddRight(a: seq<Member>, b: seq<Member>, c: seq<Member>, m: Member)
    requires Shares(a, b, c)
    ensures Shares(a, b + [m], c + [m])
  {
    assert a + (b + [m]) == a + b + [m];
  }

  lemma {:induction false} ChosenLast(args: Args, ms: seq<Member>, matched: bool)
    requires ms != []
    ensures Chosen(args, ms, 0, matched)
         == Chosen(args, ms[..|ms| - 1], 0, matched) + if LastMatched(args, ms) == matched then [ms[|ms| - 1]] else []
    ensures ms == ms[..|ms| - 1] + [ms[|ms| - 1]]
    ensures LastMatched(args, ms) != matched ==>
      Chosen(args, ms, 0, matched) == Chosen(args, ms[..|ms| - 1], 0, matched)
  {}

  lemma {:induction false} ChosenPartition(args: Args, ms: seq<Member>)
    ensures Shares(Chosen(args, ms, 0, true), Chosen(args, ms, 0, false), ms)
    decreases |ms|
  {
    if ms == [] {
      assert Chosen(args, ms, 0, true) + Chosen(args, ms, 0, false) == ms;
    } else {
      var init, m := ms[..|ms| - 1], ms[|ms| - 1];
      ChosenPartition(args, init);
      ChosenLast(args, ms, true);
      ChosenLast(args, ms, false);
      if LastMatched(args, ms) {
        AddLeft(Chosen(args, init, 0, true), Chosen(args, init, 0, false), init, m);
      } else {
        AddRight(Chosen(args, init, 0, true), Chosen(args, init, 0, false), init, m);
      }
    }
  }

  /** m permutes the members: every header and body is there, once; those moved and those not
      moved keep their orders. */
  lemma MovedIsPermutation(args: Args, ms: seq<Member>, position: Option<Name>, after: bool)
    ensures multiset(Moved(args, ms, position, after)) == multiset(ms)
  {
    var p := Split(ms, position, after);
    ChosenPartition(args, ms);
    ChosenSplits(args, ms, p, false);
    Rearranged(Chosen(args, ms[..p], 0, false), Chosen(args, ms, 0, true), Chosen(args, ms, p, false), ms);
  }

  lemma Rearranged(a: seq<Member>, b: seq<Member>, c: seq<Member>, ms: seq<Member>)
    requires Shares(b, a + c, ms)
    ensures multiset(a + b + c) == multiset(ms)
  {
    assert multiset(b + (a + c)) == multiset(b) + multiset(a) + multiset(c);
  }

  /** s is t with some elements left out. */
  predicate Subsequence(s: seq<Member>, t: seq<Member>)
    decreases |t|
  {
    s == []
    || (t != [] && (Subsequence(s, t[..|t| - 1])
                    || (s[|s| - 1] == t[|t| - 1] && Subsequence(s[..|s| - 1], t[..|t| - 1]))))
  }

  lemma {:induction false} ChosenInOrder(args: Args, ms: seq<Member>, p: nat, matched: bool)
    ensures Subsequence(Chosen(args, ms, p, matched), ms)
    decreases |ms|
  {
    if |ms| > p {
      var c := Chosen(args, ms[..|ms| - 1], p, matched);
      ChosenInOrder(args, ms[..|ms| - 1], p, matched);
      if LastMatched(args, ms) == matched {
        assert Chosen(args, ms, p, matched) == c + [ms[|ms| - 1]];
        assert (c + [ms[|ms| - 1]])[..|c|] == c;
      } else {
        assert Chosen(args, ms, p, matched) == c;
      }
    }
  }

  lemma CountLast(d: seq<Member>, m: Member, n: Name)
    ensures CountMembers(d + [m], n) == CountMembers(d, n) + if NameOf(m) == n then 1 else 0
  {
    assert (d + [m])[..|d|] == d;
  }

  lemma DeletedLast(args: Args, ms: seq<Member>, n: Name)
    requires ms != []
    ensures CountMembers(Deleted(args, ms), n) == CountMembers(Deleted(args, ms[..|ms| - 1]), n)
         + if !LastMatched(args, ms) && NameOf(ms[|ms| - 1]) == n then 1 else 0
  {
    var d := Deleted(args, ms[..|ms| - 1]);
    CountLast(d, ms[|ms| - 1], n);
    assert d + [] == d;
  }

  /** d removes as many members of a name as there are arguments of that name, if it can. */
  lemma {:induction false} DeletedCounts(args: Args, ms: seq<Member>, n: Name)
    ensures CountMembers(Deleted(args, ms), n)
         == if CountArgs(args, n) < CountMembers(ms, n) then CountMembers(ms, n) - CountArgs(args, n) else 0
    decreases |ms|
  {
    if ms != [] {
      var k := |ms| - 1;
      DeletedCounts(args, ms[..k], n);
      DeletedLast(args, ms, n);
      MatchedIff(args, ms, k);
      assert ms[..k + 1] == ms;
    }
  }

  /** r replaces in place: as many members as before, at the same places, and the new ones where
      the position says. */
  lemma {:induction false} ReplacedInPlace(args: Args, ms: seq<Member>, p: nat, fs: Files, newer: bool, i: nat)
    requires p <= i < |ms|
    ensures |Replaced(args, ms, p, fs, newer)| == |ms| - p
    ensures Replaced(args, ms, p, fs, newer)[i - p] == Choice(PathFor(Left(args, ms[..i]), ms[i]), ms[i], fs, newer)
    decreases |ms|
  {
    if i < |ms| - 1 {
      ReplacedInPlace(args, ms[..|ms| - 1], p, fs, newer, i);
      assert ms[..|ms| - 1][..i] == ms[..i];
    } else {
      ReplacedLength(args, ms[..|ms| - 1], p, fs, newer);
    }
  }

  lemma {:induction false} ReplacedLength(args: Args, ms: seq<Member>, p: nat, fs: Files, newer: bool)
    requires p <= |ms|
    ensures |Replaced(args, ms, p, fs, newer)| == |ms| - p
    decreases |ms|
  {
    if |ms| > p { ReplacedLength(args, ms[..|ms| - 1], p, fs, newer); }
  }

  lemma {:induction false} CStringBack(n: Name, k: nat)
    requires forall i :: 0 <= i < |n| ==> n[i] != 0
    ensures CString(n + seq(k, i => 0)) == n
    decreases |n|
  {
    var s := n + seq(k, i => 0);
    if n != [] {
      assert s[1..] == n[1..] + seq(k, i => 0);
      CStringBack(n[1..], k);
    }
  }

  /** A file's name, if it fits, is the name of the member it becomes. */
  lemma MadeIsNamed(path: Name, f: File, pad: Byte)
    requires |Trim(path)| <= NAMELEN && forall i :: 0 <= i < |Trim(path)| ==> Trim(path)[i] != 0
    ensures NameOf(Made(path, f, pad)) == Trim(path)
  {
    CStringBack(Trim(path), NAMELEN - |Trim(path)|);
    if |Trim(path)| == NAMELEN { assert Field(Trim(path)) == Trim(path) + seq(0, i => 0); }
  }

  // ------------------------------------------------------------ what r keeps, counted

  lemma {:induction false} CStringFits(b: seq<Byte>)
    ensures |CString(b)| <= |b| && forall i :: 0 <= i < |CString(b)| ==> CString(b)[i] != 0
    decreases |b|
  {
    if b != [] && b[0] != 0 { CStringFits(b[1..]); }
  }

  predicate NoSlash(n: Name) { forall i :: 0 <= i < |n| ==> n[i] != SLASH }

  lemma {:induction false} PlainTrim(n: Name)
    requires NoSlash(n)
    ensures Trim(n) == n
    decreases |n|
  {
    if n != [] {
      PlainTrim(n[..|n| - 1]);
      assert WithoutSlashes(n[..|n| - 1]) == n[..|n| - 1] && WithoutSlashes(n) == n;
    }
  }

  /** The path tried for a member names it. */
  lemma PathNames(left: Args, m: Member)
    requires PathFor(left, m).Some? && (left == [] ==> NoSlash(NameOf(m)))
    ensures Trim(PathFor(left, m).value) == NameOf(m)
  {
    if left == [] {
      PlainTrim(NameOf(m));
    } else {
      StrippedNames(left[FindArg(left, NameOf(m))].value);
    }
  }

  /** A replaced member keeps its name. */
  lemma ChoiceKeepsName(left: Args, m: Member, fs: Files, newer: bool)
    requires Good(m) && (left == [] ==> NoSlash(NameOf(m)))
    ensures NameOf(Choice(PathFor(left, m), m, fs, newer)) == NameOf(m)
  {
    var path := PathFor(left, m);
    if path.Some? && path.value in fs {
      PathNames(left, m);
      CStringFits(m.h.name);
      MadeIsNamed(path.value, fs[path.value], 0);
    }
  }

  lemma {:induction false} CountJoin(a: seq<Member>, b: seq<Member>, n: Name)
    ensures CountMembers(a + b, n) == CountMembers(a, n) + CountMembers(b, n)
    decreases |b|
  {
    if b == [] {
      assert a + b == a;
    } else {
      CountJoin(a, b[..|b| - 1], n);
      assert (a + b)[..|a + b| - 1] == a + b[..|b| - 1];
    }
  }

  predicate NamesPlain(args: Args, ms: seq<Member>) {
    args == [] ==> forall i :: 0 <= i < |ms| ==> NoSlash(NameOf(ms[i]))
  }

  lemma {:induction false} ReplacedCounts(args: Args, ms: seq<Member>, p: nat, fs: Files, newer: bool, n: Name)
    requires p <= |ms| && AllGood(ms) && NamesPlain(args, ms)
    ensures CountMembers(Replaced(args, ms, p, fs, newer), n) + CountMembers(ms[..p], n) == CountMembers(ms, n)
    decreases |ms|
  {
    if |ms| == p {
      assert ms[..p] == ms;
    } else {
      var init, m := ms[..|ms| - 1], ms[|ms| - 1];
      assert Good(m) && init[..p] == ms[..p];
      ReplacedCounts(args, init, p, fs, newer, n);
      ChoiceKeepsName(Left(args, init), m, fs, newer);
      CountLast(Replaced(args, init, p, fs, newer), Choice(PathFor(Left(args, init), m), m, fs, newer), n);
    }
  }

  /** The arguments left that name n and can be opened. */
  function CountFound(args: Args, fs: Files, n: Name): (r: nat) {
    if args == [] then 0
    else CountFound(args[..|args| - 1], fs, n)
         + CountMembers(NewMember(args[|args| - 1], fs), n)
  }

  lemma {:induction false} InsertedCounts(args: Args, fs: Files, n: Name)
    ensures CountMembers(Inserted(args, fs), n) == CountFound(args, fs, n)
    decreases |args|
  {
    if args != [] {
      InsertedCounts(args[..|args| - 1], fs, n);
      CountJoin(Inserted(args[..|args| - 1], fs), NewMember(args[|args| - 1], fs), n);
    }
  }

  /** r keeps every member, under its name, and adds what it finds of the arguments that are left. */
  lemma UpdatedCounts(args: Args, ms: seq<Member>, position: Option<Name>, after: bool, fs: Files, newer: bool, n: Name)
    requires AllGood(ms) && NamesPlain(args, ms)
    ensures CountMembers(Updated(args, ms, position, after, fs, newer), n)
         == CountMembers(ms, n) + CountFound(Left(args, ms), fs, n)
  {
    var p := Split(ms, position, after);
    var a, c := Replaced(args, ms[..p], 0, fs, newer), Replaced(args, ms, p, fs, newer);
    var b := Inserted(Left(args, ms), fs);
    ReplacedCounts(args, ms[..p], 0, fs, newer, n);
    ReplacedCounts(args, ms, p, fs, newer, n);
    InsertedCounts(Left(args, ms), fs, n);
    CountJoin(a, b, n);
    CountJoin(a + b, c, n);
  }

  /** A path whose last component fits the name field of a header. */
  predicate NameFits(p: Name) { |Trim(p)| <= NAMELEN && forall i :: 0 <= i < |Trim(p)| ==> Trim(p)[i] != 0 }

  /** The argument can be opened with the slashes at its end, and without them. */
  predicate Opens(a: Option<Name>, fs: Files) {
    a.Some? ==> NameFits(a.value) && a.value in fs && WithoutSlashes(a.value) in fs
  }

  predicate AllOpen(args: Args, fs: Files) { forall j :: 0 <= j < |args| ==> Opens(args[j], fs) }

  lemma {:induction false} LeftOpens(args: Args, ms: seq<Member>, fs: Files)
    requires AllOpen(args, fs)
    ensures AllOpen(Left(args, ms), fs)
    decreases |ms|
  {
    if ms != [] {
      LeftOpens(args, ms[..|ms| - 1], fs);
      var before := Left(args, ms[..|ms| - 1]);
      forall j | 0 <= j < |args| ensures Opens(Left(args, ms)[j], fs) {
        LeftLast(args, ms, j);
        if before[j].Some? { StrippedNames(before[j].value); }
      }
    }
  }

  lemma {:induction false} CountArgsLast(args: Args, n: Name)
    requires args != []
    ensures CountArgs(args, n) == CountArgs(args[..|args| - 1], n) + CountArgs([args[|args| - 1]], n)
    decreases |args|
  {
    var a := args[|args| - 1];
    if |args| == 1 {
      assert args == [a] && args[..0] == [];
    } else {
      CountArgsLast(args[1..], n);
      assert args[1..][..|args| - 2] == args[..|args| - 1][1..];
    }
  }

  lemma OneFound(a: Option<Name>, fs: Files, n: Name)
    requires Opens(a, fs)
    ensures CountMembers(NewMember(a, fs), n) == CountArgs([a], n)
  {
    assert [a][1..] == [];
    if a.Some? {
      var m := Made(a.value, fs[a.value], 0);
      MadeIsNamed(a.value, fs[a.value], 0);
      assert [m][..0] == [] && CountMembers([m], n) == CountMembers([m][..0], n) + if NameOf(m) == n then 1 else 0;
    }
  }

  lemma {:induction false} AllFound(args: Args, fs: Files, n: Name)
    requires AllOpen(args, fs)
    ensures CountFound(args, fs, n) == CountArgs(args, n)
    decreases |args|
  {
    if args != [] {
      AllFound(args[..|args| - 1], fs, n);
      CountArgsLast(args, n);
      assert Opens(args[|args| - 1], fs);
      OneFound(args[|args| - 1], fs, n);
    }
  }

  /** If all the files are there and their names fit, then of each name there are as many members as
      there were, or as many as arguments, whichever is more. */
  lemma UpdatedHasLarger(args: Args, ms: seq<Member>, position: Option<Name>, after: bool,
                         fs: Files, newer: bool, n: Name)
    requires AllGood(ms) && NamesPlain(args, ms) && AllOpen(args, fs)
    ensures CountMembers(Updated(args, ms, position, after, fs, newer), n)
         == if CountArgs(args, n) > CountMembers(ms, n) then CountArgs(args, n) else CountMembers(ms, n)
  {
    UpdatedCounts(args, ms, position, after, fs, newer, n);
    LeftOpens(args, ms, fs);
    AllFound(Left(args, ms), fs, n);
    LeftCounts(args, ms, n);
  }

  // ------------------------------------------------------------ the same file again

  lemma {:induction false} ReplacedGood(args: Args, ms: seq<Member>, p: nat, fs: Files, newer: bool)
    requires AllGood(ms) && GoodFiles(fs)
    ensures AllGood(Replaced(args, ms, p, fs, newer))
    decreases |ms|
  {
    if |ms| > p {
      assert Good(ms[|ms| - 1]);
      ReplacedGood(args, ms[..|ms| - 1], p, fs, newer);
    }
  }

  lemma {:induction false} InsertedGood(args: Args, fs: Files)
    requires GoodFiles(fs)
    ensures AllGood(Inserted(args, fs))
    decreases |args|
  {
    if args != [] { InsertedGood(args[..|args| - 1], fs); }
  }

  lemma UpdatedGood(args: Args, ms: seq<Member>, position: Option<Name>, after: bool, fs: Files, newer: bool)
    requires AllGood(ms) && GoodFiles(fs)
    ensures AllGood(Updated(args, ms, position, after, fs, newer))
  {
    var p := Split(ms, position, after);
    ReplacedGood(args, ms[..p], 0, fs, newer);
    ReplacedGood(args, ms, p, fs, newer);
    InsertedGood(Left(args, ms), fs);
  }

  /** One file is added exactly when there is no member of its name. */
  lemma OneFileUpdates(p: Name, ms: seq<Member>, position: Option<Name>, after: bool, fs: Files, newer: bool)
    requires p in fs && WithoutSlashes(p) == p
    ensures |Updated([Some(p)], ms, position, after, fs, newer)|
         == |ms| + if CountMembers(ms, Trim(p)) == 0 then 1 else 0
  {
    var args: Args, q := [Some(p)], Split(ms, position, after);
    var left := Left(args, ms);
    ReplacedLength(args, ms[..q], 0, fs, newer);
    ReplacedLength(args, ms, q, fs, newer);
    LeftIs(args, ms, 0);
    LeftCounts(args, ms, Trim(p));
    assert args[1..] == [] && left[1..] == [] && left[..0] == [];
    assert |Inserted(left, fs)| == |NewMember(left[0], fs)|;
  }

  /** No member has a name that does not fit. */
  lemma {:induction false} LongNameNotThere(ms: seq<Member>, n: Name)
    requires AllGood(ms) && |n| > NAMELEN
    ensures CountMembers(ms, n) == 0
    decreases |ms|
  {
    if ms != [] {
      assert Good(ms[|ms| - 1]);
      CStringFits(ms[|ms| - 1].h.name);
      LongNameNotThere(ms[..|ms| - 1], n);
    }
  }

  /** Giving r the same file again leaves the number of members as it is exactly when the file's
      name fits; a longer one is cut in the header, is never found there, and is added every time. */
  lemma AgainIff(p: Name, ms: seq<Member>, position: Option<Name>, after: bool, fs: Files, newer: bool)
    requires p in fs && WithoutSlashes(p) == p && GoodFiles(fs) && AllGood(ms)
    requires forall i :: 0 <= i < |Trim(p)| ==> Trim(p)[i] != 0
    ensures var once := Updated([Some(p)], ms, position, after, fs, newer);
      |Updated([Some(p)], once, position, after, fs, newer)| == |once| <==> |Trim(p)| <= NAMELEN
  {
    var args: Args := [Some(p)];
    var once := Updated(args, ms, position, after, fs, newer);
    UpdatedGood(args, ms, position, after, fs, newer);
    OneFileUpdates(p, once, position, after, fs, newer);
    if |Trim(p)| > NAMELEN {
      LongNameNotThere(once, Trim(p));
    } else {
      ThereOnce(p, ms, position, after, fs, newer);
    }
  }

  lemma ThereOnce(p: Name, ms: seq<Member>, position: Option<Name>, after: bool, fs: Files, newer: bool)
    requires p in fs && WithoutSlashes(p) == p && AllGood(ms) && NameFits(p)
    ensures CountMembers(Updated([Some(p)], ms, position, after, fs, newer), Trim(p)) > 0
  {
    var args: Args := [Some(p)];
    UpdatedHasLarger(args, ms, position, after, fs, newer, Trim(p));
    assert args[1..] == [];
  }
}
