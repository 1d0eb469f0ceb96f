/** What r makes of every member, and which members m and d take, by names and counts alone. */
module ArReplace {
  import opened Basics
  import opened Sequences
  import opened Ar
  import opened ArLists

  // ------------------------------------------------------------ which argument a member takes

  /** Argument j is the one that names n and comes after c others that do. */
  predicate IsNth(args: Args, n: Name, c: nat, j: nat) {
    j < |args| && args[j].Some? && Trim(args[j].value) == n && CountArgs(args[..j], n) == c
  }

  lemma {:induction false} FindInPrefix(args: Args, n: Name, j: nat)
    requires j <= |args|
    ensures FindArg(args[..j], n) == if FindArg(args, n) < j then FindArg(args, n) else j
    decreases |args|
  {
    if j > 0 {
      assert args[..j][1..] == args[1..][..j - 1];
      FindInPrefix(args[1..], n, j - 1);
    } else {
      assert args[..j] == [];
    }
  }

  /** The first arguments are used up as if they were alone. */
  lemma {:induction false} LeftPrefix(args: Args, ms: seq<Member>, j: nat)
    requires j <= |args|
    ensures Left(args, ms)[..j] == Left(args[..j], ms)
    decreases |ms|
  {
    if ms != [] {
      var before, n := Left(args, ms[..|ms| - 1]), NameOf(ms[|ms| - 1]);
      LeftPrefix(args, ms[..|ms| - 1], j);
      FindInPrefix(before, n, j);
      UsedUpPrefix(before, FindArg(before, n), j);
    }
  }

  lemma UsedUpPrefix(args: Args, i: nat, j: nat)
    requires j <= |args|
    ensures UsedUp(args, i)[..j] == UsedUp(args[..j], if i < j then i else j)
  {}

  lemma {:induction false} CountOneMore(args: Args, n: Name, j: nat)
    requires j < |args|
    ensures CountArgs(args[..j + 1], n)
         == CountArgs(args[..j], n) + if args[j].Some? && Trim(args[j].value) == n then 1 else 0
  {
    CountArgsLast(args[..j + 1], n);
    assert args[..j + 1][..j] == args[..j] && [args[j]][1..] == [];
  }

  lemma {:induction false} UsedCount(args: Args, ms: seq<Member>, n: Name, j: nat)
    requires j <= |args|
    ensures CountArgs(Left(args, ms)[..j], n)
      == if CountMembers(ms, n) < CountArgs(args[..j], n) then CountArgs(args[..j], n) - CountMembers(ms, n) else 0
  {
    LeftPrefix(args, ms, j);
    LeftCounts(args[..j], ms, n);
  }

  lemma {:induction false} NoneBefore(left: Args, n: Name, j: nat)
    requires j == FindArg(left, n) < |left|
    ensures CountArgs(left[..j], n) == 0 && CountArgs(left[..j + 1], n) == 1
  {
    FindInPrefix(left, n, j);
    FindCounts(left[..j], n);
    CountOneMore(left, n, j);
  }

  lemma {:induction false} SameNamed(args: Args, ms: seq<Member>, j: nat)
    requires j < |args| && Left(args, ms)[j].Some?
    ensures args[j].Some? && WithoutSlashes(Left(args, ms)[j].value) == WithoutSlashes(args[j].value)
    ensures Trim(Left(args, ms)[j].value) == Trim(args[j].value)
  {
    LeftIs(args, ms, j);
    if args[j].Some? { StrippedNames(args[j].value); }
  }

  /** A member takes the argument of its name that has as many before it as there are members of
      that name before the member: the first takes the first, and so on. */
  lemma {:induction false} TakesNth(args: Args, ms: seq<Member>, n: Name, j: nat)
    requires j == FindArg(Left(args, ms), n) < |args|
    ensures IsNth(args, n, CountMembers(ms, n), j)
    ensures Left(args, ms)[j].Some? && WithoutSlashes(Left(args, ms)[j].value) == WithoutSlashes(args[j].value)
  {
    SameNamed(args, ms, j);
    NoneBefore(Left(args, ms), n, j);
    UsedCount(args, ms, n, j);
    UsedCount(args, ms, n, j + 1);
    CountOneMore(args, n, j);
  }

  // ------------------------------------------------------------ r

  /** path is the file r looks for when it comes to member i: the one of that name without arguments,
      else that of the member's own argument. */
  predicate IsPath(args: Args, ms: seq<Member>, i: nat, path: Name)
    requires i < |ms|
  {
    var n := NameOf(ms[i]);
    if args == [] then path == n
    else exists j :: 0 <= j < |args| && IsNth(args, n, CountMembers(ms[..i], n), j)
                     && path == WithoutSlashes(args[j].value)
  }

  /** The member has the file's contents, under its old name. */
  predicate IsFrom(r: Member, m: Member, f: File) {
    r.body == f.body && NameOf(r) == NameOf(m)
    && r.h.date == f.date && r.h.uid == f.uid && r.h.gid == f.gid && r.h.mode == f.mode
  }

  lemma {:induction false} PathIs(args: Args, ms: seq<Member>, i: nat)
    requires i < |ms|
    ensures var p := PathFor(Left(args, ms[..i]), ms[i]);
      forall path :: IsPath(args, ms, i, path) <==> p == Some(path)
  {
    var left, n := Left(args, ms[..i]), NameOf(ms[i]);
    if args != [] {
      var j, c := FindArg(left, n), CountMembers(ms[..i], n);
      FindCounts(left, n);
      LeftCounts(args, ms[..i], n);
      if j < |args| { TakesNth(args, ms[..i], n, j); }
      forall k | IsNth(args, n, c, k) ensures j == k {
        NthIsFound(args, ms[..i], n, k);
      }
    }
  }

  lemma NthIsFound(args: Args, ms: seq<Member>, n: Name, k: nat)
    requires IsNth(args, n, CountMembers(ms, n), k)
    ensures FindArg(Left(args, ms), n) == k
  {
    var left := Left(args, ms);
    CountOneMore(args, n, k);
    UsedCount(args, ms, n, k);
    UsedCount(args, ms, n, k + 1);
    FindCounts(left[..k], n);
    FindCounts(left[..k + 1], n);
    FindInPrefix(left, n, k);
    FindInPrefix(left, n, k + 1);
  }

  /** Where member i is after r: the new members go between those before the split and the others. */
  function PlaceOf(ms: seq<Member>, position: Option<Name>, after: bool, i: nat, total: nat): (k: nat)
    requires total >= |ms|
  {
    if i < Split(ms, position, after) then i else i + (total - |ms|)
  }

  lemma InThree<T>(a: seq<T>, b: seq<T>, c: seq<T>, us: seq<T>, i: nat, k: nat, x: T)
    requires us == a + b + c && i < |a| + |c| && x == if i < |a| then a[i] else c[i - |a|]
    requires k == if i < |a| then i else i + (|us| - (|a| + |c|))
    ensures k < |us| && us[k] == x
  {}

  lemma InSecond<T>(a: seq<T>, b: seq<T>, c: seq<T>, k: nat)
    requires k < |b|
    ensures (a + b + c)[|a| + k] == b[k]
  {}

  lemma {:induction false} BeforeSplit(args: Args, ms: seq<Member>, p: nat, fs: Files, newer: bool, i: nat)
    requires i < p <= |ms|
    ensures |Replaced(args, ms[..p], 0, fs, newer)| == p
    ensures Replaced(args, ms[..p], 0, fs, newer)[i] == Choice(PathFor(Left(args, ms[..i]), ms[i]), ms[i], fs, newer)
  {
    ReplacedInPlace(args, ms[..p], 0, fs, newer, i);
    assert ms[..p][..i] == ms[..i];
  }

  /** The three parts of the list r makes. */
  function Parts(args: Args, ms: seq<Member>, position: Option<Name>, after: bool, fs: Files, newer: bool):
    (r: (seq<Member>, seq<Member>, seq<Member>))
    ensures |r.0| == Split(ms, position, after) && |r.2| == |ms| - Split(ms, position, after)
    ensures Updated(args, ms, position, after, fs, newer) == r.0 + r.1 + r.2
  {
    var p := Split(ms, position, after);
    ReplacedLength(args, ms[..p], 0, fs, newer);
    ReplacedLength(args, ms, p, fs, newer);
    (Replaced(args, ms[..p], 0, fs, newer), Inserted(Left(args, ms), fs), Replaced(args, ms, p, fs, newer))
  }

  /** What r makes of member i, wherever it puts it. */
  predicate Becomes(args: Args, ms: seq<Member>, fs: Files, newer: bool, i: nat, m: Member)
    requires i < |ms|
  {
    m == Choice(PathFor(Left(args, ms[..i]), ms[i]), ms[i], fs, newer)
  }

  lemma {:induction false} KeptAt(args: Args, ms: seq<Member>, p: nat, fs: Files, newer: bool, i: nat,
                                  a: seq<Member>, c: seq<Member>, m: Member)
    requires i < |ms| && p <= |ms| && Becomes(args, ms, fs, newer, i, m)
    requires a == Replaced(args, ms[..p], 0, fs, newer) && c == Replaced(args, ms, p, fs, newer)
    ensures |a| == p && |c| == |ms| - p
    ensures (if i < p then a[i] else c[i - p]) == m
  {
    ReplacedLength(args, ms[..p], 0, fs, newer);
    ReplacedLength(args, ms, p, fs, newer);
    if i < p { BeforeSplit(args, ms, p, fs, newer, i); } else { ReplacedInPlace(args, ms, p, fs, newer, i); }
  }

  lemma {:induction false} PartsAt(args: Args, ms: seq<Member>, position: Option<Name>, after: bool,
                                   fs: Files, newer: bool, i: nat, m: Member)
    returns (a: seq<Member>, b: seq<Member>, c: seq<Member>)
    requires i < |ms| && Becomes(args, ms, fs, newer, i, m)
    ensures Updated(args, ms, position, after, fs, newer) == a + b + c
    ensures |a| == Split(ms, position, after) && |a| + |c| == |ms|
    ensures (if i < |a| then a[i] else c[i - |a|]) == m
  {
    var parts := Parts(args, ms, position, after, fs, newer);
    a, b, c := parts.0, parts.1, parts.2;
    KeptAt(args, ms, Split(ms, position, after), fs, newer, i, a, c, m);
  }

  lemma {:induction false} UpdatedAt(args: Args, ms: seq<Member>, position: Option<Name>, after: bool,
                                     fs: Files, newer: bool, i: nat, m: Member)
    requires i < |ms| && Becomes(args, ms, fs, newer, i, m)
    ensures var us := Updated(args, ms, position, after, fs, newer);
      |ms| <= |us| && var k := PlaceOf(ms, position, after, i, |us|); k < |us| && us[k] == m
  {
    var a, b, c := PartsAt(args, ms, position, after, fs, newer, i, m);
    InThree(a, b, c, a + b + c, i, PlaceOf(ms, position, after, i, |a + b + c|), m);
  }

  lemma ChoiceIs(left: Args, m: Member, fs: Files, newer: bool, path: Name)
    requires Good(m) && (left == [] ==> NoSlash(NameOf(m))) && PathFor(left, m) == Some(path)
    ensures var r := Choice(Some(path), m, fs, newer);
      if path in fs && (newer ==> m.h.date < fs[path].date) then IsFrom(r, m, fs[path]) else r == m
  {
    ChoiceKeepsName(left, m, fs, newer);
  }

  /** r with each member: if its file is there and, with u, newer, it has the file's contents; else it
      is as it was.  In both cases it is where it was, but for the new ones. */
  lemma {:induction false} MemberAfter(args: Args, ms: seq<Member>, position: Option<Name>, after: bool,
                                       fs: Files, newer: bool, i: nat)
    requires i < |ms| && AllGood(ms) && NamesPlain(args, ms)
    ensures var us := Updated(args, ms, position, after, fs, newer);
      && |ms| <= |us| && var k := PlaceOf(ms, position, after, i, |us|);
      && k < |us|
      && (forall path :: IsPath(args, ms, i, path) && path in fs && (newer ==> ms[i].h.date < fs[path].date) ==>
            IsFrom(us[k], ms[i], fs[path]))
      && ((forall path :: IsPath(args, ms, i, path) && path in fs ==> newer && fs[path].date <= ms[i].h.date) ==>
            us[k] == ms[i])
  {
    var left := Left(args, ms[..i]);
    var p := PathFor(left, ms[i]);
    UpdatedAt(args, ms, position, after, fs, newer, i, Choice(p, ms[i], fs, newer));
    PathIs(args, ms, i);
    assert Good(ms[i]);
    if p.Some? { ChoiceIs(left, ms[i], fs, newer, p.value); }
  }

  // ------------------------------------------------------------ m and d

  /** Fewer members of its name come before member i than there are arguments of that name. */
  predicate IsTaken(args: Args, ms: seq<Member>, i: nat)
    requires i < |ms|
  {
    CountMembers(ms[..i], NameOf(ms[i])) < CountArgs(args, NameOf(ms[i]))
  }

  /** Those of the members from place p up to place i that are taken, or not. */
  function Picked(args: Args, ms: seq<Member>, p: nat, i: nat, taken: bool): (r: seq<Member>)
    requires i <= |ms|
  {
    if i <= p then []
    else Picked(args, ms, p, i - 1, taken) + if IsTaken(args, ms, i - 1) == taken then [ms[i - 1]] else []
  }

  lemma {:induction false} ChosenIsPicked(args: Args, ms: seq<Member>, p: nat, i: nat, taken: bool)
    requires i <= |ms|
    ensures Chosen(args, ms[..i], p, taken) == Picked(args, ms, p, i, taken)
    decreases i
  {
    if i > p {
      ChosenIsPicked(args, ms, p, i - 1, taken);
      MatchedIff(args, ms, i - 1);
      assert ms[..i][..i - 1] == ms[..i - 1];
    }
  }

  /** d leaves the members that are not taken. */
  lemma DeletedIsPicked(args: Args, ms: seq<Member>)
    ensures Deleted(args, ms) == Picked(args, ms, 0, |ms|, false)
  {
    ChosenIsPicked(args, ms, 0, |ms|, false);
    assert ms[..|ms|] == ms;
  }

  /** The place before which members go: the first of the position's name, or the one after it, or
      the end. */
  lemma {:induction false} SplitIs(ms: seq<Member>, position: Option<Name>, after: bool, i: nat)
    requires if i < |ms| then position.Some? && IsFirst(ms, position.value, i)
             else i == |ms| && (position.Some? ==> CountMembers(ms, position.value) == 0)
    ensures Split(ms, position, after) == if i < |ms| && after then i + 1 else i
    decreases |ms|
  {
    if i > 0 {
      assert ms[..|ms|] == ms && ms[1..][..|ms| - 1] == ms[1..];
      SplitRest(ms, position, i);
      SplitIs(ms[1..], position, after, i - 1);
    }
  }

  lemma {:induction false} SplitRest(ms: seq<Member>, position: Option<Name>, i: nat)
    requires 0 < i <= |ms| && (position.Some? ==> CountMembers(ms[..i], position.value) == 0)
    ensures position.Some? ==> NameOf(ms[0]) != position.value && CountMembers(ms[1..][..i - 1], position.value) == 0
  {
    if position.Some? {
      var n := position.value;
      var one := ms[..1];
      assert ms[..i] == one + ms[1..][..i - 1];
      CountJoin(one, ms[1..][..i - 1], n);
      assert one[..0] == [];
    }
  }

  /** m moves the members taken, in their order, to the place of the position. */
  lemma MovedIsPicked(args: Args, ms: seq<Member>, position: Option<Name>, after: bool)
    ensures var p := Split(ms, position, after);
      Moved(args, ms, position, after)
      == Picked(args, ms, 0, p, false) + Picked(args, ms, 0, |ms|, true) + Picked(args, ms, p, |ms|, false)
  {
    var p := Split(ms, position, after);
    ChosenIsPicked(args, ms, 0, p, false);
    ChosenIsPicked(args, ms, 0, |ms|, true);
    ChosenIsPicked(args, ms, p, |ms|, false);
    assert ms[..|ms|] == ms;
  }

  // ------------------------------------------------------------ new members

  /** The member is made of the file at the path. */
  predicate IsNew(r: Member, path: Name, f: File) {
    r.h.name == Field(Trim(path)) && r.body == f.body
    && r.h.date == f.date && r.h.uid == f.uid && r.h.gid == f.gid && r.h.mode == f.mode
  }

  function Opened(args: Args, fs: Files): (ps: seq<Name>) {
    if args == [] then []
    else
      var a := args[|args| - 1];
      Opened(args[..|args| - 1], fs) + if a.Some? && a.value in fs then [a.value] else []
  }

  /** The new members are the files of the arguments left that can be opened, in their order, before
      the members after the split. */
  lemma {:induction false} NewOnes(args: Args, ms: seq<Member>, position: Option<Name>, after: bool,
                                   fs: Files, newer: bool, k: nat)
    requires k < |Opened(Left(args, ms), fs)|
    ensures var ps, us := Opened(Left(args, ms), fs), Updated(args, ms, position, after, fs, newer);
      |us| == |ms| + |ps| && ps[k] in fs && IsNew(us[Split(ms, position, after) + k], ps[k], fs[ps[k]])
  {
    var parts := Parts(args, ms, position, after, fs, newer);
    InsertedAt(Left(args, ms), fs, k);
    InSecond(parts.0, parts.1, parts.2, k);
  }

  lemma {:induction false} InsertedAt(args: Args, fs: Files, k: nat)
    requires k < |Opened(args, fs)|
    ensures var ps, us := Opened(args, fs), Inserted(args, fs);
      |us| == |ps| && ps[k] in fs && IsNew(us[k], ps[k], fs[ps[k]])
    decreases |args|
  {
    var front := args[..|args| - 1];
    InsertedLength(front, fs);
    if k < |Opened(front, fs)| { InsertedAt(front, fs, k); }
  }

  lemma {:induction false} InsertedLength(args: Args, fs: Files)
    ensures |Inserted(args, fs)| == |Opened(args, fs)|
    decreases |args|
  {
    if args != [] { InsertedLength(args[..|args| - 1], fs); }
  }

  // ------------------------------------------------------------ one file

  /** The first member of the name. */
  predicate IsFirst(ms: seq<Member>, n: Name, i: nat) {
    i < |ms| && NameOf(ms[i]) == n && CountMembers(ms[..i], n) == 0
  }

  lemma {:induction false} FirstOf(ms: seq<Member>, n: Name) returns (i: nat)
    requires CountMembers(ms, n) > 0
    ensures IsFirst(ms, n, i)
    decreases |ms|
  {
    var init := ms[..|ms| - 1];
    if CountMembers(init, n) > 0 {
      i := FirstOf(init, n);
      assert init[..i] == ms[..i];
    } else {
      i := |ms| - 1;
    }
  }

  lemma {:induction false} CountGrows(ms: seq<Member>, n: Name, i: nat, k: nat)
    requires i < k <= |ms| && NameOf(ms[i]) == n
    ensures CountMembers(ms[..k], n) > 0
    decreases k
  {
    assert ms[..k][..k - 1] == ms[..k - 1];
    if i < k - 1 { CountGrows(ms, n, i, k - 1); }
  }

  lemma {:induction false} OnlyPath(p: Name, ms: seq<Member>, i: nat)
    requires WithoutSlashes(p) == p && i < |ms|
    ensures forall path :: IsPath([Some(p)], ms, i, path) <==> path == p && IsFirst(ms, Trim(p), i)
  {
    var args: Args := [Some(p)];
    assert args[..0] == [];
    var n := NameOf(ms[i]);
    forall j | IsNth(args, n, CountMembers(ms[..i], n), j) ensures j == 0 && IsFirst(ms, Trim(p), i) {}
    if IsFirst(ms, Trim(p), i) { assert IsNth(args, n, CountMembers(ms[..i], n), 0); }
  }

  /** The member is in the list, with the file's contents. */
  predicate Carries(us: seq<Member>, p: Name, f: File, k: nat) {
    k < |us| && NameOf(us[k]) == Trim(p) && us[k].body == f.body
    && us[k].h.date == f.date && us[k].h.uid == f.uid && us[k].h.gid == f.gid && us[k].h.mode == f.mode
  }

  /** u keeps the member that is there. */
  predicate KeptBack(p: Name, ms: seq<Member>, f: File, newer: bool, i: nat) {
    newer && IsFirst(ms, Trim(p), i) && f.date <= ms[i].h.date
  }

  /** The file is new. */
  lemma {:induction false} OneFileNew(p: Name, ms: seq<Member>, position: Option<Name>, after: bool,
                                      fs: Files, newer: bool)
    requires p in fs && WithoutSlashes(p) == p && NameFits(p) && CountMembers(ms, Trim(p)) == 0
    ensures Carries(Updated([Some(p)], ms, position, after, fs, newer), p, fs[p], Split(ms, position, after))
  {
    var args: Args := [Some(p)];
    var left := Left(args, ms);
    LeftIs(args, ms, 0);
    LeftCounts(args, ms, Trim(p));
    assert args[1..] == [] && left[1..] == [] && left[..0] == [];
    assert Opened(left, fs) == Opened(left[..0], fs) + [p] == [p];
    NewOnes(args, ms, position, after, fs, newer, 0);
    MadeIsNamed(p, fs[p], 0);
  }

  /** The member there is of its name is made anew. */
  lemma {:induction false} OneFileAgain(p: Name, ms: seq<Member>, position: Option<Name>, after: bool,
                                        fs: Files, newer: bool, i: nat)
    requires p in fs && WithoutSlashes(p) == p && AllGood(ms)
    requires IsFirst(ms, Trim(p), i) && !KeptBack(p, ms, fs[p], newer, i)
    ensures exists k :: Carries(Updated([Some(p)], ms, position, after, fs, newer), p, fs[p], k)
  {
    var us := Updated([Some(p)], ms, position, after, fs, newer);
    MemberAfter([Some(p)], ms, position, after, fs, newer, i);
    OnlyPath(p, ms, i);
    assert IsPath([Some(p)], ms, i, p);
    assert Carries(us, p, fs[p], PlaceOf(ms, position, after, i, |us|));
  }

  /** Or u leaves everything as it was. */
  lemma {:induction false} OneFileKept(p: Name, ms: seq<Member>, position: Option<Name>, after: bool,
                                       fs: Files, newer: bool, i: nat)
    requires p in fs && WithoutSlashes(p) == p && AllGood(ms) && KeptBack(p, ms, fs[p], newer, i)
    ensures Updated([Some(p)], ms, position, after, fs, newer) == ms
  {
    var us := Updated([Some(p)], ms, position, after, fs, newer);
    CountGrows(ms, Trim(p), i, |ms|);
    assert ms[..|ms|] == ms;
    OneFileUpdates(p, ms, position, after, fs, newer);
    forall k | 0 <= k < |ms| ensures us[k] == ms[k] {
      MemberAfter([Some(p)], ms, position, after, fs, newer, k);
      OnlyPath(p, ms, k);
      if IsFirst(ms, Trim(p), k) && k != i {
        if k < i { CountGrows(ms, Trim(p), k, i); } else { CountGrows(ms, Trim(p), i, k); }
      }
    }
  }

  /** r with one file that is there: afterwards a member of its name and with its contents is in the
      list, unless u is given and the member there was is not older; then nothing has changed. */
  lemma {:induction false} OneFileIn(p: Name, ms: seq<Member>, position: Option<Name>, after: bool,
                                     fs: Files, newer: bool)
    requires p in fs && WithoutSlashes(p) == p && NameFits(p) && AllGood(ms)
    ensures var us := Updated([Some(p)], ms, position, after, fs, newer);
      if exists i :: KeptBack(p, ms, fs[p], newer, i) then us == ms
      else exists k :: Carries(us, p, fs[p], k)
  {
    if i :| KeptBack(p, ms, fs[p], newer, i) {
      OneFileKept(p, ms, position, after, fs, newer, i);
    } else if CountMembers(ms, Trim(p)) == 0 {
      OneFileNew(p, ms, position, after, fs, newer);
    } else {
      var i := FirstOf(ms, Trim(p));
      OneFileAgain(p, ms, position, after, fs, newer, i);
    }
  }
}
