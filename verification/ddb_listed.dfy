/** Setting and deleting breakpoints: what is listed after each event, and what a run makes of it. */
module DdbListed {
  import opened Basics
  import opened Ddb
  import opened DdbRuns

  // ------------------------------------------------------------ the list

  /** The breakpoints at other addresses, in their order. */
  function Others(l: seq<Bkpt>, a: nat): (r: seq<Bkpt>) {
    if l == [] then [] else (if l[0].address == a then [] else [l[0]]) + Others(l[1..], a)
  }

  lemma {:induction false} NoneAt(l: seq<Bkpt>, a: nat)
    requires !IsListed(l, a)
    ensures Others(l, a) == l
    decreases |l|
  {
    if l != [] {
      forall i | 0 <= i < |l[1..]| ensures l[1..][i].address != a { assert l[1..][i] == l[i + 1]; }
      NoneAt(l[1..], a);
    }
  }

  lemma {:induction false} OthersAt(l: seq<Bkpt>, a: nat, i: nat)
    requires Distinct(l) && i < |l| && l[i].address == a
    ensures Others(l, a) == l[..i] + l[i + 1..]
    decreases |l|
  {
    if i == 0 {
      NoneAt(l[1..], a);
    } else {
      OthersAt(l[1..], a, i - 1);
      assert l[..i] + l[i + 1..] == [l[0]] + (l[1..][..i - 1] + l[1..][i..]);
    }
  }

  lemma {:induction false} OthersListed(l: seq<Bkpt>, a: nat, w: nat)
    ensures IsListed(Others(l, a), w) <==> w != a && IsListed(l, w)
    decreases |l|
  {
    if l != [] {
      OthersListed(l[1..], a, w);
      ListedFirst(l, w);
      var o := Others(l, a);
      if l[0].address != a {
        assert o[1..] == Others(l[1..], a);
        ListedFirst(o, w);
      } else {
        assert o == Others(l[1..], a);
      }
    }
  }

  lemma ListedFirst(l: seq<Bkpt>, w: nat)
    requires l != []
    ensures IsListed(l, w) <==> l[0].address == w || IsListed(l[1..], w)
  {
    if IsListed(l, w) && l[0].address != w {
      var i :| 0 <= i < |l| && l[i].address == w;
      assert l[1..][i - 1].address == w;
    }
    if IsListed(l[1..], w) {
      var i :| 0 <= i < |l[1..]| && l[1..][i].address == w;
      assert l[i + 1].address == w;
    }
  }

  /** Deleting takes the breakpoint at the address away and leaves the others, in their order. */
  lemma DeleteIs(l: seq<Bkpt>, a: nat)
    requires Distinct(l)
    ensures var l' := DeleteBreakpoint(l, a);
      l' == Others(l, a) && !Listed(l', a) && |l'| == |l| - if Listed(l, a) then 1 else 0
  {
    FindIsListed(l, a);
    FindIsListed(Others(l, a), a);
    OthersListed(l, a, a);
    if Listed(l, a) { OthersAt(l, a, Find(l, a)); } else { NoneAt(l, a); }
  }

  /** Setting a breakpoint that is new, if the table has room, and deleting it changes nothing. */
  lemma DeleteUndoesSet(l: seq<Bkpt>, a: nat, count: int)
    requires Distinct(l) && !Listed(l, a) && |l| < 100
    ensures var l' := SetBreakpoint(l, a, count);
      Listed(l', a) && l'[Find(l', a)].count == l'[Find(l', a)].initCount == count && DeleteBreakpoint(l', a) == l
  {
    var l' := SetBreakpoint(l, a, count);
    assert l'[0].address == a && l'[1..] == l;
  }

  // ------------------------------------------------------------ one event

  /** What is listed after an event, for any address. */
  predicate ListedNext(z: Sys, e: Event, a: nat) {
    if z.stopped && e.Command? && e.c.Delete? && e.c.addr == a then false
    else if z.stopped && e.Command? && e.c.Break? && e.c.addr == a then
      Listed(z.d.list, a) || |z.d.list| < 100
    else Listed(z.d.list, a)
  }

  lemma SameListed(l: seq<Bkpt>, l': seq<Bkpt>, a: nat)
    requires |l| == |l'| && forall i :: 0 <= i < |l| ==> l[i].address == l'[i].address
    ensures Listed(l, a) <==> Listed(l', a)
  {
    SamePlace(l, l', a);
  }

  lemma SetListed(l: seq<Bkpt>, b: nat, count: int, a: nat)
    ensures Listed(SetBreakpoint(l, b, count), a) <==> Listed(l, a) || (a == b && |l| < 100)
  {
    var l' := SetBreakpoint(l, b, count);
    FindIsListed(l, a);
    FindIsListed(l', a);
    if l' != l {
      assert l'[1..] == l && l'[0].address == b;
      ListedFirst(l', a);
    }
  }

  lemma DeleteListed(l: seq<Bkpt>, b: nat, a: nat)
    requires Distinct(l)
    ensures Listed(DeleteBreakpoint(l, b), a) <==> Listed(l, a) && a != b
  {
    DeleteIs(l, b);
    OthersListed(l, b, a);
    FindIsListed(l, a);
    FindIsListed(Others(l, b), a);
  }

  /** Only the two commands change what is listed. */
  lemma CommandLists(z: Sys, c: Cmd, a: nat)
    requires Inv(z) && z.stopped && EventOk(Command(c))
    ensures Listed(Obey(z, c).d.list, a) <==> ListedNext(z, Command(c), a)
  {
    match c
    case Break(addr, count) => SetListed(z.d.list, addr, if count == -1 then 1 else count, a);
    case Delete(addr) => DeleteListed(z.d.list, addr, a);
    case _ => SameListed(z.d.list, Obey(z, c).d.list, a);
  }

  lemma EventLists(z: Sys, e: Event, a: nat)
    requires Inv(z) && WellBehaved(z, e)
    ensures Listed(Apply(z, e).d.list, a) <==> ListedNext(z, e, a)
  {
    match e
    case Command(c) => if z.stopped { CommandLists(z, c, a); }
    case Fault => if !z.stopped { HandleKeepsListed(a, z, OtherTrap); }
    case Execute(next, poke) =>
      if !z.stopped {
        if z.d.mem[Pc(z.d.frame)] == BKPTINST {
          HandleKeepsListed(a, z.(d := z.d.(frame := AfterInt3(z.d.frame))), BreakpointTrap);
        } else {
          ExecuteKeeps(z, next, poke);
          if z.d.tf { HandleKeepsListed(a, Executed(z, next, poke), SingleStepTrap); }
        }
      }
  }

  // ------------------------------------------------------------ runs

  /** No breakpoint is set at the address. */
  predicate NeverSet(es: seq<Event>, a: nat) {
    forall i :: 0 <= i < |es| ==> !(es[i].Command? && es[i].c.Break? && es[i].c.addr == a)
  }

  predicate NeverDeleted(es: seq<Event>, a: nat) {
    forall i :: 0 <= i < |es| ==> es[i] != Command(Delete(a))
  }

  lemma {:induction false} StaysAway(z: Sys, es: seq<Event>, a: nat)
    requires Inv(z) && AllOk(es) && Behaves(z, es) && NeverSet(es, a) && !Listed(z.d.list, a)
    ensures !Listed(Run(z, es).d.list, a)
    decreases |es|
  {
    if es != [] {
      StepKeeps(z, es[0]);
      EventLists(z, es[0], a);
      StaysAway(Apply(z, es[0]), es[1..], a);
    }
  }

  lemma {:induction false} StaysSet(z: Sys, es: seq<Event>, a: nat)
    requires Inv(z) && AllOk(es) && Behaves(z, es) && NeverDeleted(es, a) && Listed(z.d.list, a)
    ensures Listed(Run(z, es).d.list, a)
    decreases |es|
  {
    if es != [] {
      StepKeeps(z, es[0]);
      EventLists(z, es[0], a);
      StaysSet(Apply(z, es[0]), es[1..], a);
    }
  }

  /** Every breakpoint has the counts it had. */
  predicate SameCounts(l: seq<Bkpt>, l': seq<Bkpt>) {
    |l| == |l'| && forall i :: 0 <= i < |l| ==>
      l'[i].address == l[i].address && l'[i].initCount == l[i].initCount && l'[i].count == l[i].count
  }

  lemma NotCounted(y: Sys, trap: Trap)
    requires Inv(y) && !Listed(y.d.list, TrapPc(y.d, trap))
    ensures SameCounts(y.d.list, Handle(y, trap).d.list)
  {
    StopKeeps(y, trap);
    StopList(y.d, trap);
  }

  /** The program runs freely and is about to execute the instruction at a. */
  predicate RunsAt(z: Sys, a: nat, next: Frame, poke: map<nat, Byte>)
    requires DbgOk(z.d)
  {
    EventOk(Execute(next, poke)) && !z.stopped && !z.d.tf && Pc(z.d.frame) == a
  }

  /** A free program traps exactly where a breakpoint is listed or it has an int3 of its own. */
  lemma FreeTrapsIff(z: Sys, next: Frame, poke: map<nat, Byte>)
    requires Inv(z) && !z.stopped && !z.d.tf && EventOk(Execute(next, poke))
    ensures var pc := Pc(z.d.frame);
      TrapOf(z, Execute(next, poke)).Some? <==> Listed(z.d.list, pc) || z.orig[pc] == BKPTINST
  {
    FindIsListed(z.d.list, Pc(z.d.frame));
  }

  /** A breakpoint that has been deleted is gone until it is set again: memory there is the program's
      own, the program runs through the address, and no trap there counts for any breakpoint. */
  lemma DeletedIsGone(z: Sys, a: nat, es: seq<Event>)
    requires Inv(z) && z.stopped && a < MEMSIZE && AllOk(es)
    requires Behaves(Apply(z, Command(Delete(a))), es) && NeverSet(es, a)
    ensures var z' := Run(Apply(z, Command(Delete(a))), es);
      && !Listed(z'.d.list, a) && z'.d.mem[a] == z'.orig[a]
      && (forall next, poke :: RunsAt(z', a, next, poke) && z'.orig[a] != BKPTINST ==>
            TrapOf(z', Execute(next, poke)).None?)
      && (forall y, trap: Trap :: Inv(y) && y.d.list == z'.d.list && TrapPc(y.d, trap) == a ==>
            SameCounts(z'.d.list, Handle(y, trap).d.list))
  {
    var z1 := Apply(z, Command(Delete(a)));
    StepKeeps(z, Command(Delete(a)));
    EventLists(z, Command(Delete(a)), a);
    StaysAway(z1, es, a);
    RunKeeps(z1, es);
    var z' := Run(z1, es);
    FindIsListed(z'.d.list, a);
    forall next, poke | RunsAt(z', a, next, poke)
      ensures TrapOf(z', Execute(next, poke)).Some? <==> z'.orig[a] == BKPTINST
    {
      FreeTrapsIff(z', next, poke);
    }
    forall y, trap: Trap | Inv(y) && y.d.list == z'.d.list && TrapPc(y.d, trap) == a
      ensures SameCounts(z'.d.list, Handle(y, trap).d.list)
    {
      NotCounted(y, trap);
    }
  }

  /** A breakpoint that has been set, if the table had room, is there until it is deleted: a program
      that runs freely and gets there is trapped. */
  lemma SetIsThere(z: Sys, a: nat, count: int, es: seq<Event>)
    requires Inv(z) && z.stopped && a < MEMSIZE && AllOk(es) && |z.d.list| < 100
    requires Behaves(Apply(z, Command(Break(a, count))), es) && NeverDeleted(es, a)
    ensures var z' := Run(Apply(z, Command(Break(a, count))), es);
      && Listed(z'.d.list, a)
      && (forall next, poke :: RunsAt(z', a, next, poke) ==>
            TrapOf(z', Execute(next, poke)).Some?)
  {
    var e := Command(Break(a, count));
    var z1 := Apply(z, e);
    StepKeeps(z, e);
    EventLists(z, e, a);
    StaysSet(z1, es, a);
    RunKeeps(z1, es);
    var z' := Run(z1, es);
    forall next, poke | RunsAt(z', a, next, poke)
      ensures TrapOf(z', Execute(next, poke)).Some?
    {
      FreeTrapsIff(z', next, poke);
    }
  }
}
