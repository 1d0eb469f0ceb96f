/** db_break.c and db_run.c over their static table: an in-use list and a free list are
    threaded through it, and every routine does to the variables what module Ddb says.

    Plants and Clears speak of every list that equals theirs, not of the list itself: that hides the
    recursive functions applied to it, which are then unfolded only in the lemmas that name them. */
module DdbCode {
  import opened Basics
  import opened Sequences
  import opened Ddb

  // one struct db_breakpoint; a link of -1 is the null pointer
  datatype Entry = Entry(address: nat, initCount: int, count: int, inst: Byte, link: int)

  /** The i-th element of a list of table indices, or the null pointer behind its end. */
  function At(s: seq<nat>, i: nat): (r: int) { if i < |s| then s[i] else -1 }

  ghost predicate NoRepeats(s: seq<nat>) { forall i, j :: 0 <= i < j < |s| ==> s[i] != s[j] }

  /** The first n entries of the table are shared out, each once, between the two lists
      and the entry b, which is in neither (-1: no such entry). */
  ghost predicate Partition(inUse: seq<nat>, free: seq<nat>, b: int, n: nat) {
    && |inUse| + |free| + (if b >= 0 then 1 else 0) == n && b < n
    && NoRepeats(inUse) && NoRepeats(free)
    && (forall i :: 0 <= i < |inUse| ==> inUse[i] < n && inUse[i] != b)
    && (forall i :: 0 <= i < |free| ==> free[i] < n && free[i] != b)
    && forall i, j :: 0 <= i < |inUse| && 0 <= j < |free| ==> inUse[i] != free[j]
  }

  function Bk(e: Entry): (r: Bkpt) { Bkpt(e.address, e.initCount, e.count, e.inst) }

  /** The breakpoints at the given places of a table. */
  function Entries(t: seq<Entry>, s: seq<nat>): (l: seq<Bkpt>)
    requires forall i :: 0 <= i < |s| ==> s[i] < |t|
    ensures |l| == |s| && forall i :: 0 <= i < |s| ==> l[i] == Bk(t[s[i]])
  {
    seq(|s|, i requires 0 <= i < |s| => Bk(t[s[i]]))
  }

  /** Following the links from the head meets the indices s in turn, then the null pointer. */
  ghost predicate Chain(t: seq<Entry>, head: int, s: seq<nat>) {
    && head == At(s, 0) && (forall i :: 0 <= i < |s| ==> s[i] < |t|)
    && forall i :: 0 <= i < |s| ==> LinksOn(t, s, i)
  }

  ghost predicate LinksOn(t: seq<Entry>, s: seq<nat>, i: nat) {
    i < |s| && s[i] < |t| && t[s[i]].link == At(s, i + 1)
  }

  /** Two acyclic lists that, with the entry b, share out the first n entries of the table. */
  ghost predicate Shared(t: seq<Entry>, n: nat, listHead: int, freeHead: int, inUse: seq<nat>, free: seq<nat>, b: int) {
    && |t| == NBREAKPOINTS && n <= NBREAKPOINTS
    && Chain(t, listHead, inUse) && Chain(t, freeHead, free) && Partition(inUse, free, b, n)
  }

  /** A list is untouched by changes to other entries. */
  lemma ChainKept(t: seq<Entry>, k: nat, e: Entry, head: int, s: seq<nat>)
    requires Chain(t, head, s) && k < |t| && forall i :: 0 <= i < |s| ==> s[i] != k
    ensures Chain(t[k := e], head, s)
  {
    var t' := t[k := e];
    forall i | 0 <= i < |s| ensures LinksOn(t', s, i) { assert LinksOn(t, s, i); }
  }

  lemma ChainCons(t: seq<Entry>, b: nat, e: Entry, head: int, s: seq<nat>)
    requires Chain(t, head, s) && b < |t| && (forall i :: 0 <= i < |s| ==> s[i] != b) && e.link == head
    ensures Chain(t[b := e], b, [b] + s)
  {
    var t', s' := t[b := e], [b] + s;
    forall i | 0 <= i < |s'| ensures LinksOn(t', s', i) {
      if i > 0 { assert LinksOn(t, s, i - 1); }
    }
  }

  lemma ChainTail(t: seq<Entry>, head: int, s: seq<nat>)
    requires Chain(t, head, s) && s != []
    ensures Chain(t, t[s[0]].link, s[1..])
  {
    assert LinksOn(t, s, 0);
    var s' := s[1..];
    forall i | 0 <= i < |s'| ensures LinksOn(t, s', i) { assert LinksOn(t, s, i + 1); }
  }

  lemma FreeShares(t: seq<Entry>, n: nat, lh: int, fh: int, inUse: seq<nat>, free: seq<nat>, b: nat)
    requires Shared(t, n, lh, fh, inUse, free, b)
    ensures var t' := t[b := t[b].(link := fh)];
      Shared(t', n, lh, b, inUse, [b] + free, -1) && Entries(t', inUse) == Entries(t, inUse)
  {
    ChainKept(t, b, t[b].(link := fh), lh, inUse);
    ChainCons(t, b, t[b].(link := fh), fh, free);
  }

  lemma PartitionLink(inUse: seq<nat>, free: seq<nat>, b: nat, n: nat)
    requires Partition(inUse, free, b, n)
    ensures Partition([b] + inUse, free, -1, n)
  {}

  lemma LinkShares(t: seq<Entry>, n: nat, lh: int, fh: int, inUse: seq<nat>, free: seq<nat>, b: nat, e: Entry)
    requires Shared(t, n, lh, fh, inUse, free, b) && e.link == lh
    ensures var t' := t[b := e];
      Shared(t', n, b, fh, [b] + inUse, free, -1) && Entries(t', [b] + inUse) == [Bk(e)] + Entries(t, inUse)
  {
    ChainKept(t, b, e, fh, free);
    ChainCons(t, b, e, lh, inUse);
    PartitionLink(inUse, free, b, n);
  }

  lemma ChainRemove(t: seq<Entry>, head: int, s: seq<nat>, i: nat)
    requires Chain(t, head, s) && NoRepeats(s) && i < |s|
    ensures var next := t[s[i]].link;
      if i == 0 then Chain(t, next, Remove(s, i))
      else Chain(t[s[i - 1] := t[s[i - 1]].(link := next)], head, Remove(s, i))
  {
    assert LinksOn(t, s, i);
    var t' := if i == 0 then t else t[s[i - 1] := t[s[i - 1]].(link := t[s[i]].link)];
    var s' := Remove(s, i);
    forall k | 0 <= k < |s'| ensures LinksOn(t', s', k) {
      assert LinksOn(t, s, if k < i then k else k + 1);
    }
  }

  lemma PartitionRemove(inUse: seq<nat>, free: seq<nat>, i: nat, n: nat)
    requires Partition(inUse, free, -1, n) && i < |inUse|
    ensures Partition(Remove(inUse, i), free, inUse[i], n)
  {}

  /** The table after the entry at place i has been unlinked. */
  function Unlinked(t: seq<Entry>, inUse: seq<nat>, i: nat): (t': seq<Entry>)
    requires i < |inUse| && forall k :: 0 <= k < |inUse| ==> inUse[k] < |t|
  {
    if i == 0 then t else t[inUse[i - 1] := t[inUse[i - 1]].(link := t[inUse[i]].link)]
  }

  lemma EntriesRemove(t: seq<Entry>, t': seq<Entry>, s: seq<nat>, i: nat)
    requires i < |s| && |t| == |t'| && forall k :: 0 <= k < |s| ==> s[k] < |t|
    requires forall k :: 0 <= k < |t| ==> Bk(t[k]) == Bk(t'[k])
    ensures Entries(t', Remove(s, i)) == Entries(t, s)[..i] + Entries(t, s)[i + 1..]
  {}

  lemma UnlinkShares(t: seq<Entry>, n: nat, lh: int, fh: int, inUse: seq<nat>, free: seq<nat>, i: nat)
    requires Shared(t, n, lh, fh, inUse, free, -1) && i < |inUse|
    ensures var t' := Unlinked(t, inUse, i);
      && Shared(t', n, if i == 0 then t[inUse[i]].link else lh, fh, Remove(inUse, i), free, inUse[i])
      && Entries(t', Remove(inUse, i)) == Entries(t, inUse)[..i] + Entries(t, inUse)[i + 1..]
  {
    ChainRemove(t, lh, inUse, i);
    PartitionRemove(inUse, free, i, n);
    if i > 0 { ChainKept(t, inUse[i - 1], t[inUse[i - 1]].(link := t[inUse[i]].link), fh, free); }
    EntriesRemove(t, Unlinked(t, inUse, i), inUse, i);
  }

  lemma Resaved(t: seq<Entry>, t': seq<Entry>, head: int, s: seq<nat>)
    requires Chain(t, head, s) && |t| == |t'| && forall k :: 0 <= k < |t| ==> t'[k].link == t[k].link
    ensures Chain(t', head, s)
  {
    forall i | 0 <= i < |s| ensures LinksOn(t', s, i) { assert LinksOn(t, s, i); }
  }

  /** The first k turns of the planting loop, in memory m0 and list l0, have left m and l. */
  ghost predicate Plants(m0: Memory, l0: seq<Bkpt>, k: nat, m: Memory, l: seq<Bkpt>) {
    forall xs: seq<Bkpt> {:trigger PlantUpTo(m0, xs, k)} :: xs == l0 ==>
      AllInMemory(xs) && k <= |xs| && (m, l) == PlantUpTo(m0, xs, k)
  }

  lemma PlantsNext(m0: Memory, l0: seq<Bkpt>, k: nat, m: Memory, l: seq<Bkpt>, m': Memory, l': seq<Bkpt>)
    requires AllInMemory(l0) && k < |l0| == |l| && Plants(m0, l0, k, m, l) && l[k].address < MEMSIZE
    requires m' == m[l[k].address := BKPTINST] && l' == l[k := l[k].(inst := m[l[k].address])]
    ensures Plants(m0, l0, k + 1, m', l')
  {
    assert (m, l) == PlantUpTo(m0, l0, k);
    assert l[k].address == l0[k].address;
  }

  lemma PlantsSame(m0: Memory, l0: seq<Bkpt>, k: nat, m: Memory, l: seq<Bkpt>)
    requires AllInMemory(l0) && k < |l0| && Plants(m0, l0, k, m, l)
    ensures |l| == |l0| && l[k].address < MEMSIZE
  {
    assert (m, l) == PlantUpTo(m0, l0, k);
  }

  lemma PlantsNone(m0: Memory, l0: seq<Bkpt>)
    requires AllInMemory(l0)
    ensures Plants(m0, l0, 0, m0, l0)
  {}

  lemma PlantsAll(d: Dbg, m: Memory, l: seq<Bkpt>)
    requires AllInMemory(d.list) && !d.inserted && Plants(d.mem, d.list, |d.list|, m, l)
    ensures SetBreakpoints(d) == d.(mem := m, list := l, inserted := true)
  {
    assert (m, l) == PlantUpTo(d.mem, d.list, |d.list|);
  }

  /** The first k turns of the clearing loop have left m. */
  ghost predicate Clears(m0: Memory, list: seq<Bkpt>, k: nat, m: Memory) {
    forall xs: seq<Bkpt> {:trigger UnplantUpTo(m0, xs, k)} :: xs == list ==>
      AllInMemory(xs) && k <= |xs| && m == UnplantUpTo(m0, xs, k)
  }

  lemma ClearsNext(m0: Memory, list: seq<Bkpt>, k: nat, m: Memory)
    requires AllInMemory(list) && k < |list| && Clears(m0, list, k, m)
    ensures list[k].address < MEMSIZE && Clears(m0, list, k + 1, m[list[k].address := list[k].inst])
  {
    assert m == UnplantUpTo(m0, list, k);
  }

  lemma ClearsNone(m0: Memory, list: seq<Bkpt>)
    requires AllInMemory(list)
    ensures Clears(m0, list, 0, m0)
  {}

  lemma ClearsAll(d: Dbg, m: Memory)
    requires AllInMemory(d.list) && d.inserted && Clears(d.mem, d.list, |d.list|, m)
    ensures ClearBreakpoints(d) == d.(mem := m, inserted := false)
  {
    assert m == UnplantUpTo(d.mem, d.list, |d.list|);
  }

  class Debugger {
    const table: array<Entry>
    var nextFree: nat      // db_next_free_breakpoint
    var freeHead: int      // db_free_breakpoints
    var listHead: int      // db_breakpoint_list
    var inserted: bool     // db_breakpoints_inserted
    var mode: Mode
    var loopCount: int
    var callDepth: int
    var mem: Memory
    var frame: Frame
    var tf: bool
    ghost var inUse: seq<nat>
    ghost var free: seq<nat>

    ghost predicate ValidBut(b: int)
      reads `nextFree, `freeHead, `listHead, `inUse, `free, table
    {
      table.Length == NBREAKPOINTS && Shared(table[..], nextFree, listHead, freeHead, inUse, free, b)
    }

    ghost predicate Valid()
      reads `nextFree, `freeHead, `listHead, `inUse, `free, table
    {
      ValidBut(-1)
    }

    ghost function List(): (l: seq<Bkpt>)
      requires Chain(table[..], listHead, inUse)
      reads `listHead, `inUse, table
    {
      Entries(table[..], inUse)
    }

    ghost function View(): (r: Dbg)
      requires Chain(table[..], listHead, inUse)
      reads this, table
    {
      Dbg(List(), inserted, mem, mode, loopCount, callDepth, frame, tf)
    }

    constructor (mem: Memory, frame: Frame)
      ensures Valid() && fresh(table)
      ensures View() == Dbg([], true, mem, StepContinue, 0, 0, frame, false)
    {
      table := new Entry[NBREAKPOINTS](_ => Entry(0, 0, 0, 0, -1));
      nextFree, freeHead, listHead, inserted := 0, -1, -1, true;
      mode, loopCount, callDepth, tf := StepContinue, 0, 0, false;
      this.mem, this.frame := mem, frame;
      inUse, free := [], [];
    }

    /** db_breakpoint_alloc: fails only when every entry is in use. */
    method Alloc() returns (b: int)
      requires Valid()
      modifies this`nextFree, this`freeHead, this`free
      ensures -1 <= b && ValidBut(b) && (b == -1 <==> old(|inUse|) == NBREAKPOINTS)
    {
      if freeHead != -1 {
        b := freeHead;
        assert LinksOn(table[..], free, 0);
        freeHead := table[b].link;
        ChainTail(table[..], b, free);
        free := free[1..];
      } else if nextFree == table.Length {
        b := -1;
      } else {
        b := nextFree;
        nextFree := nextFree + 1;
      }
    }

    /** db_breakpoint_free */
    method Free(b: nat)
      requires ValidBut(b)
      modifies this`freeHead, this`free, table
      ensures Valid() && List() == old(List())
    {
      FreeShares(table[..], nextFree, listHead, freeHead, inUse, free, b);
      table[b] := table[b].(link := freeHead);
      freeHead := b;
      free := [b] + free;
    }

    /** db_find_breakpoint: the breakpoint's index in the table, or the null pointer. */
    method FindBreakpoint(addr: nat) returns (b: int, ghost i: nat)
      requires Valid()
      ensures i == Find(List(), addr) && b == At(inUse, i)
    {
      b, i := listHead, 0;
      while b != -1 && table[b].address != addr
        invariant i <= |inUse| && b == At(inUse, i)
        invariant forall j :: 0 <= j < i ==> List()[j].address != addr
        decreases |inUse| - i
      {
        assert List()[i] == Bk(table[b]);
        assert LinksOn(table[..], inUse, i);
        b, i := table[b].link, i + 1;
      }
      assert b != -1 ==> List()[i] == Bk(table[b]);
    }

    /** db_set_breakpoint */
    method SetBreakpoint(addr: nat, count: int)
      requires Valid()
      modifies this`nextFree, this`freeHead, this`free, this`listHead, this`inUse, table
      ensures Valid() && List() == Ddb.SetBreakpoint(old(List()), addr, count)
    {
      var b, i := FindBreakpoint(addr);
      if b != -1 { return; }
      b := Alloc();
      if b == -1 { return; }
      Link(b, addr, count);
    }

    /** Fills in a fresh entry and puts it at the head of the list. */
    method Link(b: nat, addr: nat, count: int)
      requires ValidBut(b)
      modifies this`listHead, this`inUse, table
      ensures Valid() && List() == [Bkpt(addr, count, count, 0)] + old(List())
    {
      LinkShares(table[..], nextFree, listHead, freeHead, inUse, free, b, Entry(addr, count, count, 0, listHead));
      table[b] := Entry(addr, count, count, 0, listHead);
      listHead := b;
      inUse := [b] + inUse;
    }

    /** The search loop of db_delete_breakpoint, with its trailing pointer. */
    method Locate(addr: nat) returns (prev: int, b: int, ghost i: nat)
      requires Valid()
      ensures i == Find(List(), addr) && b == At(inUse, i)
      ensures prev == if i == 0 then -1 else inUse[i - 1]
    {
      prev, b, i := -1, listHead, 0;
      while b != -1 && table[b].address != addr
        invariant i <= |inUse| && b == At(inUse, i) && prev == (if i == 0 then -1 else inUse[i - 1])
        invariant forall j :: 0 <= j < i ==> List()[j].address != addr
        decreases |inUse| - i
      {
        assert List()[i] == Bk(table[b]);
        assert LinksOn(table[..], inUse, i);
        prev, b, i := b, table[b].link, i + 1;
      }
      assert b != -1 ==> List()[i] == Bk(table[b]);
    }

    /** db_delete_breakpoint: unlinks the entry and frees it. */
    method DeleteBreakpoint(addr: nat)
      requires Valid()
      modifies this`freeHead, this`free, this`listHead, this`inUse, table
      ensures Valid() && List() == Ddb.DeleteBreakpoint(old(List()), addr)
    {
      var prev, b, i := Locate(addr);
      if b == -1 { return; }
      Unlink(i, prev, b);
      Free(b);
    }

    method Unlink(ghost i: nat, prev: int, b: nat)
      requires Valid() && i < |inUse| && b == inUse[i] && prev == if i == 0 then -1 else inUse[i - 1]
      modifies this`listHead, this`inUse, table
      ensures ValidBut(b) && List() == old(List())[..i] + old(List())[i + 1..]
    {
      UnlinkShares(table[..], nextFree, listHead, freeHead, inUse, free, i);
      if prev == -1 {
        listHead := table[b].link;
      } else {
        table[prev] := table[prev].(link := table[b].link);
      }
      assert table[..] == Unlinked(old(table[..]), inUse, i);
      inUse := Remove(inUse, i);
    }

    /** Changes the counter or the saved byte of one entry. */
    method Update(b: nat, ghost i: nat, count: int, inst: Byte)
      requires Valid() && i < |inUse| && b == inUse[i]
      modifies table
      ensures Valid() && table[b].link == old(table[b].link)
      ensures List() == old(List())[i := old(List())[i].(count := count, inst := inst)]
    {
      ghost var t := table[..];
      table[b] := table[b].(count := count, inst := inst);
      Resaved(t, table[..], listHead, inUse);
      Resaved(t, table[..], freeHead, free);
    }

    /** BKPT_WRITE */
    method PlantOne(b: nat, ghost i: nat, ghost m0: Memory, ghost l0: seq<Bkpt>)
      requires Valid() && i < |inUse| == |l0| && b == inUse[i]
      requires AllInMemory(l0) && Plants(m0, l0, i, mem, List())
      modifies this`mem, table
      ensures Valid() && Plants(m0, l0, i + 1, mem, List())
    {
      PlantsSame(m0, l0, i, mem, List());
      assert List()[i] == Bk(table[b]);
      var a := table[b].address;
      ghost var m, l := mem, List();
      Update(b, i, table[b].count, mem[a]);
      mem := mem[a := BKPTINST];
      PlantsNext(m0, l0, i, m, l, mem, List());
    }

    /** Saves and plants along the list. */
    method PlantList(ghost l0: seq<Bkpt>)
      requires Valid() && l0 == List() && AllInMemory(l0)
      modifies this`mem, table
      ensures Valid() && Plants(old(mem), l0, |l0|, mem, List())
    {
      ghost var m0 := mem;
      PlantsNone(m0, l0);
      var b := listHead;
      ghost var i := 0;
      while b != -1
        invariant Valid() && i <= |inUse| == |l0| && b == At(inUse, i)
        invariant Plants(m0, l0, i, mem, List())
        decreases |inUse| - i
      {
        PlantOne(b, i, m0, l0);
        assert LinksOn(table[..], inUse, i);
        b, i := table[b].link, i + 1;
      }
    }

    /** db_set_breakpoints */
    method PlantAll()
      requires Valid() && AllInMemory(List())
      modifies this`mem, this`inserted, table
      ensures Valid() && View() == Ddb.SetBreakpoints(old(View()))
    {
      if inserted { return; }
      ghost var d := View();
      PlantList(List());
      inserted := true;
      PlantsAll(d, mem, List());
    }

    /** Puts the saved bytes back along the list. */
    method ClearList()
      requires Valid() && AllInMemory(List())
      modifies this`mem
      ensures Clears(old(mem), List(), |List()|, mem)
    {
      ghost var m0 := mem;
      ClearsNone(m0, List());
      var b := listHead;
      ghost var i := 0;
      while b != -1
        invariant i <= |inUse| && b == At(inUse, i)
        invariant Clears(m0, List(), i, mem)
        decreases |inUse| - i
      {
        ClearsNext(m0, List(), i, mem);
        assert List()[i] == Bk(table[b]);
        mem := mem[table[b].address := table[b].inst];
        assert LinksOn(table[..], inUse, i);
        b, i := table[b].link, i + 1;
      }
    }

    /** db_clear_breakpoints */
    method ClearAll()
      requires Valid() && AllInMemory(List())
      modifies this`mem, this`inserted
      ensures Valid() && View() == Ddb.ClearBreakpoints(old(View()))
    {
      if !inserted { return; }
      ghost var d := View();
      ClearList();
      inserted := false;
      ClearsAll(d, mem);
    }

    /** db_stop_at_pc */
    method StopAtPc(t: Trap) returns (stop: bool)
      requires Valid() && DbgOk(View())
      modifies this`mem, this`inserted, this`tf, this`frame, this`mode, this`loopCount, this`callDepth, table
      ensures Valid() && (View(), stop) == Ddb.StopAtPc(old(View()), t)
    {
      Enter(t);
      var b, i := FindBreakpoint(Pc(frame));
      if b != -1 {
        stop := CountDown(b, i);
      } else {
        stop := NotOurs(t);
      }
    }

    method Enter(t: Trap)
      requires Valid() && DbgOk(View())
      modifies this`mem, this`inserted, this`tf, this`frame
      ensures Valid() && View() == Ddb.Entered(old(View()), t)
    {
      tf := false;
      ClearAll();
      if t.BreakpointTrap? { frame := Fixup(frame); }
    }

    method CountDown(b: nat, ghost i: nat) returns (stop: bool)
      requires Valid() && i < |inUse| && b == inUse[i]
      modifies table
      ensures Valid() && stop == Ddb.CountDown(old(List())[i]).1
      ensures List() == old(List())[i := Ddb.CountDown(old(List())[i]).0]
    {
      assert List()[i] == Bk(table[b]);
      stop := table[b].count - 1 == 0;
      Update(b, i, if stop then table[b].initCount else table[b].count - 1, table[b].inst);
    }

    method NotOurs(t: Trap) returns (stop: bool)
      requires Valid() && DbgOk(View())
      modifies this`frame, this`mode, this`loopCount, this`callDepth
      ensures Valid() && (View(), stop) == Ddb.NotOurs(old(View()), t)
    {
      if t.BreakpointTrap? { frame := Skip(frame); }
      if mode == StepContinue && t.SingleStepTrap? { return false; }
      if mode != StepContinue && !t.SingleStepTrap? { return true; }
      stop := StepStops();
    }

    /** The stepping modes of db_stop_at_pc. */
    method StepStops() returns (stop: bool)
      requires Valid() && DbgOk(View())
      modifies this`mode, this`loopCount, this`callDepth
      ensures Valid() && (View(), stop) == Ddb.StepStops(old(View()))
    {
      var pc := Pc(frame);
      if mode == StepInvisible {
        mode := StepContinue;
        return false;
      }
      if mode == StepCount { return false; }
      if mode == StepOnce {
        loopCount := loopCount - 1;
        if loopCount > 0 { return false; }
      }
      if mode == StepReturn {
        var more := !InstTrapReturn(mem, pc);
        if more && InstReturn(mem, pc) {
          callDepth := callDepth - 1;
          more := callDepth != 0;
        }
        if more {
          if InstCall(mem, pc) { callDepth := callDepth + 1; }
          return false;
        }
      }
      if mode == StepCallT && !InstCall(mem, pc) && !InstReturn(mem, pc) && !InstTrapReturn(mem, pc) {
        return false;
      }
      return true;
    }

    /** db_restart_at_pc */
    method RestartAtPc()
      requires Valid() && DbgOk(View())
      modifies this`mem, this`inserted, this`tf, this`mode, table
      ensures Valid() && View() == Ddb.RestartAtPc(old(View()))
    {
      if mode == StepContinue {
        var b, i := FindBreakpoint(Pc(frame));
        if b != -1 {
          mode := StepInvisible;
          tf := true;
        } else {
          PlantAll();
        }
      } else {
        tf := true;
      }
    }
  }
}
