/** What every run of the debugged machine keeps. */
module DdbRuns {
  import opened Arithmetic
  import opened Basics
  import opened Ddb

  // ------------------------------------------------------------ planting and clearing

  /** At most one breakpoint for an address. */
  ghost predicate Distinct(list: seq<Bkpt>) {
    forall i, j :: 0 <= i < j < |list| ==> list[i].address != list[j].address
  }

  predicate IsListed(list: seq<Bkpt>, a: nat) { exists i :: 0 <= i < |list| && list[i].address == a }

  /** Memory with the breakpoint instruction at exactly the listed addresses. */
  function Planted(orig: Memory, list: seq<Bkpt>): (r: Memory) {
    seq(MEMSIZE, a requires 0 <= a < MEMSIZE => if IsListed(list, a) then BKPTINST else orig[a])
  }

  /** Every breakpoint has saved the byte of the program it stands for. */
  ghost predicate Saves(list: seq<Bkpt>, orig: Memory) {
    AllInMemory(list) && forall i :: 0 <= i < |list| ==> list[i].inst == orig[list[i].address]
  }

  lemma {:induction false} PlantAt(mem: Memory, list: seq<Bkpt>, k: nat, a: nat)
    requires AllInMemory(list) && k <= |list| && a < MEMSIZE
    ensures PlantUpTo(mem, list, k).0[a] == if IsListed(list[..k], a) then BKPTINST else mem[a]
  {
    if k > 0 {
      PlantAt(mem, list, k - 1, a);
      ListedUpTo(list, k, a);
    }
  }

  lemma ListedUpTo(list: seq<Bkpt>, k: nat, a: nat)
    requires 0 < k <= |list|
    ensures IsListed(list[..k], a) <==> IsListed(list[..k - 1], a) || list[k - 1].address == a
  {
    assert list[..k][k - 1] == list[k - 1];
    assert forall i :: 0 <= i < k - 1 ==> list[..k][i] == list[..k - 1][i];
  }

  lemma {:induction false} PlantSaves(mem: Memory, list: seq<Bkpt>, k: nat)
    requires AllInMemory(list) && Distinct(list) && k <= |list|
    ensures var l := PlantUpTo(mem, list, k).1; forall i :: 0 <= i < k ==> l[i].inst == mem[l[i].address]
  {
    if k > 0 {
      PlantSaves(mem, list, k - 1);
      PlantAt(mem, list, k - 1, list[k - 1].address);
    }
  }

  lemma PlantIsPlanted(mem: Memory, list: seq<Bkpt>)
    requires AllInMemory(list) && Distinct(list)
    ensures var (m, l) := PlantUpTo(mem, list, |list|); m == Planted(mem, list) && Saves(l, mem)
  {
    var n := |list|;
    assert list[..n] == list;
    forall a | 0 <= a < MEMSIZE ensures PlantUpTo(mem, list, n).0[a] == Planted(mem, list)[a] {
      PlantAt(mem, list, n, a);
    }
    PlantSaves(mem, list, n);
  }

  lemma {:induction false} UnplantAt(mem: Memory, list: seq<Bkpt>, k: nat, orig: Memory, a: nat)
    requires Saves(list, orig) && k <= |list| && a < MEMSIZE
    ensures UnplantUpTo(mem, list, k)[a] == if IsListed(list[..k], a) then orig[a] else mem[a]
  {
    if k > 0 {
      UnplantAt(mem, list, k - 1, orig, a);
      ListedUpTo(list, k, a);
    }
  }

  lemma UnplantRestores(list: seq<Bkpt>, orig: Memory)
    requires Saves(list, orig)
    ensures UnplantUpTo(Planted(orig, list), list, |list|) == orig
  {
    var m := Planted(orig, list);
    assert list[..|list|] == list;
    forall a | 0 <= a < MEMSIZE ensures UnplantUpTo(m, list, |list|)[a] == orig[a] {
      UnplantAt(m, list, |list|, orig, a);
    }
  }

  // ------------------------------------------------------------ the invariant

  /** No breakpoint is planted while commands are taken or the trace flag is set; the
      program runs freely only with all of them planted. */
  ghost predicate Inv(z: Sys) {
    var d := z.d;
    && DbgOk(d) && Distinct(d.list) && |d.list| <= NBREAKPOINTS
    && (if d.inserted then d.mem == Planted(z.orig, d.list) && Saves(d.list, z.orig) else d.mem == z.orig)
    && (z.stopped || d.tf ==> !d.inserted) && !(z.stopped && d.tf)
    && (!z.stopped && !d.tf ==> d.inserted && d.mode == StepContinue)
  }

  /** The program leaves the addresses alone where an instruction is planted. */
  predicate WellBehaved(z: Sys, e: Event) {
    EventOk(e) && (e.Execute? && z.d.inserted ==> forall a :: a in e.poke ==> !IsListed(z.d.list, a))
  }

  /** ddb starts with no breakpoints, and believes that they are planted. */
  ghost predicate Initial(z: Sys) {
    && z.d.list == [] && z.d.inserted && z.d.mode == StepContinue && !z.d.tf
    && !z.stopped && z.d.mem == z.orig && FrameOk(z.d.frame)
  }

  lemma InitialInv(z: Sys)
    requires Initial(z)
    ensures Inv(z)
  {
    assert Planted(z.orig, z.d.list) == z.orig;
  }

  lemma FindIsListed(list: seq<Bkpt>, a: nat)
    ensures Listed(list, a) <==> IsListed(list, a)
  {}

  /** Giving a breakpoint another count moves no breakpoint. */
  lemma RecountKeeps(list: seq<Bkpt>, i: nat, b: Bkpt)
    requires i < |list| && b.address == list[i].address
    ensures Distinct(list) ==> Distinct(list[i := b])
    ensures AllInMemory(list) ==> AllInMemory(list[i := b])
  {}

  /** However the debugger is entered, it sees the program's own memory, and if it
      restarts the program the breakpoints are in place or the trace flag is set. */
  lemma StopKeeps(z: Sys, t: Trap)
    requires Inv(z)
    ensures var d := StopAtPc(z.d, t).0;
      && !d.inserted && !d.tf && d.mem == z.orig
      && Distinct(d.list) && |d.list| == |z.d.list|
  {
    if z.d.inserted { UnplantRestores(z.d.list, z.orig); }
    var d0 := ClearBreakpoints(z.d.(tf := false));
    assert d0.mem == z.orig && d0.list == z.d.list;
    var d1 := if t.BreakpointTrap? then d0.(frame := Fixup(d0.frame)) else d0;
    var i := Find(d1.list, Pc(d1.frame));
    if i < |d1.list| { RecountKeeps(d1.list, i, CountDown(d1.list[i]).0); }
  }

  lemma RestartKeeps(d: Dbg, orig: Memory)
    requires DbgOk(d) && Distinct(d.list) && |d.list| <= NBREAKPOINTS && !d.inserted && !d.tf && d.mem == orig
    ensures Inv(Sys(RestartAtPc(d), false, orig))
  {
    PlantIsPlanted(d.mem, d.list);
    var l := PlantUpTo(d.mem, d.list, |d.list|).1;
    assert forall a :: IsListed(l, a) <==> IsListed(d.list, a);
    assert Planted(orig, l) == Planted(orig, d.list);
  }

  lemma HandleKeeps(z: Sys, t: Trap)
    requires Inv(z) && !z.stopped
    ensures Inv(Handle(z, t))
  {
    StopKeeps(z, t);
    var (d, stop) := StopAtPc(z.d, t);
    if !stop { RestartKeeps(d, z.orig); }
  }

  lemma ExecuteKeeps(z: Sys, next: Frame, poke: map<nat, Byte>)
    requires Inv(z) && !z.stopped && WellBehaved(z, Execute(next, poke))
    ensures Inv(Executed(z, next, poke))
  {
    if z.d.inserted {
      assert Poke(Planted(z.orig, z.d.list), poke) == Planted(Poke(z.orig, poke), z.d.list);
    }
  }

  lemma SetKeepsDistinct(list: seq<Bkpt>, addr: nat, count: int)
    requires Distinct(list) && |list| <= NBREAKPOINTS
    ensures Distinct(SetBreakpoint(list, addr, count)) && |SetBreakpoint(list, addr, count)| <= NBREAKPOINTS
  {}

  lemma CommandKeeps(z: Sys, c: Cmd)
    requires Inv(z) && z.stopped && EventOk(Command(c))
    ensures Inv(Obey(z, c))
  {
    match c
    case Break(addr, count) => SetKeepsDistinct(z.d.list, addr, if count == -1 then 1 else count);
    case Delete(addr) =>
    case Step(count) =>
      RestartKeeps(z.d.(mode := StepOnce, loopCount := if count == -1 then 1 else count), z.orig);
    case UntilCall => RestartKeeps(z.d.(mode := StepCallT), z.orig);
    case UntilReturn => RestartKeeps(z.d.(mode := StepReturn, callDepth := 1), z.orig);
    case Continue => RestartKeeps(z.d.(mode := StepContinue), z.orig);
    case ContinueCounting => RestartKeeps(z.d.(mode := StepCount), z.orig);
  }

  lemma StepKeeps(z: Sys, e: Event)
    requires Inv(z) && WellBehaved(z, e)
    ensures Inv(Apply(z, e))
  {
    match e
    case Command(c) => if z.stopped { CommandKeeps(z, c); }
    case Fault => if !z.stopped { HandleKeeps(z, OtherTrap); }
    case Execute(next, poke) =>
      if !z.stopped {
        if z.d.mem[Pc(z.d.frame)] == BKPTINST {
          HandleKeeps(z.(d := z.d.(frame := AfterInt3(z.d.frame))), BreakpointTrap);
        } else {
          ExecuteKeeps(z, next, poke);
          if z.d.tf { HandleKeeps(Executed(z, next, poke), SingleStepTrap); }
        }
      }
  }

  // ------------------------------------------------------------ runs

  predicate AllOk(es: seq<Event>) { forall i :: 0 <= i < |es| ==> EventOk(es[i]) }

  function Run(z: Sys, es: seq<Event>): (z': Sys)
    requires DbgOk(z.d) && AllOk(es)
    ensures DbgOk(z'.d)
    decreases |es|
  {
    if es == [] then z else Run(Apply(z, es[0]), es[1..])
  }

  /** The program never writes to a planted address in the course of the run. */
  ghost predicate Behaves(z: Sys, es: seq<Event>)
    requires DbgOk(z.d) && AllOk(es)
    decreases |es|
  {
    es == [] || (WellBehaved(z, es[0]) && Behaves(Apply(z, es[0]), es[1..]))
  }

  lemma {:induction false} RunKeeps(z: Sys, es: seq<Event>)
    requires Inv(z) && AllOk(es) && Behaves(z, es)
    ensures Inv(Run(z, es))
    decreases |es|
  {
    if es != [] {
      StepKeeps(z, es[0]);
      RunKeeps(Apply(z, es[0]), es[1..]);
    }
  }

  /** For any interleaving of instructions, traps and commands: while commands are taken
      memory is the program's own, and whenever breakpoints are planted it differs from
      that by the breakpoint instruction at exactly the listed addresses. */
  lemma MemoryIsOriginalOrPlanted(z: Sys, es: seq<Event>)
    requires Initial(z) && AllOk(es) && Behaves(z, es)
    ensures var z' := Run(z, es);
      && z'.d.mem == (if z'.d.inserted then Planted(z'.orig, z'.d.list) else z'.orig)
      && (z'.stopped ==> !z'.d.inserted)
      && Distinct(z'.d.list) && |z'.d.list| <= 100
  {
    InitialInv(z);
    RunKeeps(z, es);
  }

  /** The program never executes a planted instruction: it meets its own, or a trap. */
  lemma ExecutesItsOwn(z: Sys, es: seq<Event>)
    requires Initial(z) && AllOk(es) && Behaves(z, es)
    ensures var z' := Run(z, es); var pc := Pc(z'.d.frame);
      z'.d.mem[pc] == z'.orig[pc] || (z'.d.mem[pc] == BKPTINST && IsListed(z'.d.list, pc))
  {
    MemoryIsOriginalOrPlanted(z, es);
  }

  // ------------------------------------------------------------ counting arrivals

  /** For one watched breakpoint: how often the program got there, how often the
      debugger counted it, and how often it stopped. */
  datatype Tally = Tally(arrivals: nat, hits: nat, stops: nat)

  lemma FixupUndoesInt3(f: Frame)
    requires FrameOk(f)
    ensures FrameOk(AfterInt3(f)) && Pc(Fixup(AfterInt3(f))) == Pc(f)
  {}

  /** The program counter the debugger looks at. */
  function TrapPc(d: Dbg, t: Trap): (r: nat)
    requires DbgOk(d)
  {
    Pc(if t.BreakpointTrap? then Fixup(d.frame) else d.frame)
  }

  /** The event is a breakpoint instruction of the program's own, which is skipped. */
  predicate SkipsOwnInt3(z: Sys, e: Event)
    requires DbgOk(z.d)
  {
    e.Execute? && z.d.mem[Pc(z.d.frame)] == BKPTINST && !Listed(z.d.list, Pc(z.d.frame))
  }

  function AfterSkip(f: Frame): (r: Frame) { Skip(Fixup(AfterInt3(f))) }

  /** The program gets to the watched address by executing an instruction. */
  predicate Arrives(watch: nat, z: Sys, e: Event)
    requires DbgOk(z.d) && EventOk(e)
  {
    e.Execute? && !z.stopped &&
    if z.d.mem[Pc(z.d.frame)] != BKPTINST then Pc(e.next) == watch
    else SkipsOwnInt3(z, e) && Pc(AfterSkip(z.d.frame)) == watch
  }

  /** A trap: a hit if it is at the watched address. */
  function Struck(watch: nat, d: Dbg, trap: Trap, t: Tally): (r: Tally)
    requires DbgOk(d)
  {
    if TrapPc(d, trap) != watch then t
    else Tally(t.arrivals, t.hits + 1, t.stops + if StopAtPc(d, trap).1 then 1 else 0)
  }

  function Track(watch: nat, z: Sys, e: Event, t: Tally): (r: Tally)
    requires DbgOk(z.d) && EventOk(e)
  {
    if e.Command? then
      if z.stopped && e.c.Break? && e.c.addr == watch && !Listed(z.d.list, watch) then Tally(0, 0, 0) else t
    else
      var t1 := if Arrives(watch, z, e) then t.(arrivals := t.arrivals + 1) else t;
      match TrapOf(z, e)
      case None => t1
      case Some((y, trap)) => Struck(watch, y.d, trap, t1)
  }

  /** The program has just arrived and has not yet met the planted instruction. */
  predicate Pending(watch: nat, z: Sys)
    requires DbgOk(z.d)
  {
    z.d.inserted && !z.stopped && Pc(z.d.frame) == watch
  }

  ghost predicate Accounted(watch: nat, z: Sys, t: Tally)
    requires DbgOk(z.d)
  {
    Listed(z.d.list, watch) ==> t.arrivals == t.hits + if Pending(watch, z) then 1 else 0
  }

  /** The three ways to lose count: another trap, or an int3 of the program's own, at a
      breakpoint that is being stepped over, and an int3 right before the breakpoint. */
  predicate Miscounts(watch: nat, z: Sys, e: Event)
    requires DbgOk(z.d)
  {
    && !z.stopped && Listed(z.d.list, watch)
    && (|| (!z.d.inserted && Pc(z.d.frame) == watch
            && (e.Fault? || (e.Execute? && z.d.mem[watch] == BKPTINST)))
        || (SkipsOwnInt3(z, e) && Pc(AfterSkip(z.d.frame)) == watch))
  }

  /** After a trap or a command that restarts the program no arrival is pending. */
  lemma HandledIsNotPending(watch: nat, y: Sys, t: Trap)
    requires Inv(y)
    ensures var z' := Handle(y, t); Listed(z'.d.list, watch) ==> !Pending(watch, z')
  {
    StopKeeps(y, t);
    var (d, stop) := StopAtPc(y.d, t);
    if !stop { RestartIsNotPending(watch, d, y); }
  }

  lemma RestartIsNotPending(watch: nat, d: Dbg, y: Sys)
    requires DbgOk(d) && !d.inserted
    ensures var z' := y.(d := RestartAtPc(d), stopped := false);
      Listed(z'.d.list, watch) ==> Listed(d.list, watch) && !Pending(watch, z')
  {
    if d.mode == StepContinue && !Listed(d.list, Pc(d.frame)) {
      var l := PlantUpTo(d.mem, d.list, |d.list|).1;
      FindIsListed(l, watch);
      FindIsListed(d.list, watch);
      assert IsListed(l, watch) <==> IsListed(d.list, watch);
    }
  }

  lemma StopKeepsListed(watch: nat, d: Dbg, t: Trap)
    requires DbgOk(d)
    ensures Listed(StopAtPc(d, t).0.list, watch) <==> Listed(d.list, watch)
  {
    var l := StopAtPc(d, t).0.list;
    FindIsListed(l, watch);
    FindIsListed(d.list, watch);
    assert |l| == |d.list| && forall i :: 0 <= i < |l| ==> l[i].address == d.list[i].address;
    assert IsListed(l, watch) <==> IsListed(d.list, watch);
  }

  lemma HandleKeepsListed(watch: nat, y: Sys, t: Trap)
    requires Inv(y)
    ensures Listed(Handle(y, t).d.list, watch) <==> Listed(y.d.list, watch)
  {
    StopKeeps(y, t);
    StopKeepsListed(watch, y.d, t);
    var (d, stop) := StopAtPc(y.d, t);
    var l := Handle(y, t).d.list;
    assert |l| == |d.list| && forall i :: 0 <= i < |l| ==> l[i].address == d.list[i].address;
    FindIsListed(l, watch);
    FindIsListed(d.list, watch);
    assert IsListed(l, watch) <==> IsListed(d.list, watch);
  }

  /** A trap at the watched address is one hit; the arrival it answers was pending, or is this event's. */
  lemma TrapAccounts(watch: nat, z: Sys, e: Event, t: Tally, y: Sys, trap: Trap)
    requires Inv(z) && WellBehaved(z, e) && Accounted(watch, z, t) && !e.Command?
    requires TrapOf(z, e) == Some((y, trap)) && Inv(y)
    ensures var z' := Apply(z, e);
      Listed(z'.d.list, watch) ==> (Accounted(watch, z', Track(watch, z, e, t)) <==> !Miscounts(watch, z, e))
  {
    assert Apply(z, e) == Handle(y, trap);
    HandledIsNotPending(watch, y, trap);
    HandleKeepsListed(watch, y, trap);
    if Listed(Apply(z, e).d.list, watch) {
      FixupUndoesInt3(z.d.frame);
      FindIsListed(z.d.list, Pc(z.d.frame));
      FindIsListed(z.d.list, watch);
    }
  }

  lemma CommandAccounts(watch: nat, z: Sys, c: Cmd, t: Tally)
    requires Inv(z) && EventOk(Command(c)) && Accounted(watch, z, t)
    ensures var z' := Apply(z, Command(c));
      Listed(z'.d.list, watch) ==> Accounted(watch, z', Track(watch, z, Command(c), t))
  {
    if z.stopped {
      match c
      case Break(addr, count) =>
        FindIsListed(z.d.list, watch);
        FindIsListed(Obey(z, c).d.list, watch);
      case Delete(addr) =>
        FindIsListed(z.d.list, watch);
        FindIsListed(Obey(z, c).d.list, watch);
      case Step(count) =>
        RestartIsNotPending(watch, z.d.(mode := StepOnce, loopCount := if count == -1 then 1 else count), z);
      case UntilCall => RestartIsNotPending(watch, z.d.(mode := StepCallT), z);
      case UntilReturn => RestartIsNotPending(watch, z.d.(mode := StepReturn, callDepth := 1), z);
      case Continue => RestartIsNotPending(watch, z.d.(mode := StepContinue), z);
      case ContinueCounting => RestartIsNotPending(watch, z.d.(mode := StepCount), z);
    }
  }

  /** An event keeps hits and arrivals together exactly when it is none of the three. */
  lemma StepAccounts(watch: nat, z: Sys, e: Event, t: Tally)
    requires Inv(z) && WellBehaved(z, e) && Accounted(watch, z, t)
    ensures var z' := Apply(z, e);
      Listed(z'.d.list, watch) ==> (Accounted(watch, z', Track(watch, z, e, t)) <==> !Miscounts(watch, z, e))
  {
    match e
    case Command(c) => CommandAccounts(watch, z, c, t);
    case Fault => if !z.stopped { TrapAccounts(watch, z, e, t, z, OtherTrap); }
    case Execute(next, poke) =>
      if !z.stopped {
        ExecuteKeeps(z, next, poke);
        if z.d.mem[Pc(z.d.frame)] == BKPTINST {
          TrapAccounts(watch, z, e, t, z.(d := z.d.(frame := AfterInt3(z.d.frame))), BreakpointTrap);
        } else if z.d.tf {
          TrapAccounts(watch, z, e, t, Executed(z, next, poke), SingleStepTrap);
        } else {
          FindIsListed(z.d.list, Pc(z.d.frame));
          assert !Listed(z.d.list, Pc(z.d.frame));
        }
      }
  }

  // ------------------------------------------------------------ counting down

  /** With count n, every hit counts down by one and every nth hit stops. */
  ghost predicate CountOk(b: Bkpt, hits: nat, stops: nat) {
    b.initCount >= 1 ==> b.count == b.initCount - hits % b.initCount && stops == hits / b.initCount
  }

  ghost predicate CountsDown(watch: nat, l: seq<Bkpt>, t: Tally) {
    var i := Find(l, watch);
    i < |l| ==> CountOk(l[i], t.hits, t.stops)
  }

  lemma OneMore(n: nat, h: nat)
    requires n >= 1
    ensures if (h + 1) % n == 0 then h % n == n - 1 && (h + 1) / n == h / n + 1
            else (h + 1) % n == h % n + 1 && (h + 1) / n == h / n
  {
    var q, r := h / n, h % n;
    assert h == q * n + r;
    if r == n - 1 {
      assert h + 1 == (q + 1) * n;
      DivModUnique(h + 1, n, q + 1, 0);
    } else {
      assert h + 1 == q * n + (r + 1);
      DivModUnique(h + 1, n, q, r + 1);
    }
  }

  /** Entries are found in the same place when only their other fields differ. */
  lemma SamePlace(l: seq<Bkpt>, l': seq<Bkpt>, a: nat)
    requires |l| == |l'| && forall i :: 0 <= i < |l| ==> l[i].address == l'[i].address
    ensures Find(l, a) == Find(l', a)
  {
    if l != [] { SamePlace(l[1..], l'[1..], a); }
  }

  lemma RecountCountsDown(watch: nat, l: seq<Bkpt>, i: nat, t: Tally)
    requires i < |l| && i == Find(l, watch) && CountsDown(watch, l, t)
    ensures var (b, stop) := CountDown(l[i]);
      CountsDown(watch, l[i := b], Tally(t.arrivals, t.hits + 1, t.stops + if stop then 1 else 0))
  {
    var (b, stop) := CountDown(l[i]);
    SamePlace(l, l[i := b], watch);
    if l[i].initCount >= 1 { OneMore(l[i].initCount, t.hits); }
  }

  lemma OthersCountDown(watch: nat, l: seq<Bkpt>, i: nat, b: Bkpt, t: Tally)
    requires i < |l| && l[i].address == b.address != watch && CountsDown(watch, l, t)
    ensures CountsDown(watch, l[i := b], t)
  {
    SamePlace(l, l[i := b], watch);
  }

  lemma BreakCountsDown(watch: nat, l: seq<Bkpt>, addr: nat, count: int, t: Tally)
    requires CountsDown(watch, l, t)
    ensures CountsDown(watch, SetBreakpoint(l, addr, count),
                       if addr == watch && !Listed(l, watch) then Tally(0, 0, 0) else t)
  {
    var l' := SetBreakpoint(l, addr, count);
    if l' != l { assert l'[1..] == l; }
  }

  lemma TrapCountsDown(watch: nat, l: seq<Bkpt>, pc: nat, t: Tally)
    requires CountsDown(watch, l, t)
    ensures var i := Find(l, pc);
      if i < |l| then
        var (b, stop) := CountDown(l[i]);
        CountsDown(watch, l[i := b], if pc != watch then t
                                     else Tally(t.arrivals, t.hits + 1, t.stops + if stop then 1 else 0))
      else pc == watch ==> forall t' :: CountsDown(watch, l, t')
  {
    var i := Find(l, pc);
    if i < |l| {
      if pc == watch { RecountCountsDown(watch, l, i, t); } else { OthersCountDown(watch, l, i, CountDown(l[i]).0, t); }
    }
  }

  lemma StopCountsDown(watch: nat, d: Dbg, trap: Trap, t: Tally)
    requires DbgOk(d) && CountsDown(watch, d.list, t)
    ensures CountsDown(watch, StopAtPc(d, trap).0.list, Struck(watch, d, trap, t))
  {
    StopList(d, trap);
    TrapCountsDown(watch, d.list, TrapPc(d, trap), t);
  }

  /** What a trap does to the list of breakpoints. */
  lemma StopList(d: Dbg, trap: Trap)
    requires DbgOk(d)
    ensures var (d', stop) := StopAtPc(d, trap);
      var i := Find(d.list, TrapPc(d, trap));
      if i < |d.list| then
        d'.list == d.list[i := CountDown(d.list[i]).0] && stop == CountDown(d.list[i]).1
      else d'.list == d.list
  {}

  lemma RestartCountsDown(watch: nat, d: Dbg, t: Tally)
    requires DbgOk(d) && CountsDown(watch, d.list, t)
    ensures CountsDown(watch, RestartAtPc(d).list, t)
  {
    SamePlace(d.list, RestartAtPc(d).list, watch);
  }

  lemma HandleCountsDown(watch: nat, y: Sys, trap: Trap, t: Tally)
    requires DbgOk(y.d) && CountsDown(watch, y.d.list, t)
    ensures CountsDown(watch, Handle(y, trap).d.list, Struck(watch, y.d, trap, t))
  {
    StopCountsDown(watch, y.d, trap, t);
    RestartCountsDown(watch, StopAtPc(y.d, trap).0, Struck(watch, y.d, trap, t));
  }

  lemma DeleteKeepsOthers(l: seq<Bkpt>, addr: nat, watch: nat)
    requires Distinct(l)
    ensures var l' := DeleteBreakpoint(l, addr); var i, j := Find(l, watch), Find(l', watch);
      j < |l'| ==> i < |l| && l'[j] == l[i]
  {
    var l' := DeleteBreakpoint(l, addr);
    var i, j, k := Find(l, watch), Find(l', watch), Find(l, addr);
    if j < |l'| && k < |l| {
      var m := if j < k then j else j + 1;
      assert l'[j] == l[m] && l[m].address == watch;
      assert i == m;
    }
  }

  lemma CommandCountsDown(watch: nat, z: Sys, c: Cmd, t: Tally)
    requires Inv(z) && z.stopped && EventOk(Command(c)) && CountsDown(watch, z.d.list, t)
    ensures CountsDown(watch, Obey(z, c).d.list, Track(watch, z, Command(c), t))
  {
    match c
    case Break(addr, count) => BreakCountsDown(watch, z.d.list, addr, if count == -1 then 1 else count, t);
    case Delete(addr) => DeleteKeepsOthers(z.d.list, addr, watch);
    case Step(count) =>
      RestartCountsDown(watch, z.d.(mode := StepOnce, loopCount := if count == -1 then 1 else count), t);
    case UntilCall => RestartCountsDown(watch, z.d.(mode := StepCallT), t);
    case UntilReturn => RestartCountsDown(watch, z.d.(mode := StepReturn, callDepth := 1), t);
    case Continue => RestartCountsDown(watch, z.d.(mode := StepContinue), t);
    case ContinueCounting => RestartCountsDown(watch, z.d.(mode := StepCount), t);
  }

  lemma TrackIsStruck(watch: nat, z: Sys, e: Event, t: Tally)
    requires DbgOk(z.d) && EventOk(e) && !e.Command? && TrapOf(z, e).Some?
    ensures var (y, trap) := TrapOf(z, e).value;
      Track(watch, z, e, t) ==
      Struck(watch, y.d, trap, if Arrives(watch, z, e) then t.(arrivals := t.arrivals + 1) else t)
  {}

  lemma ExecuteCountsDown(watch: nat, z: Sys, e: Event, t: Tally, y: Sys, trap: Trap)
    requires DbgOk(z.d) && EventOk(e) && DbgOk(y.d) && e.Execute? && CountsDown(watch, y.d.list, t)
    requires TrapOf(z, e) == Some((y, trap))
    ensures CountsDown(watch, Handle(y, trap).d.list, Track(watch, z, e, t))
  {
    TrackIsStruck(watch, z, e, t);
    HandleCountsDown(watch, y, trap, t);
    HandleCountsDown(watch, y, trap, t.(arrivals := t.arrivals + 1));
  }

  lemma StepCountsDown(watch: nat, z: Sys, e: Event, t: Tally)
    requires Inv(z) && WellBehaved(z, e) && CountsDown(watch, z.d.list, t)
    ensures CountsDown(watch, Apply(z, e).d.list, Track(watch, z, e, t))
  {
    match e
    case Command(c) => if z.stopped { CommandCountsDown(watch, z, c, t); }
    case Fault => if !z.stopped { HandleCountsDown(watch, z, OtherTrap, t); }
    case Execute(next, poke) =>
      if !z.stopped {
        if z.d.mem[Pc(z.d.frame)] == BKPTINST {
          ExecuteCountsDown(watch, z, e, t, z.(d := z.d.(frame := AfterInt3(z.d.frame))), BreakpointTrap);
        } else if z.d.tf {
          ExecuteCountsDown(watch, z, e, t, Executed(z, next, poke), SingleStepTrap);
        }
      }
  }

  // ------------------------------------------------------------ the count of a whole run

  function Tallied(watch: nat, z: Sys, t: Tally, es: seq<Event>): (r: Tally)
    requires DbgOk(z.d) && AllOk(es)
    decreases |es|
  {
    if es == [] then t else Tallied(watch, Apply(z, es[0]), Track(watch, z, es[0], t), es[1..])
  }

  ghost predicate NeverMiscounts(watch: nat, z: Sys, es: seq<Event>)
    requires DbgOk(z.d) && AllOk(es)
    decreases |es|
  {
    es == [] || (!Miscounts(watch, z, es[0]) && NeverMiscounts(watch, Apply(z, es[0]), es[1..]))
  }

  lemma {:induction false} RunCounts(watch: nat, z: Sys, t: Tally, es: seq<Event>)
    requires Inv(z) && AllOk(es) && Behaves(z, es) && NeverMiscounts(watch, z, es)
    requires Accounted(watch, z, t) && CountsDown(watch, z.d.list, t)
    ensures var z', t' := Run(z, es), Tallied(watch, z, t, es);
      Accounted(watch, z', t') && CountsDown(watch, z'.d.list, t')
    decreases |es|
  {
    if es != [] {
      StepKeeps(z, es[0]);
      StepAccounts(watch, z, es[0], t);
      StepCountsDown(watch, z, es[0], t);
      RunCounts(watch, Apply(z, es[0]), Track(watch, z, es[0], t), es[1..]);
    }
  }

  /** In every run that never loses count, a breakpoint set with count n has stopped the
      program on exactly every nth arrival since it was set. */
  lemma StopsOnEveryNthArrival(watch: nat, z: Sys, es: seq<Event>)
    requires Initial(z) && AllOk(es) && Behaves(z, es) && NeverMiscounts(watch, z, es)
    requires var z' := Run(z, es); var i := Find(z'.d.list, watch);
      i < |z'.d.list| && z'.d.list[i].initCount >= 1 && !Pending(watch, z')
    ensures var z' := Run(z, es); var b := z'.d.list[Find(z'.d.list, watch)];
      var t := Tallied(watch, z, Tally(0, 0, 0), es);
      t.stops == t.arrivals / b.initCount && b.count == b.initCount - t.arrivals % b.initCount
  {
    InitialInv(z);
    RunCounts(watch, z, Tally(0, 0, 0), es);
  }

  /** A run that does lose count: the program is stopped at 0x10, a breakpoint is set there to stop
      every second time, and while it is being stepped over, two other traps arrive. */
  function LosingRun(): (es: seq<Event>)
    ensures AllOk(es)
  {
    [Fault, Command(Break(0x10, 2)), Command(Continue), Fault, Fault]
  }

  function AtTen(mem: Memory): (r: Sys) {
    Sys(Dbg([], true, mem, StepContinue, 0, 0, Frame(0x10, 0), false), false, mem)
  }

  /** AtTen after the first k events. */
  function Losing(mem: Memory, k: nat): (r: Sys) {
    var d := Dbg([], false, mem, StepContinue, 0, 0, Frame(0x10, 0), false);
    if k == 0 then AtTen(mem)
    else if k == 1 then Sys(d, true, mem)
    else if k == 2 then Sys(d.(list := [Bkpt(0x10, 2, 2, 0)]), true, mem)
    else if k == 3 then Sys(d.(list := [Bkpt(0x10, 2, 2, 0)], mode := StepInvisible, tf := true), false, mem)
    else if k == 4 then Sys(d.(list := [Bkpt(0x10, 2, 1, 0)], mode := StepInvisible, tf := true), false, mem)
    else Sys(d.(list := [Bkpt(0x10, 2, 2, 0)], mode := StepInvisible), true, mem)
  }

  /** The tally of address 0x10; setting the breakpoint starts it anew. */
  function LosingTally(k: nat): (r: Tally) {
    if k == 1 then Tally(0, 1, 1) else Tally(0, if k <= 3 then 0 else k - 3, if k == 5 then 1 else 0)
  }

  /** The k-th event of the losing run does what Losing and LosingTally say. */
  ghost predicate LosesAt(mem: Memory, k: nat)
    requires k < 5
  {
    && DbgOk(Losing(mem, k).d) && Apply(Losing(mem, k), LosingRun()[k]) == Losing(mem, k + 1)
    && WellBehaved(Losing(mem, k), LosingRun()[k])
    && Track(0x10, Losing(mem, k), LosingRun()[k], LosingTally(k)) == LosingTally(k + 1)
  }

  lemma LosingFault(mem: Memory)
    ensures LosesAt(mem, 0)
  {
    assert LosingRun()[0] == Fault;
  }

  lemma LosingBreak(mem: Memory)
    ensures LosesAt(mem, 1)
  {
    assert LosingRun()[1] == Command(Break(0x10, 2));
  }

  lemma LosingContinue(mem: Memory)
    ensures LosesAt(mem, 2)
  {
    assert LosingRun()[2] == Command(Continue);
  }

  lemma LosingStops(mem: Memory, k: nat)
    requires k == 3 || k == 4
    ensures var d := Losing(mem, k).d;
      DbgOk(d) && StopAtPc(d, OtherTrap)
               == (d.(tf := false, list := [Bkpt(0x10, 2, if k == 3 then 1 else 2, 0)]), k == 4)
  {
    var list, next := Losing(mem, k).d.list, Bkpt(0x10, 2, if k == 3 then 1 else 2, 0);
    assert list[0 := next] == [next] && Find(list, 0x10) == 0;
  }

  /** A trap at the breakpoint while it is stepped over counts as a hit. */
  lemma LosingHit(mem: Memory, k: nat)
    requires k == 3 || k == 4
    ensures LosesAt(mem, k)
  {
    assert LosingRun()[k] == Fault;
    LosingStops(mem, k);
  }

  lemma LosingStep(mem: Memory, k: nat)
    requires k < 5
    ensures LosesAt(mem, k)
  {
    if k == 0 { LosingFault(mem); }
    else if k == 1 { LosingBreak(mem); }
    else if k == 2 { LosingContinue(mem); }
    else { LosingHit(mem, k); }
  }

  lemma {:induction false} LosingOn(mem: Memory, k: nat)
    requires k <= 5
    ensures DbgOk(Losing(mem, k).d) && AllOk(LosingRun()[k..])
    ensures Run(Losing(mem, k), LosingRun()[k..]) == Losing(mem, 5) && Behaves(Losing(mem, k), LosingRun()[k..])
    ensures Tallied(0x10, Losing(mem, k), LosingTally(k), LosingRun()[k..]) == LosingTally(5)
    decreases 5 - k
  {
    if k < 5 {
      LosingStep(mem, k);
      LosingOn(mem, k + 1);
      assert LosingRun()[k..][1..] == LosingRun()[k + 1..];
    }
  }

  /** So without NeverMiscounts the law of StopsOnEveryNthArrival is false: the program stopped once,
      and two hits were counted, though it never arrived. */
  lemma CountIsLost(mem: Memory)
    ensures var z, es := AtTen(mem), LosingRun();
      && Initial(z) && Behaves(z, es) && Listed(Run(z, es).d.list, 0x10) && !Pending(0x10, Run(z, es))
      && Tallied(0x10, z, Tally(0, 0, 0), es) == Tally(0, 2, 1) && !NeverMiscounts(0x10, z, es)
  {
    var z, es := AtTen(mem), LosingRun();
    LosingOn(mem, 0);
    assert es[0..] == es;
    assert Losing(mem, 5).d.list[0].address == 0x10;
    if NeverMiscounts(0x10, z, es) { StopsOnEveryNthArrival(0x10, z, es); }
  }

  // ------------------------------------------------------------ stepping

  /** Instructions that are neither breakpoints of ours nor int3s, wherever they go. */
  ghost predicate PlainSteps(z: Sys, es: seq<Event>)
    requires DbgOk(z.d) && AllOk(es)
    decreases |es|
  {
    es == [] ||
    (&& es[0].Execute? && z.d.mem[Pc(z.d.frame)] != BKPTINST && !Listed(z.d.list, Pc(es[0].next))
     && PlainSteps(Apply(z, es[0]), es[1..]))
  }

  lemma {:induction false} SteppingOn(z: Sys, es: seq<Event>)
    requires Inv(z) && AllOk(es) && PlainSteps(z, es)
    requires !z.stopped && z.d.tf && z.d.mode == StepOnce && |es| <= z.d.loopCount && 1 <= z.d.loopCount
    ensures var z' := Run(z, es);
      if |es| == z.d.loopCount then z'.stopped
      else !z'.stopped && z'.d.tf && z'.d.mode == StepOnce && z'.d.loopCount == z.d.loopCount - |es|
    decreases |es|
  {
    if es != [] {
      var z1 := Apply(z, es[0]);
      StepKeeps(z, es[0]);
      assert z1.d.loopCount == z.d.loopCount - 1 && z1.stopped == (z.d.loopCount == 1);
      if !z1.stopped { SteppingOn(z1, es[1..]); }
    }
  }

  /** "step n" stops after exactly n instructions when no breakpoint comes in between. */
  lemma StepsExactlyN(z: Sys, n: int, es: seq<Event>)
    requires Inv(z) && z.stopped && 1 <= n && AllOk(es) && |es| <= n
    requires PlainSteps(Apply(z, Command(Step(n))), es)
    ensures Run(Apply(z, Command(Step(n))), es).stopped <==> |es| == n
  {
    CommandKeeps(z, Step(n));
    SteppingOn(Apply(z, Command(Step(n))), es);
  }
}
