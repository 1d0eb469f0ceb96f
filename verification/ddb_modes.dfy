/** What the debugged program does under the debugger, and when it is stopped: continuing, counting,
    and traps of its own. */
module DdbModes {
  import opened Basics
  import opened Ddb
  import opened DdbRuns
  import opened DdbListed

  // ------------------------------------------------------------ the program goes its own way

  /** The program's next instruction is an int3 of its own, or a planted one. */
  predicate MeetsInt3(z: Sys)
    requires DbgOk(z.d)
  {
    z.d.mem[Pc(z.d.frame)] == 0xcc
  }

  lemma NoTrapHere(z: Sys)
    requires Inv(z) && !MeetsInt3(z)
    ensures z.d.inserted ==> !Listed(z.d.list, Pc(z.d.frame))
  {
    FindIsListed(z.d.list, Pc(z.d.frame));
  }

  lemma RestartKeepsFrame(d: Dbg)
    requires DbgOk(d)
    ensures RestartAtPc(d).frame == d.frame
  {}

  lemma StopKeepsFrame(d: Dbg, t: Trap)
    requires DbgOk(d)
    ensures var (d', stop) := StopAtPc(d, t);
      d'.frame == if t.BreakpointTrap? then
                    (if Listed(d.list, TrapPc(d, t)) then Fixup(d.frame) else Skip(Fixup(d.frame)))
                  else d.frame
  {}

  lemma HandleFrame(y: Sys, t: Trap)
    requires DbgOk(y.d)
    ensures Handle(y, t).orig == y.orig
    ensures Handle(y, t).d.frame ==
      if !t.BreakpointTrap? then y.d.frame
      else if Listed(y.d.list, TrapPc(y.d, t)) then Fixup(y.d.frame) else Skip(Fixup(y.d.frame))
  {
    StopKeepsFrame(y.d, t);
    RestartKeepsFrame(StopAtPc(y.d, t).0);
  }

  lemma SkipsInt3(f: Frame)
    requires FrameOk(f)
    ensures FrameOk(Skip(Fixup(AfterInt3(f)))) && Pc(Skip(Fixup(AfterInt3(f)))) == Pc(AfterInt3(f))
  {}

  lemma Int3Step(z: Sys, e: Event)
    requires Inv(z) && WellBehaved(z, e) && !z.stopped && e.Execute? && MeetsInt3(z)
    ensures var z' := Apply(z, e); var pc := Pc(z.d.frame);
      z'.orig == z.orig && Pc(z'.d.frame) == if Listed(z.d.list, pc) then pc else Pc(AfterInt3(z.d.frame))
  {
    FixupUndoesInt3(z.d.frame);
    SkipsInt3(z.d.frame);
    HandleFrame(z.(d := z.d.(frame := AfterInt3(z.d.frame))), BreakpointTrap);
  }

  lemma PlainStep(z: Sys, e: Event)
    requires Inv(z) && WellBehaved(z, e) && !z.stopped && e.Execute? && !MeetsInt3(z)
    ensures Apply(z, e).d.frame == e.next && Apply(z, e).orig == Poke(z.orig, e.poke)
  {
    HandleFrame(Executed(z, e.next, e.poke), SingleStepTrap);
  }

  /** Under the debugger, stopped or not after it, an instruction of the program does what it does: its
      effect on the program's memory and where it goes on.  An int3 of its own is passed over; only
      where a breakpoint is planted the program stays. */
  lemma ProgramStep(z: Sys, e: Event)
    requires Inv(z) && WellBehaved(z, e) && !z.stopped && e.Execute?
    ensures var z' := Apply(z, e); var pc := Pc(z.d.frame);
      if !MeetsInt3(z) then z'.d.frame == e.next && z'.orig == Poke(z.orig, e.poke)
      else z'.orig == z.orig
           && Pc(z'.d.frame) == if Listed(z.d.list, pc) then pc else Pc(AfterInt3(z.d.frame))
  {
    if MeetsInt3(z) { Int3Step(z, e); } else { PlainStep(z, e); }
  }

  /** Segments overlap: sixteen bytes further on is one segment further on. */
  lemma SegmentsOverlap(ip: nat, cs: nat)
    requires ip + 16 < 0x1_0000 && cs + 1 < 0x1_0000
    ensures Pc(Frame(ip + 16, cs)) == Pc(Frame(ip, cs + 1)) && Pc(Frame(ip, 0)) == ip
  {}

  // ------------------------------------------------------------ continuing

  /** Running freely with the breakpoints planted. */
  predicate Free(z: Sys) { !z.stopped && z.d.inserted && z.d.mode == StepContinue && !z.d.tf }

  /** Stepping over a breakpoint. */
  predicate Over(z: Sys) { !z.stopped && !z.d.inserted && z.d.mode == StepInvisible && z.d.tf }

  /** The breakpoint at the address is to stop the program the next time. */
  predicate LastCount(z: Sys, a: nat) {
    Listed(z.d.list, a) && z.d.list[Find(z.d.list, a)].count == 1
  }

  /** After a trap: stopped where the breakpoint's count runs out, else stepping over it. */
  ghost predicate Counted(z: Sys, z': Sys, a: nat) {
    if LastCount(z, a) then z'.stopped else Over(z')
  }

  lemma HitFree(z: Sys, y: Sys)
    requires Inv(z) && Free(z) && MeetsInt3(z) && Listed(z.d.list, Pc(z.d.frame))
    requires y == z.(d := z.d.(frame := AfterInt3(z.d.frame)))
    ensures Counted(z, Handle(y, BreakpointTrap), Pc(z.d.frame))
  {
    FixupUndoesInt3(z.d.frame);
    StopKeeps(y, BreakpointTrap);
    StopKeepsListed(Pc(z.d.frame), y.d, BreakpointTrap);
    StopKeepsFrame(y.d, BreakpointTrap);
  }

  lemma HitOver(z: Sys, y: Sys)
    requires Inv(y) && Over(y) && y.d.list == z.d.list && Listed(y.d.list, Pc(y.d.frame))
    ensures Counted(z, Handle(y, SingleStepTrap), Pc(y.d.frame))
  {
    StopKeeps(y, SingleStepTrap);
  }

  lemma PassOver(y: Sys)
    requires Inv(y) && Over(y) && !Listed(y.d.list, Pc(y.d.frame))
    ensures Free(Handle(y, SingleStepTrap))
  {
    StopKeeps(y, SingleStepTrap);
    StopKeepsListed(Pc(y.d.frame), y.d, SingleStepTrap);
  }

  /** A program that continues runs freely until it gets to a breakpoint, is stopped there if the
      breakpoint's count runs out, and otherwise is stepped over it and runs freely again. */
  lemma ContinuingStep(z: Sys, e: Event)
    requires Inv(z) && WellBehaved(z, e) && e.Execute? && (Free(z) || Over(z))
    requires z.orig[Pc(z.d.frame)] != 0xcc
    ensures var z' := Apply(z, e); var here, there := Pc(z.d.frame), Pc(e.next);
      if Free(z) && Listed(z.d.list, here) then Counted(z, z', here)
      else if Over(z) && Listed(z.d.list, there) then Counted(z, z', there)
      else Free(z')
  {
    FindIsListed(z.d.list, Pc(z.d.frame));
    if MeetsInt3(z) {
      HitFree(z, z.(d := z.d.(frame := AfterInt3(z.d.frame))));
    } else if Over(z) {
      ExecuteKeeps(z, e.next, e.poke);
      var y := Executed(z, e.next, e.poke);
      if Listed(z.d.list, Pc(e.next)) { HitOver(z, y); } else { PassOver(y); }
    }
  }

  lemma ContinueStarts(z: Sys)
    requires Inv(z) && z.stopped
    ensures var z' := Apply(z, Command(Continue));
      if Listed(z.d.list, Pc(z.d.frame)) then Over(z') else Free(z')
  {}

  /** The program has no int3 of its own where it gets to. */
  ghost predicate NoInt3(z: Sys, es: seq<Event>)
    requires DbgOk(z.d) && AllOk(es)
    decreases |es|
  {
    es == [] || (es[0].Execute? && z.orig[Pc(z.d.frame)] != 0xcc && NoInt3(Apply(z, es[0]), es[1..]))
  }

  lemma StoppedAt(z: Sys, e: Event)
    requires Inv(z) && WellBehaved(z, e) && e.Execute? && (Free(z) || Over(z)) && z.orig[Pc(z.d.frame)] != 0xcc
    ensures var z' := Apply(z, e); z'.stopped ==> Listed(z'.d.list, Pc(z'.d.frame))
  {
    ContinuingStep(z, e);
    ProgramStep(z, e);
    EventLists(z, e, Pc(z.d.frame));
    EventLists(z, e, Pc(e.next));
  }

  /** So it is stopped only at breakpoints, and goes on otherwise. */
  lemma {:induction false} ContinuesToBreakpoint(z: Sys, es: seq<Event>)
    requires Inv(z) && AllOk(es) && Behaves(z, es) && NoInt3(z, es)
    requires Free(z) || Over(z) || (z.stopped && Listed(z.d.list, Pc(z.d.frame)))
    ensures var z' := Run(z, es); if z'.stopped then Listed(z'.d.list, Pc(z'.d.frame)) else Free(z') || Over(z')
    decreases |es|
  {
    if es != [] {
      StepKeeps(z, es[0]);
      if !z.stopped {
        ContinuingStep(z, es[0]);
        StoppedAt(z, es[0]);
      }
      ContinuesToBreakpoint(Apply(z, es[0]), es[1..]);
    }
  }

  // ------------------------------------------------------------ counting instructions

  /** Every instruction traps, and none stops the program unless a breakpoint's count runs out. */
  predicate Counting(z: Sys) { !z.stopped && !z.d.inserted && z.d.mode == StepCount && z.d.tf }

  lemma CountingStarts(z: Sys)
    requires Inv(z) && z.stopped
    ensures Counting(Apply(z, Command(ContinueCounting)))
  {}

  lemma CountingStep(z: Sys, e: Event)
    requires Inv(z) && WellBehaved(z, e) && e.Execute? && Counting(z) && z.orig[Pc(z.d.frame)] != 0xcc
    ensures var z' := Apply(z, e); if LastCount(z, Pc(e.next)) then z'.stopped else Counting(z')
  {
    ExecuteKeeps(z, e.next, e.poke);
    StopKeeps(Executed(z, e.next, e.poke), SingleStepTrap);
  }

  // ------------------------------------------------------------ other traps

  /** An int3 of the program's own stops it right after that instruction, whatever the mode. */
  lemma OwnInt3Stops(z: Sys, e: Event)
    requires Inv(z) && WellBehaved(z, e) && e.Execute? && !z.stopped
    requires MeetsInt3(z) && !Listed(z.d.list, Pc(z.d.frame))
    ensures var z' := Apply(z, e); z'.stopped && Pc(z'.d.frame) == Pc(AfterInt3(z.d.frame))
  {
    ProgramStep(z, e);
    FixupUndoesInt3(z.d.frame);
  }

  /** Any other trap stops the program where it is, except at a breakpoint, for which it is a hit. */
  lemma FaultStopsIff(z: Sys)
    requires Inv(z) && !z.stopped
    ensures var z' := Apply(z, Fault); var pc := Pc(z.d.frame);
      z'.d.frame == z.d.frame && (z'.stopped <==> !Listed(z.d.list, pc) || LastCount(z, pc))
  {
    StopKeepsFrame(z.d, OtherTrap);
    RestartKeepsFrame(StopAtPc(z.d, OtherTrap).0);
  }

  /** A trace trap that nobody asked for is ignored. */
  lemma StrayTraceIgnored(d: Dbg)
    requires DbgOk(d) && d.mode == StepContinue && !Listed(d.list, Pc(d.frame))
    ensures !StopAtPc(d, SingleStepTrap).1
  {}

  // ------------------------------------------------------------ counts left out

  /** Without a count, once. */
  lemma DefaultCounts(z: Sys, a: nat)
    requires DbgOk(z.d) && z.stopped && a < MEMSIZE
    ensures Apply(z, Command(Step(-1))) == Apply(z, Command(Step(1)))
    ensures Apply(z, Command(Break(a, -1))) == Apply(z, Command(Break(a, 1)))
  {}
}
