/** Where "until" stops: at the matching return, with the calls in between counted, or at the next
    call or return. */
module DdbUntil {
  import opened Basics
  import opened Ddb
  import opened DdbRuns

  datatype Kind = CallKind | ReturnKind | TrapReturnKind | OtherKind

  function KindAt(mem: Memory, pc: nat): (r: Kind)
    requires pc < MEMSIZE - 1
  {
    if mem[pc] == 0xe8 || (mem[pc] == 0xff && mem[pc + 1] / 8 % 8 == 2) then CallKind
    else if mem[pc] == 0xc3 then ReturnKind
    else if mem[pc] == 0xcf then TrapReturnKind
    else OtherKind
  }

  predicate Executes(es: seq<Event>) { AllOk(es) && forall i :: 0 <= i < |es| ==> es[i].Execute? }

  /** The program's memory after the instructions. */
  function MemAfter(mem: Memory, es: seq<Event>): (r: Memory)
    requires Executes(es)
    decreases |es|
  {
    if es == [] then mem else MemAfter(Poke(mem, es[0].poke), es[1..])
  }

  /** The instruction the program has got to with the last of them. */
  function LastKind(mem: Memory, es: seq<Event>): (r: Kind)
    requires Executes(es) && es != []
  {
    KindAt(MemAfter(mem, es), Pc(es[|es| - 1].next))
  }

  /** How many times the program has got to an instruction of that kind. */
  function Count(mem: Memory, es: seq<Event>, k: Kind): (n: nat)
    requires Executes(es)
    decreases |es|
  {
    if es == [] then 0
    else
      var m := Poke(mem, es[0].poke);
      (if KindAt(m, Pc(es[0].next)) == k then 1 else 0) + Count(m, es[1..], k)
  }

  /** With the last instruction the program has got to the return that ends the outermost of depth
      calls: there have been as many more returns than calls.  Or to a return from a trap. */
  predicate AtReturn(mem: Memory, es: seq<Event>, depth: int)
    requires Executes(es) && es != []
  {
    LastKind(mem, es).TrapReturnKind?
    || (LastKind(mem, es).ReturnKind? && Count(mem, es, ReturnKind) - Count(mem, es, CallKind) == depth)
  }

  /** Until it stops the program meets no breakpoint and no int3 of its own. */
  ghost predicate Quiet(z: Sys, es: seq<Event>)
    requires DbgOk(z.d) && Executes(es)
    decreases |es|
  {
    es == [] || z.stopped
    || (z.d.mem[Pc(z.d.frame)] != BKPTINST && !Listed(z.d.list, Pc(es[0].next)) && Quiet(Apply(z, es[0]), es[1..]))
  }

  lemma {:induction false} StaysStopped(z: Sys, es: seq<Event>)
    requires DbgOk(z.d) && Executes(es) && z.stopped
    ensures Run(z, es) == z
    decreases |es|
  {
    if es != [] { StaysStopped(z, es[1..]); }
  }

  lemma Tail(es: seq<Event>, k: nat)
    requires Executes(es) && 0 < k <= |es|
    ensures Executes(es[..k]) && Executes(es[1..]) && es[..k][0] == es[0] && es[..k][1..] == es[1..][..k - 1]
  {}

  /** What the first instruction leaves for the rest. */
  lemma {:induction false} LastOfRest(mem: Memory, es: seq<Event>)
    requires Executes(es) && |es| > 1
    ensures Executes(es[1..]) && LastKind(mem, es) == LastKind(Poke(mem, es[0].poke), es[1..])
  {}

  /** One step with the trace flag set. */
  lemma StepIs(z: Sys, e: Event)
    requires Inv(z) && EventOk(e) && e.Execute? && !z.stopped && z.d.tf
    requires z.d.mem[Pc(z.d.frame)] != BKPTINST && !Listed(z.d.list, Pc(e.next)) && z.d.mode != StepContinue
    ensures z.d.mem == z.orig && WellBehaved(z, e)
    ensures var y := Executed(z, e.next, e.poke).d.(tf := false); var (d, stop) := StepStops(y);
      Apply(z, e) == (if stop then Sys(d, true, Poke(z.orig, e.poke))
                      else Sys(RestartAtPc(d), false, Poke(z.orig, e.poke)))
  {}

  /** What is left of the depth when the program gets to an instruction. */
  function Deeper(depth: int, k: Kind): (r: int) {
    if k.CallKind? then depth + 1 else if k.ReturnKind? then depth - 1 else depth
  }

  lemma {:induction false} AtReturnFirst(mem: Memory, es: seq<Event>, depth: int)
    requires Executes(es) && es != []
    ensures var k := KindAt(Poke(mem, es[0].poke), Pc(es[0].next));
      AtReturn(mem, es[..1], depth) <==> k.TrapReturnKind? || (k.ReturnKind? && depth == 1)
  {
    var one := es[..1];
    assert one[1..] == [] && one[0] == es[0];
    assert MemAfter(mem, one) == MemAfter(Poke(mem, es[0].poke), []);
    forall k
      ensures Count(mem, one, k) == if KindAt(Poke(mem, es[0].poke), Pc(es[0].next)) == k then 1 else 0
    {
      assert Count(Poke(mem, es[0].poke), [], k) == 0;
    }
  }

  lemma {:induction false} AtReturnLater(mem: Memory, es: seq<Event>, depth: int, k: nat)
    requires Executes(es) && 1 < k <= |es|
    ensures var m := Poke(mem, es[0].poke);
      AtReturn(mem, es[..k], depth)
      <==> AtReturn(m, es[1..][..k - 1], Deeper(depth, KindAt(m, Pc(es[0].next))))
  {
    Tail(es, k);
    LastOfRest(mem, es[..k]);
  }

  /** Some prefix brings the program to that return. */
  ghost predicate Returns(mem: Memory, es: seq<Event>, depth: int)
    requires Executes(es)
  {
    exists k :: 0 < k <= |es| && AtReturn(mem, es[..k], depth)
  }

  lemma {:induction false} ReturnsOn(mem: Memory, es: seq<Event>, depth: int)
    requires Executes(es) && es != []
    ensures var m := Poke(mem, es[0].poke); var k := KindAt(m, Pc(es[0].next));
      Returns(mem, es, depth)
      <==> k.TrapReturnKind? || (k.ReturnKind? && depth == 1) || Returns(m, es[1..], Deeper(depth, k))
  {
    var m := Poke(mem, es[0].poke);
    var d := Deeper(depth, KindAt(m, Pc(es[0].next)));
    AtReturnFirst(mem, es, depth);
    forall k | 1 < k <= |es| ensures AtReturn(mem, es[..k], depth) <==> AtReturn(m, es[1..][..k - 1], d) {
      AtReturnLater(mem, es, depth, k);
    }
    if Returns(m, es[1..], d) {
      var k :| 0 < k <= |es[1..]| && AtReturn(m, es[1..][..k], d);
      assert AtReturn(mem, es[..k + 1], depth);
    }
  }

  lemma {:induction false} OnToReturn(z: Sys, es: seq<Event>)
    requires Inv(z) && Executes(es) && Quiet(z, es)
    requires !z.stopped && z.d.tf && z.d.mode == StepReturn
    ensures Run(z, es).stopped <==> Returns(z.orig, es, z.d.callDepth)
    decreases |es|
  {
    if es != [] {
      var z1 := Apply(z, es[0]);
      StepIs(z, es[0]);
      StepKeeps(z, es[0]);
      ReturnsOn(z.orig, es, z.d.callDepth);
      if z1.stopped { StaysStopped(z1, es[1..]); } else { OnToReturn(z1, es[1..]); }
    }
  }

  /** "next" stops at the return that ends the current call, whatever is called and returned
      from in between, or at a return from a trap, and nowhere before. */
  lemma UntilReturnStopsIff(z: Sys, es: seq<Event>)
    requires Inv(z) && z.stopped && Executes(es) && Quiet(Apply(z, Command(UntilReturn)), es)
    ensures Run(Apply(z, Command(UntilReturn)), es).stopped <==> Returns(z.orig, es, 1)
  {
    StepKeeps(z, Command(UntilReturn));
    OnToReturn(Apply(z, Command(UntilReturn)), es);
  }

  // ------------------------------------------------------------ until the next call or return

  predicate AtCall(mem: Memory, es: seq<Event>)
    requires Executes(es) && es != []
  {
    !LastKind(mem, es).OtherKind?
  }

  ghost predicate Calls(mem: Memory, es: seq<Event>)
    requires Executes(es)
  {
    exists k :: 0 < k <= |es| && AtCall(mem, es[..k])
  }

  lemma {:induction false} CallsOn(mem: Memory, es: seq<Event>)
    requires Executes(es) && es != []
    ensures var m := Poke(mem, es[0].poke);
      Calls(mem, es) <==> !KindAt(m, Pc(es[0].next)).OtherKind? || Calls(m, es[1..])
  {
    var m, one := Poke(mem, es[0].poke), es[..1];
    assert one[1..] == [] && one[0] == es[0] && MemAfter(mem, one) == MemAfter(m, []);
    assert AtCall(mem, es[..1]) <==> !KindAt(m, Pc(es[0].next)).OtherKind?;
    forall k | 1 < k <= |es| ensures AtCall(mem, es[..k]) <==> AtCall(m, es[1..][..k - 1]) {
      Tail(es, k);
      LastOfRest(mem, es[..k]);
    }
    if Calls(m, es[1..]) {
      var k :| 0 < k <= |es[1..]| && AtCall(m, es[1..][..k]);
      assert AtCall(mem, es[..k + 1]);
    }
  }

  lemma {:induction false} OnToCall(z: Sys, es: seq<Event>)
    requires Inv(z) && Executes(es) && Quiet(z, es)
    requires !z.stopped && z.d.tf && z.d.mode == StepCallT
    ensures Run(z, es).stopped <==> Calls(z.orig, es)
    decreases |es|
  {
    if es != [] {
      var z1 := Apply(z, es[0]);
      StepIs(z, es[0]);
      StepKeeps(z, es[0]);
      CallsOn(z.orig, es);
      if z1.stopped { StaysStopped(z1, es[1..]); } else { OnToCall(z1, es[1..]); }
    }
  }

  /** "until" stops at the first call or return the program gets to. */
  lemma UntilCallStopsIff(z: Sys, es: seq<Event>)
    requires Inv(z) && z.stopped && Executes(es) && Quiet(Apply(z, Command(UntilCall)), es)
    ensures Run(Apply(z, Command(UntilCall)), es).stopped <==> Calls(z.orig, es)
  {
    StepKeeps(z, Command(UntilCall));
    OnToCall(Apply(z, Command(UntilCall)), es);
  }
}
