/** The breakpoints and run modes of ddb on the 8086 machine of this repository, which
    single-steps in hardware: what a trap, a command and an instruction do to the
    debugger and to the memory of the program. */
module Ddb {
  import opened Basics

  const NBREAKPOINTS := 100
  const BKPTINST: Byte := 0xcc
  const MEMSIZE := 0x11_0000

  type Memory = s: seq<Byte> | |s| == MEMSIZE witness seq(MEMSIZE, _ => 0)

  datatype Bkpt = Bkpt(address: nat, initCount: int, count: int, inst: Byte)

  datatype Mode = StepOnce | StepReturn | StepCallT | StepContinue | StepInvisible | StepCount

  /** Instruction pointer and code segment of the interrupted program. */
  datatype Frame = Frame(eip: nat, cs: nat)

  predicate FrameOk(f: Frame) { f.eip < 0x1_0000_0000 && f.cs < 0x1_0000 }

  /** The address of the next instruction in virtual-8086 mode. */
  function Pc(f: Frame): (pc: nat)
    requires FrameOk(f)
    ensures pc < MEMSIZE - 16
  {
    f.eip % 0x1_0000 + f.cs * 16
  }

  // what the processor does to the frame when it executes the breakpoint instruction
  function AfterInt3(f: Frame): (r: Frame) { f.(eip := (f.eip + 1) % 0x1_0000) }
  // FIXUP_PC_AFTER_BREAK and BKPT_SKIP
  function Fixup(f: Frame): (r: Frame) { f.(eip := (f.eip - 1) % 0x1_0000_0000) }
  function Skip(f: Frame): (r: Frame) { f.(eip := (f.eip + 1) % 0x1_0000_0000) }

  /** The debugger's variables, the program's memory, its frame and its trace flag. */
  datatype Dbg = Dbg(list: seq<Bkpt>, inserted: bool, mem: Memory, mode: Mode,
                     loopCount: int, callDepth: int, frame: Frame, tf: bool)

  datatype Trap = BreakpointTrap | SingleStepTrap | OtherTrap

  // ------------------------------------------------------------ breakpoints

  /** The position of the breakpoint at an address, |list| when there is none. */
  function Find(list: seq<Bkpt>, addr: nat): (i: nat)
    ensures i <= |list|
    ensures i < |list| ==> list[i].address == addr
    ensures forall j :: 0 <= j < i ==> list[j].address != addr
  {
    if list == [] then 0 else if list[0].address == addr then 0 else 1 + Find(list[1..], addr)
  }

  predicate Listed(list: seq<Bkpt>, addr: nat) { Find(list, addr) < |list| }

  /** db_set_breakpoint: refused when already set, or when the table is used up. */
  function SetBreakpoint(list: seq<Bkpt>, addr: nat, count: int): (r: seq<Bkpt>) {
    if Listed(list, addr) || |list| >= NBREAKPOINTS then list
    else [Bkpt(addr, count, count, 0)] + list
  }

  function DeleteBreakpoint(list: seq<Bkpt>, addr: nat): (r: seq<Bkpt>) {
    var i := Find(list, addr);
    if i < |list| then list[..i] + list[i + 1..] else list
  }

  predicate AllInMemory(list: seq<Bkpt>) {
    forall i :: 0 <= i < |list| ==> list[i].address < MEMSIZE
  }

  /** The first k turns of the planting loop: each saves the byte at a breakpoint and
      writes the breakpoint instruction there. */
  function PlantUpTo(mem: Memory, list: seq<Bkpt>, k: nat): (r: (Memory, seq<Bkpt>))
    requires AllInMemory(list) && k <= |list|
    ensures |r.1| == |list|
    ensures forall i :: 0 <= i < |list| ==>
      r.1[i].address == list[i].address && r.1[i].initCount == list[i].initCount && r.1[i].count == list[i].count
  {
    if k == 0 then (mem, list)
    else
      var (m, l) := PlantUpTo(mem, list, k - 1);
      var a := l[k - 1].address;
      (m[a := BKPTINST], l[k - 1 := l[k - 1].(inst := m[a])])
  }

  /** The first k turns of the clearing loop. */
  function UnplantUpTo(mem: Memory, list: seq<Bkpt>, k: nat): (r: Memory)
    requires AllInMemory(list) && k <= |list|
  {
    if k == 0 then mem else UnplantUpTo(mem, list, k - 1)[list[k - 1].address := list[k - 1].inst]
  }

  function SetBreakpoints(d: Dbg): (r: Dbg)
    requires AllInMemory(d.list)
  {
    if d.inserted then d
    else var (m, l) := PlantUpTo(d.mem, d.list, |d.list|); d.(mem := m, list := l, inserted := true)
  }

  function ClearBreakpoints(d: Dbg): (r: Dbg)
    requires AllInMemory(d.list)
  {
    if d.inserted then d.(mem := UnplantUpTo(d.mem, d.list, |d.list|), inserted := false) else d
  }

  // ------------------------------------------------------------ stopping and restarting

  predicate InstTrapReturn(mem: Memory, pc: nat) requires pc < MEMSIZE - 1 { mem[pc] == 0xcf }
  predicate InstReturn(mem: Memory, pc: nat) requires pc < MEMSIZE - 1 { mem[pc] == 0xc3 }
  predicate InstCall(mem: Memory, pc: nat) requires pc < MEMSIZE - 1 {
    mem[pc] == 0xe8 || (mem[pc] == 0xff && mem[pc + 1] / 8 % 8 == 2)
  }

  ghost predicate DbgOk(d: Dbg) { AllInMemory(d.list) && FrameOk(d.frame) }

  /** A breakpoint of ours was reached: one less to go, or stop and start over. */
  function CountDown(b: Bkpt): (r: (Bkpt, bool)) {
    if b.count - 1 == 0 then (b.(count := b.initCount), true) else (b.(count := b.count - 1), false)
  }

  /** The end of db_stop_at_pc, for a single-step trap in one of the stepping modes or
      an unexpected trap when not stepping. */
  function StepStops(d: Dbg): (r: (Dbg, bool))
    requires DbgOk(d)
  {
    var pc := Pc(d.frame);
    match d.mode
    case StepInvisible => (d.(mode := StepContinue), false)
    case StepCount => (d, false)
    case StepOnce => (d.(loopCount := d.loopCount - 1), d.loopCount - 1 <= 0)
    case StepReturn =>
      if InstTrapReturn(d.mem, pc) then (d, true)
      else if InstReturn(d.mem, pc) then (d.(callDepth := d.callDepth - 1), d.callDepth - 1 == 0)
      else if InstCall(d.mem, pc) then (d.(callDepth := d.callDepth + 1), false)
      else (d, false)
    case StepCallT =>
      (d, InstCall(d.mem, pc) || InstReturn(d.mem, pc) || InstTrapReturn(d.mem, pc))
    case StepContinue => (d, true)
  }

  /** The start of db_stop_at_pc: no trace flag, no planted instructions, and after a
      breakpoint trap the frame set back to the instruction that trapped. */
  function Entered(d: Dbg, t: Trap): (r: Dbg)
    requires DbgOk(d)
    ensures DbgOk(r) && r.list == d.list
  {
    var d0 := ClearBreakpoints(d.(tf := false));
    if t.BreakpointTrap? then d0.(frame := Fixup(d0.frame)) else d0
  }

  /** The rest of it when no breakpoint of ours is there. */
  function NotOurs(d: Dbg, t: Trap): (r: (Dbg, bool))
    requires DbgOk(d)
    ensures DbgOk(r.0) && r.0.list == d.list
  {
    var d2 := if t.BreakpointTrap? then d.(frame := Skip(d.frame)) else d;
    if d2.mode == StepContinue && t.SingleStepTrap? then (d2, false)
    else if d2.mode != StepContinue && !t.SingleStepTrap? then (d2, true)
    else StepStops(d2)
  }

  /** db_stop_at_pc: the new variables, and whether to stop and take commands. */
  function StopAtPc(d: Dbg, t: Trap): (r: (Dbg, bool))
    requires DbgOk(d)
    ensures DbgOk(r.0)
  {
    var d1 := Entered(d, t);
    var i := Find(d1.list, Pc(d1.frame));
    if i < |d1.list| then
      var (b, stop) := CountDown(d1.list[i]);
      (d1.(list := d1.list[i := b]), stop)
    else NotOurs(d1, t)
  }

  /** db_restart_at_pc: plant the breakpoints and run, or set the trace flag for one instruction. */
  function RestartAtPc(d: Dbg): (r: Dbg)
    requires DbgOk(d)
    ensures DbgOk(r)
  {
    if d.mode == StepContinue then
      if Listed(d.list, Pc(d.frame)) then d.(mode := StepInvisible, tf := true)
      else SetBreakpoints(d)
    else d.(tf := true)
  }

  // ------------------------------------------------------------ the machine as a whole

  /** `stopped` while commands are taken; `orig` is the program's memory as it would be
      if no breakpoint had ever been planted. */
  datatype Sys = Sys(d: Dbg, stopped: bool, orig: Memory)

  datatype Cmd =
    | Break(addr: nat, count: int) | Delete(addr: nat)
    | Step(count: int) | UntilCall | UntilReturn | Continue | ContinueCounting

  datatype Event =
    | Execute(next: Frame, poke: map<nat, Byte>)   // the program's next instruction and its effect
    | Fault                                        // any other trap
    | Command(c: Cmd)

  predicate EventOk(e: Event) {
    match e
    case Execute(next, poke) => FrameOk(next) && forall a :: a in poke ==> a < MEMSIZE
    case Command(Break(addr, _)) => addr < MEMSIZE
    case _ => true
  }

  function Poke(mem: Memory, poke: map<nat, Byte>): (r: Memory) {
    seq(MEMSIZE, a requires 0 <= a < MEMSIZE => if a in poke then poke[a] else mem[a])
  }

  /** The trap an event leads to, with the machine as the debugger finds it. */
  function TrapOf(z: Sys, e: Event): (r: Option<(Sys, Trap)>)
    requires DbgOk(z.d) && EventOk(e)
  {
    if z.stopped then None
    else match e
      case Fault => Some((z, OtherTrap))
      case Execute(next, poke) =>
        if z.d.mem[Pc(z.d.frame)] == BKPTINST then
          Some((z.(d := z.d.(frame := AfterInt3(z.d.frame))), BreakpointTrap))
        else if z.d.tf then Some((Executed(z, next, poke), SingleStepTrap))
        else None
      case _ => None
  }

  function Executed(z: Sys, next: Frame, poke: map<nat, Byte>): (r: Sys) {
    Sys(z.d.(frame := next, mem := Poke(z.d.mem, poke)), z.stopped, Poke(z.orig, poke))
  }

  /** db_trap: stop, or restart at once. */
  function Handle(z: Sys, t: Trap): (r: Sys)
    requires DbgOk(z.d)
  {
    var (d, stop) := StopAtPc(z.d, t);
    if stop then z.(d := d, stopped := true) else z.(d := RestartAtPc(d))
  }

  function Go(z: Sys, d: Dbg): (r: Sys)
    requires DbgOk(d)
  {
    z.(d := RestartAtPc(d), stopped := false)
  }

  function Obey(z: Sys, c: Cmd): (r: Sys)
    requires DbgOk(z.d)
  {
    var d := z.d;
    match c
    case Break(addr, count) =>
      z.(d := d.(list := SetBreakpoint(d.list, addr, if count == -1 then 1 else count)))
    case Delete(addr) => z.(d := d.(list := DeleteBreakpoint(d.list, addr)))
    case Step(count) => Go(z, d.(mode := StepOnce, loopCount := if count == -1 then 1 else count))
    case UntilCall => Go(z, d.(mode := StepCallT))
    case UntilReturn => Go(z, d.(mode := StepReturn, callDepth := 1))
    case Continue => Go(z, d.(mode := StepContinue))
    case ContinueCounting => Go(z, d.(mode := StepCount))
  }

  function Apply(z: Sys, e: Event): (z': Sys)
    requires DbgOk(z.d) && EventOk(e)
    ensures DbgOk(z'.d)
  {
    match e
    case Command(c) => if z.stopped then Obey(z, c) else z
    case Fault => if z.stopped then z else Handle(z, OtherTrap)
    case Execute(next, poke) =>
      match TrapOf(z, e) {
        case Some((y, t)) => Handle(y, t)
        case None => if z.stopped then z else Executed(z, next, poke)
      }
  }
}
