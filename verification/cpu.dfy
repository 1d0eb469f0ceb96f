/** The 8086 interpreter's memory access, prefixes and string instructions: one pass of
    its fetch-and-execute loop as a function of the machine's state. */
module Cpu {
  import opened Arithmetic
  import opened Basics

  const AX := 0
  const CX := 1
  const SI := 6
  const DI := 7
  const FirstS := 8
  const ESeg := 0
  const CSeg := 1
  const DSeg := 3
  const MEMSIZE := 0x10_0000

  datatype Flags = Flags(cf: bool, pf: bool, af: bool, zf: bool, sf: bool, of: bool, df: bool)

  /** The interpreter's variables.  `failed` once it has reported an error and exited. */
  datatype State = State(
    regs: seq<Word>, f: Flags, ip: Word, ram: seq<Byte>, initialized: seq<bool>, loadSegment: Word,
    segment: nat, segmentOverride: int, opcode: Byte, wordSize: bool, prefix: bool,
    rep: nat, repeating: bool, failed: bool)

  ghost predicate Ok(c: State) {
    && |c.regs| == 12 && |c.ram| == |c.initialized| == MEMSIZE
    && c.segment <= 3 && -1 <= c.segmentOverride <= 3 && c.rep <= 2
  }

  // ------------------------------------------------------------ arithmetic flags

  predicate Bit(x: int, k: nat)
    requires x >= 0
  {
    x / Pow2(k) % 2 == 1
  }

  /** Whether a number has an even number of one bits. */
  predicate EvenParity(x: nat) {
    if x == 0 then true else EvenParity(x / 2) != (x % 2 == 1)
  }

  function Width(w: bool): (r: nat) { if w then 16 else 8 }

  // setPZS
  function SetPZS(f: Flags, data: DWord, w: bool): (r: Flags) {
    f.(pf := EvenParity(data % 0x100), zf := data % Pow2(Width(w)) == 0, sf := Bit(data, Width(w) - 1))
  }

  /** The flags after data was formed from destination and source: setCAPZS with the
      overflow test of an addition or of a subtraction. */
  function ArithFlags(f: Flags, data: DWord, destination: DWord, source: DWord, w: bool, subtract: bool): (r: Flags) {
    var n := Width(w);
    var d, s, r := Bit(destination, n - 1), Bit(source, n - 1), Bit(data, n - 1);
    SetPZS(f, data, w).(
      af := (Bit(data, 4) != Bit(source, 4)) != Bit(destination, 4),
      cf := Bit(data, n),
      of := if subtract then d != s && r != d else r != s && r != d)
  }

  function Add32(a: DWord, b: DWord): (r: DWord) { (a + b) % 0x1_0000_0000 }
  function Sub32(a: DWord, b: DWord): (r: DWord) { (a - b) % 0x1_0000_0000 }

  // ------------------------------------------------------------ memory

  function SegmentOf(c: State, seg: int): (r: nat)
    requires Ok(c) && -1 <= seg <= 3
    ensures r <= 3
  {
    if seg != -1 then seg else if c.segmentOverride != -1 then c.segmentOverride else c.segment
  }

  function Physical(base: Word, offset: Word): (a: nat)
    ensures a < MEMSIZE
  {
    (base * 16 + offset) % MEMSIZE
  }

  function Address(c: State, offset: Word, seg: int): (a: nat)
    requires Ok(c) && -1 <= seg <= 3
    ensures a < MEMSIZE
  {
    Physical(c.regs[FirstS + SegmentOf(c, seg)], offset)
  }

  function Next(offset: Word): (r: Word) { (offset + 1) % 0x1_0000 }

  /** The lowest address the running program may write: an unsigned difference of 32 bits. */
  function LowLimit(c: State): (r: DWord) { (c.loadSegment * 16 - 0x100) % 0x1_0000_0000 }

  predicate Readable(c: State, offset: Word, seg: int, w: bool)
    requires Ok(c) && -1 <= seg <= 3
  {
    c.initialized[Address(c, offset, seg)] && (w ==> c.initialized[Address(c, Next(offset), seg)])
  }

  function TwoBytes(lo: Byte, hi: Byte): (v: Word)
    ensures v % 0x100 == lo && v / 0x100 == hi
  {
    (lo as int) + 0x100 * (hi as int)
  }

  function Value(c: State, offset: Word, seg: int, w: bool): (r: Word)
    requires Ok(c) && -1 <= seg <= 3
  {
    var lo := c.ram[Address(c, offset, seg)];
    if w then TwoBytes(lo, c.ram[Address(c, Next(offset), seg)]) else lo
  }

  function WriteByte(c: State, v: Byte, offset: Word, seg: int): (r: State)
    requires Ok(c) && -1 <= seg <= 3
    ensures Ok(r)
  {
    var a := Address(c, offset, seg);
    if a < LowLimit(c) then c.(initialized := c.initialized[a := true], failed := true)
    else c.(initialized := c.initialized[a := true], ram := c.ram[a := v])
  }

  function Write(c: State, v: Word, offset: Word, seg: int, w: bool): (r: State)
    requires Ok(c) && -1 <= seg <= 3
    ensures Ok(r)
  {
    var c1 := WriteByte(c, v % 0x100, offset, seg);
    if !w || c1.failed then c1 else WriteByte(c1, v / 0x100, Next(offset), seg)
  }

  // ------------------------------------------------------------ string instructions

  function Step(c: State): (r: int) { (if c.wordSize then 2 else 1) * (if c.f.df then -1 else 1) }

  function Moved(c: State, r: nat): (c': State)
    requires Ok(c) && r < 8
    ensures Ok(c')
  {
    c.(regs := c.regs[r := (c.regs[r] + Step(c)) % 0x1_0000])
  }

  /** lodS: the element at SI in the data segment, or where an override says. */
  function LodS(c: State): (r: (State, Word))
    requires Ok(c)
    ensures Ok(r.0)
  {
    var c1 := Moved(c, SI).(segment := DSeg);
    if Readable(c1, c.regs[SI], -1, c.wordSize) then (c1, Value(c1, c.regs[SI], -1, c.wordSize))
    else (c1.(failed := true), 0)
  }

  /** lodDIS: the element at DI in the extra segment. */
  function LodDIS(c: State): (r: (State, Word))
    requires Ok(c)
    ensures Ok(r.0)
  {
    var c1 := Moved(c, DI);
    if Readable(c1, c.regs[DI], ESeg, c.wordSize) then (c1, Value(c1, c.regs[DI], ESeg, c.wordSize))
    else (c1.(failed := true), 0)
  }

  function StoS(c: State, v: Word): (r: State)
    requires Ok(c)
    ensures Ok(r)
  {
    Write(Moved(c, DI), v, c.regs[DI], ESeg, c.wordSize)
  }

  function Accum(c: State): (r: Word)
    requires Ok(c)
  {
    if c.wordSize then c.regs[AX] else c.regs[AX] % 0x100
  }

  function Compare(c: State, destination: Word, source: Word): (r: State)
    requires Ok(c)
    ensures Ok(r)
  {
    c.(f := ArithFlags(c.f, Sub32(destination, source), destination, source, c.wordSize, true))
  }

  datatype StringOp = Movs | Cmps | Stos | Lods | Scas

  function OpOf(opcode: Byte): (r: StringOp)
    requires IsString(opcode)
  {
    if opcode < 0xa6 then Movs else if opcode < 0xa8 then Cmps
    else if opcode < 0xac then Stos else if opcode < 0xae then Lods else Scas
  }

  predicate IsString(opcode: Byte) { 0xa4 <= opcode < 0xb0 && opcode != 0xa8 && opcode != 0xa9 }

  predicate Compares(op: StringOp) { op.Cmps? || op.Scas? }

  /** What the instruction does to one element. */
  function Element(c: State, op: StringOp): (r: State)
    requires Ok(c)
    ensures Ok(r)
  {
    match op
    case Movs => var (c1, v) := LodS(c); if c1.failed then c1 else StoS(c1, v)
    case Stos => StoS(c, Accum(c))
    case Lods =>
      var (c1, v) := LodS(c);
      if c1.failed then c1
      else c1.(regs := c1.regs[AX := if c.wordSize then v else c1.regs[AX] / 0x100 * 0x100 + v])
    case Cmps =>
      var (c1, d) := LodS(c);
      if c1.failed then c1
      else var (c2, s) := LodDIS(c1); if c2.failed then c2 else Compare(c2, d, s)
    case Scas =>
      var (c1, s) := LodDIS(c); if c1.failed then c1 else Compare(c1, Accum(c), s)
  }

  /** doRep */
  function DoRep(c: State, compare: bool): (r: State)
    requires Ok(c)
    ensures Ok(r)
  {
    if c.rep == 1 && !compare then c.(failed := true)
    else if c.rep == 0 || c.regs[CX] == 0 then c
    else
      var cx := c.regs[CX] - 1;
      c.(regs := c.regs[CX := cx], repeating := cx != 0 && (!compare || c.f.zf != (c.rep == 1)))
  }

  function StringInstruction(c: State, op: StringOp): (r: State)
    requires Ok(c)
    ensures Ok(r)
  {
    var c1 := if c.rep == 0 || c.regs[CX] != 0 then Element(c, op) else c;
    if c1.failed then c1 else DoRep(c1, Compares(op))
  }

  // ------------------------------------------------------------ the loop

  /** The head of the loop: fetches an opcode unless a string instruction is being repeated. */
  function Fetch(c: State): (r: State)
    requires Ok(c)
    ensures Ok(r)
  {
    if c.repeating then c
    else
      var c1 := if c.prefix then c else c.(segmentOverride := -1, rep := 0);
      var c2 := c1.(prefix := false);
      if Readable(c2, c.ip, CSeg, false) then
        c2.(opcode := Value(c2, c.ip, CSeg, false), ip := Next(c.ip))
      else c2.(failed := true)
  }

  predicate IsOverride(opcode: Byte) { opcode in {0x26, 0x2e, 0x36, 0x3e} }
  predicate IsRep(opcode: Byte) { opcode == 0xf2 || opcode == 0xf3 }

  /** The instructions of this model. */
  predicate InScope(opcode: Byte) { IsString(opcode) || IsOverride(opcode) || IsRep(opcode) }

  /** Whether this model says what happens next: after REP it always does. */
  predicate Handled(c: State) { c.rep != 0 || InScope(c.opcode) }

  /** The rest of the pass, for an opcode in scope: no prefix may follow REP. */
  function Dispatch(c: State): (r: State)
    requires Ok(c) && Handled(c)
    ensures Ok(r)
  {
    if c.rep != 0 && !IsString(c.opcode) then c.(failed := true)
    else
      var c1 := c.(wordSize := c.opcode % 2 == 1);
      if IsString(c.opcode) then StringInstruction(c1, OpOf(c.opcode))
      else if IsRep(c.opcode) then c1.(rep := if c.opcode == 0xf2 then 1 else 2, prefix := true)
      else c1.(segmentOverride := c.opcode / 8 % 8 - 4, prefix := true)
  }

  /** One pass of the loop; after an error nothing more happens. */
  function Turn(c: State): (r: State)
    requires Ok(c) && (c.failed || Fetch(c).failed || Handled(Fetch(c)))
    ensures Ok(r)
  {
    if c.failed then c else var c1 := Fetch(c); if c1.failed then c1 else Dispatch(c1)
  }
}
