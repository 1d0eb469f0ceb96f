/** Opcodes, addresses and the protection of memory, in numbers. */
module CpuFetch {
  import opened Basics
  import opened Cpu

  /** The string instructions by their opcodes; the odd one is that on words. */
  lemma OpcodesAre(code: Byte)
    ensures IsString(code) <==> code in {0xa4, 0xa5, 0xa6, 0xa7, 0xaa, 0xab, 0xac, 0xad, 0xae, 0xaf}
    ensures IsString(code) ==>
      OpOf(code) == (if code in {0xa4, 0xa5} then Movs else if code in {0xa6, 0xa7} then Cmps
                     else if code in {0xaa, 0xab} then Stos else if code in {0xac, 0xad} then Lods else Scas)
  {}

  /** Addresses have twenty bits. */
  lemma AddressesWrap(base: Word, offset: Word)
    ensures var a := Physical(base, offset); var linear := base * 16 + offset;
      a < 0x10_0000 && (a == linear || a == linear - 0x10_0000)
  {}

  /** A byte below the program's segment, its first 256 bytes excepted, cannot be written; any other is
      written there and nowhere else. */
  lemma WriteProtected(c: State, v: Byte, o: Word, seg: int)
    requires Ok(c) && -1 <= seg <= 3 && !c.failed && c.loadSegment >= 0x10
    ensures var a, r := Address(c, o, seg), WriteByte(c, v, o, seg);
      (r.failed <==> a < c.loadSegment * 16 - 0x100)
      && r.ram == (if r.failed then c.ram else c.ram[a := v]) && r.regs == c.regs
  {}

  /** An instruction's prefixes are forgotten when it is done: the next one starts without them. */
  lemma PrefixesForgotten(c: State)
    requires Ok(c) && !c.repeating
    ensures var f := Fetch(c);
      !f.prefix && if c.prefix then f.segmentOverride == c.segmentOverride && f.rep == c.rep
                   else f.segmentOverride == -1 && f.rep == 0
  {}

  /** The four segment overrides: ES, CS, SS and DS are numbers 0 to 3. */
  lemma OverridesAre(c: State)
    requires Ok(c) && c.rep == 0 && c.opcode in {0x26, 0x2e, 0x36, 0x3e}
    ensures Handled(c) && Dispatch(c).prefix
      && Dispatch(c).segmentOverride == (if c.opcode == 0x26 then 0 else if c.opcode == 0x2e then 1
                                         else if c.opcode == 0x36 then 2 else 3)
  {}

  /** Where data come from: the override if there is one, else the segment of the instruction; the
      destination of a string instruction is always in ES. */
  lemma SegmentsAre(c: State, o: Word)
    requires Ok(c)
    ensures Address(c, o, ESeg) == Physical(c.regs[8], o)
    ensures Address(c.(segment := DSeg), o, -1)
      == Physical(c.regs[if c.segmentOverride == -1 then 11 else 8 + c.segmentOverride], o)
  {}

  /** The index registers step by the size of an element, up or, with DF, down. */
  lemma StepsAre(c: State)
    requires Ok(c)
    ensures Step(c) == (if c.wordSize && c.f.df then -2 else if c.wordSize then 2 else if c.f.df then -1 else 1)
    ensures Moved(c, SI).regs[6] == (c.regs[6] + Step(c)) % 0x1_0000
    ensures Moved(c, DI).regs[7] == (c.regs[7] + Step(c)) % 0x1_0000
  {}
}
