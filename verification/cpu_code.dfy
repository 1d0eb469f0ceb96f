/** The interpreter as the program has it: registers and memory updated in place. */
module CpuCode {
  import opened Basics
  import opened Cpu
  import opened CpuStrings

  class Machine {
    const registers: array<Word>
    const ram: array<Byte>
    const initialized: array<bool>
    const loadSegment: Word
    var flags: Flags
    var ip: Word
    var segment: nat
    var segmentOverride: int
    var opcode: Byte
    var wordSize: bool
    var prefix: bool
    var rep: nat
    var repeating: bool
    var failed: bool

    ghost predicate Valid()
      reads this
    {
      && registers.Length == 12 && ram.Length == initialized.Length == MEMSIZE
      && (registers as object) != (ram as object) && (registers as object) != (initialized as object)
      && (ram as object) != (initialized as object)
      && segment <= 3 && -1 <= segmentOverride <= 3 && rep <= 2
    }

    ghost function Now(): (s: State)
      reads this, registers, ram, initialized
      requires Valid()
      ensures Ok(s)
    {
      State(registers[..], flags, ip, ram[..], initialized[..], loadSegment, segment, segmentOverride,
            opcode, wordSize, prefix, rep, repeating, failed)
    }

    /** The machine as it is switched on, with a program loaded. */
    constructor (program: seq<Byte>, loaded: seq<bool>, start: seq<Word>, at: Word, loadSegment: Word, f: Flags)
      requires |program| == |loaded| == MEMSIZE && |start| == 12
      ensures Valid() && fresh(registers) && fresh(ram) && fresh(initialized)
      ensures Now() == State(start, f, at, program, loaded, loadSegment, 0, -1, 0, false, false, 0, false, false)
    {
      registers := new Word[12](i requires 0 <= i < 12 => start[i]);
      ram := new Byte[MEMSIZE](i requires 0 <= i < MEMSIZE => program[i]);
      initialized := new bool[MEMSIZE](i requires 0 <= i < MEMSIZE => loaded[i]);
      this.loadSegment, flags, ip := loadSegment, f, at;
      segment, segmentOverride, opcode, wordSize, prefix := 0, -1, 0, false, false;
      rep, repeating, failed := 0, false, false;
      new;
      assert registers[..] == start && ram[..] == program && initialized[..] == loaded;
    }

    /** The physical address, of a location to be read; an uninitialised one is an error. */
    method PhysicalAddress(offset: Word, seg: int, write: bool) returns (a: nat)
      requires Valid() && -1 <= seg <= 3 && !failed
      modifies this`failed, initialized
      ensures Valid() && a == old(Address(Now(), offset, seg))
      ensures !write ==> Now() == old(Now()).(failed := !old(initialized[a]))
      ensures write ==>
        Now() == old(Now()).(failed := a < LowLimit(old(Now())), initialized := old(initialized[..])[a := true])
    {
      var s := seg;
      if s == -1 {
        s := segment;
        if segmentOverride != -1 { s := segmentOverride; }
      }
      a := (registers[FirstS + s] * 16 + offset) % MEMSIZE;
      var bad := false;
      if write {
        bad := a < (loadSegment * 16 - 0x100) % 0x1_0000_0000;
        initialized[a] := true;
      }
      failed := !initialized[a] || bad;
    }

    method ReadByte(offset: Word, seg: int) returns (v: Byte)
      requires Valid() && -1 <= seg <= 3 && !failed
      modifies this`failed, initialized
      ensures Valid() && Now() == old(Now()).(failed := !old(Readable(Now(), offset, seg, false)))
      ensures !failed ==> v == old(Value(Now(), offset, seg, false))
    {
      var a := PhysicalAddress(offset, seg, false);
      v := ram[a];
    }

    method Read(offset: Word, seg: int) returns (v: Word)
      requires Valid() && -1 <= seg <= 3 && !failed
      modifies this`failed, initialized
      ensures Valid() && Now() == old(Now()).(failed := !old(Readable(Now(), offset, seg, wordSize)))
      ensures !failed ==> v == old(Value(Now(), offset, seg, wordSize))
    {
      var lo := ReadByte(offset, seg);
      v := lo;
      if wordSize && !failed {
        var hi := ReadByte(Next(offset), seg);
        v := TwoBytes(lo, hi);
      }
    }

    method StoreByte(v: Byte, offset: Word, seg: int)
      requires Valid() && -1 <= seg <= 3 && !failed
      modifies this`failed, initialized, ram
      ensures Valid() && Now() == old(WriteByte(Now(), v, offset, seg))
    {
      var a := PhysicalAddress(offset, seg, true);
      if !failed { ram[a] := v; }
    }

    method Store(v: Word, offset: Word, seg: int)
      requires Valid() && -1 <= seg <= 3 && !failed
      modifies this`failed, initialized, ram
      ensures Valid() && Now() == old(Write(Now(), v, offset, seg, wordSize))
    {
      StoreByte(v % 0x100, offset, seg);
      if wordSize && !failed { StoreByte(v / 0x100, Next(offset), seg); }
    }

    /** Moves an index register past the element and gives where it was. */
    method Advance(r: nat) returns (address: Word)
      requires Valid() && r < 8
      modifies registers
      ensures Valid() && address == old(registers[r]) && Now() == old(Moved(Now(), r))
    {
      address := registers[r];
      var increment := if wordSize then 2 else 1;
      registers[r] := (address + if flags.df then -increment else increment) % 0x1_0000;
      assert registers[..] == old(registers[..])[r := registers[r]];
    }

    method LoadSI() returns (v: Word)
      requires Valid() && !failed
      modifies this`failed, this`segment, registers, initialized
      ensures Valid() && Now() == old(LodS(Now()).0) && (!failed ==> v == old(LodS(Now()).1))
    {
      var address := Advance(SI);
      segment := DSeg;
      v := Read(address, -1);
    }

    method LoadDI() returns (v: Word)
      requires Valid() && !failed
      modifies this`failed, registers, initialized
      ensures Valid() && Now() == old(LodDIS(Now()).0) && (!failed ==> v == old(LodDIS(Now()).1))
    {
      var address := Advance(DI);
      v := Read(address, ESeg);
    }

    method StoreDI(v: Word)
      requires Valid() && !failed
      modifies this`failed, registers, initialized, ram
      ensures Valid() && Now() == old(StoS(Now(), v))
    {
      var address := Advance(DI);
      Store(v, address, ESeg);
    }

    method Subtract(destination: Word, source: Word)
      requires Valid()
      modifies this`flags
      ensures Valid() && Now() == old(Compare(Now(), destination, source))
    {
      flags := ArithFlags(flags, Sub32(destination, source), destination, source, wordSize, true);
    }

    /** Counts CX down and decides whether the instruction is repeated. */
    method Repeat(compare: bool)
      requires Valid() && !failed
      modifies this`failed, this`repeating, registers
      ensures Valid() && Now() == old(DoRep(Now(), compare))
    {
      if rep == 1 && !compare {
        failed := true;
        return;
      }
      if rep == 0 || registers[CX] == 0 { return; }
      registers[CX] := registers[CX] - 1;
      repeating := registers[CX] != 0 && (!compare || flags.zf != (rep == 1));
      assert registers[..] == old(registers[..])[CX := registers[CX]];
    }

    method GetAccum() returns (v: Word)
      requires Valid()
      ensures v == Accum(Now())
    {
      v := if wordSize then registers[AX] else registers[AX] % 0x100;
    }

    /** One element of a string instruction. */
    method DoElement(op: StringOp)
      requires Valid() && !failed
      modifies this`failed, this`segment, this`flags, registers, initialized, ram
      ensures Valid() && Now() == old(Element(Now(), op))
    {
      match op {
        case Movs =>
          var v := LoadSI();
          if !failed { StoreDI(v); }
        case Stos =>
          var v := GetAccum();
          StoreDI(v);
        case Lods =>
          var v := LoadSI();
          if !failed {
            registers[AX] := if wordSize then v else registers[AX] / 0x100 * 0x100 + v;
          }
        case Cmps =>
          var d := LoadSI();
          if !failed {
            var s := LoadDI();
            if !failed { Subtract(d, s); }
          }
        case Scas =>
          var d := GetAccum();
          var s := LoadDI();
          if !failed { Subtract(d, s); }
      }
    }

    method DoString(op: StringOp)
      requires Valid() && !failed
      modifies this`failed, this`segment, this`flags, this`repeating, registers, initialized, ram
      ensures Valid() && Now() == old(StringInstruction(Now(), op))
    {
      if rep == 0 || registers[CX] != 0 { DoElement(op); }
      if !failed { Repeat(op == Cmps || op == Scas); }
    }

    method FetchOpcode()
      requires Valid() && !failed
      modifies this, initialized
      ensures Valid() && Now() == old(Fetch(Now()))
    {
      if !repeating {
        if !prefix { segmentOverride, rep := -1, 0; }
        prefix := false;
        var b := ReadByte(ip, CSeg);
        if !failed { opcode, ip := b, Next(ip); }
      }
    }

    /** The switch on the opcode, for the instructions of this model. */
    method Execute()
      requires Valid() && !failed && Handled(Now())
      modifies this, registers, initialized, ram
      ensures Valid() && Now() == old(Dispatch(Now()))
    {
      if rep != 0 && !IsString(opcode) {
        failed := true;
        return;
      }
      wordSize := opcode % 2 == 1;
      if IsString(opcode) {
        DoString(OpOf(opcode));
      } else if IsRep(opcode) {
        rep, prefix := if opcode == 0xf2 then 1 else 2, true;
      } else {
        segmentOverride, prefix := opcode / 8 % 8 - 4, true;
      }
    }

    /** One pass of the loop; `known` is false for an instruction outside this model. */
    method Pass() returns (known: bool)
      requires Valid() && !failed
      modifies this, registers, initialized, ram
      ensures Valid() && (known ==> TurnsTo(old(Now()), Now()))
      ensures !known ==> Now() == old(Fetch(Now())) && !Handled(Now())
    {
      FetchOpcode();
      known := true;
      if !failed {
        known := rep != 0 || InScope(opcode);
        if known { Execute(); }
      }
    }

    /** The loop, from one opcode outside this model to the next; at most limit passes. */
    method Run(limit: nat) returns (passes: nat, known: bool)
      requires Valid() && !failed
      modifies this, registers, initialized, ram
      ensures Valid() && passes <= limit && (known && !failed ==> passes == limit)
      ensures known ==> RunsTo(old(Now()), passes, Now())
    {
      passes, known := 0, true;
      NoPass(Now());
      while passes < limit && known && !failed
        invariant Valid() && passes <= limit
        invariant known ==> RunsTo(old(Now()), passes, Now())
        decreases limit - passes, known
      {
        ghost var before := Now();
        known := Pass();
        if known {
          OneMore(old(Now()), passes, before, Now());
          passes := passes + 1;
        }
      }
    }
  }
}
