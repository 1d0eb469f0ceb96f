/** The interpreter's arithmetic as it works on its variables: operands, result, registers and flags. */
module CpuAlu {
  import opened Basics
  import opened Cpu
  import A = CpuArith
  import C = CpuChain
  import S = CpuShift

  const DX := 2

  class Alu {
    const registers: array<Word>
    var flags: Flags
    var wordSize: bool
    var data: DWord
    var source: DWord
    var destination: DWord
    var remainder: Word

    ghost predicate Valid()
      reads this
    {
      registers.Length == 12
    }

    constructor (f: Flags)
      ensures Valid() && fresh(registers) && flags == f
    {
      registers := new Word[12](i => 0);
      flags, wordSize, data, source, destination, remainder := f, false, 0, 0, 0, 0;
    }

    method GetAL() returns (al: Byte)
      requires Valid()
      ensures al == registers[AX] % 0x100
    {
      al := registers[AX] % 0x100;
    }

    method SetAL(al: Byte)
      requires Valid()
      modifies registers
      ensures registers[..] == old(registers[..])[AX := old(registers[AX]) / 0x100 * 0x100 + al]
    {
      registers[AX] := registers[AX] / 0x100 * 0x100 + al;
    }

    method SetAH(ah: Byte)
      requires Valid()
      modifies registers
      ensures registers[..] == old(registers[..])[AX := (ah as int) * 0x100 + old(registers[AX]) % 0x100]
    {
      registers[AX] := (ah as int) * 0x100 + registers[AX] % 0x100;
    }

    method SetBytes(ah: Byte, al: Byte)
      requires Valid()
      modifies registers
      ensures registers[..] == old(registers[..])[AX := (ah as int) * 0x100 + al]
    {
      SetAH(ah);
      SetAL(al);
    }

    /** ADD and ADC (subtract is false), SUB and SBB: the result in data, cut to the operand. */
    method DoALUOperation(d: Word, s: Word, carry: bool, subtract: bool) returns (result: Word)
      modifies `data, `source, `destination, `flags
      ensures (result, flags) == C.Alu(d, s, old(flags), carry, wordSize, subtract)
    {
      destination, source := d, s;
      if carry && flags.cf { source := source + 1; }
      data := if subtract then Sub32(destination, source) else Add32(destination, source);
      flags := ArithFlags(flags, data, destination, source, wordSize, subtract);
      result := data % if wordSize then 0x1_0000 else 0x100;
    }

    /** The low digit of DAA and DAS. */
    method AdjustLowDigit(al: Byte, subtract: bool) returns (al1: Byte)
      modifies `data, `flags
      ensures var (x, c) := if old(flags).af || al % 0x10 > 9 then C.AdjustLow(al, subtract) else (al, false);
        al1 == x && flags == old(flags).(af := old(flags).af || al % 0x10 > 9, cf := old(flags).cf || c)
    {
      al1 := al;
      if flags.af || al % 0x10 > 9 {
        data := if subtract then Sub32(al, 6) else Add32(al, 6);
        al1 := data % 0x100;
        flags := flags.(af := true);
        if Bit(data, 8) { flags := flags.(cf := true); }
      }
    }

    /** DAA and DAS on AL. */
    method DecimalAdjust(subtract: bool)
      requires Valid()
      modifies `data, `flags, `wordSize, registers
      ensures var (al, f) := C.Adjust(old(registers[AX]) % 0x100, old(flags), subtract);
        flags == f && registers[..] == old(registers[..])[AX := old(registers[AX]) / 0x100 * 0x100 + al]
    {
      var al := GetAL();
      al := AdjustLowDigit(al, subtract);
      al := AdjustHighDigit(al, subtract);
      SetAL(al);
    }

    method AdjustHighDigit(al: Byte, subtract: bool) returns (al2: Byte)
      modifies `data, `flags, `wordSize
      ensures var cf := old(flags).cf || al > 0x9f;
        al2 == (if cf then C.AdjustHigh(al, subtract) else al) && flags == SetPZS(old(flags).(cf := cf), al2, false)
    {
      flags := flags.(cf := flags.cf || al > 0x9f);
      al2 := al;
      if flags.cf { al2 := C.AdjustHigh(al, subtract); }
      wordSize := false;
      data := al2;
      flags := SetPZS(flags, data, wordSize);
    }

    /** div, on destination and source. */
    method Div(signed: bool)
      requires 0 < source < 0x1_0000
      modifies `data, `remainder, `destination, `source
      ensures (data, remainder) == A.Div(old(destination), old(source), signed)
    {
      var negative, dividendNegative := false, false;
      if signed {
        if destination >= 0x8000_0000 {
          destination := A.Negated(destination);
          negative := !negative;
          dividendNegative := true;
        }
        if source >= 0x8000 {
          source := A.Negated(source) % 0x1_0000;
          negative := !negative;
        }
      }
      A.Divided(destination, source);
      data := destination / source;
      remainder := destination % source;
      if negative { data := A.Negated(data); }
      if dividendNegative { remainder := A.Negated(remainder) % 0x1_0000; }
    }

    /** IDIV of DX:AX by the word in data; false is a divide overflow. */
    method IdivWord() returns (ok: bool)
      requires Valid() && data < 0x1_0000
      modifies `data, `remainder, `destination, `source, registers
      ensures var r := A.Idiv16(old(registers[DX]), old(registers[AX]), old(data));
        ok == r.Some? && (ok ==> registers[..] == old(registers[..])[DX := r.value.1][AX := r.value.0])
    {
      source := data;
      if source == 0 { return false; }
      destination := (registers[DX] as int) * 0x1_0000 + registers[AX];
      Div(true);
      if 0x7fff < data < 0xffff_8000 { return false; }
      registers[DX] := remainder;
      registers[AX] := data % 0x1_0000;
      ok := true;
    }

    /** IDIV of AX by the byte in data. */
    method IdivByte() returns (ok: bool)
      requires Valid() && data < 0x100
      modifies `data, `remainder, `destination, `source, registers
      ensures var r := A.Idiv8(old(registers[AX]), old(data));
        ok == r.Some? && (ok ==> registers[..] == old(registers[..])[AX := (r.value.1 as int) * 0x100 + r.value.0])
    {
      source := data;
      if source == 0 { return false; }
      destination := registers[AX];
      if destination >= 0x8000 { destination := destination + 0xffff_0000; }
      source := A.SignExtend(source);
      Div(true);
      if 0x7f < data < 0xffff_ff80 { return false; }
      SetBytes(remainder % 0x100, data % 0x100);
      ok := true;
    }

    /** IMUL of AX by the word in data. */
    method ImulWord()
      requires Valid() && data < 0x1_0000
      modifies `data, `destination, `source, registers
      ensures var (dx, ax) := A.Imul16(old(registers[AX]), old(data));
        registers[..] == old(registers[..])[AX := ax][DX := dx]
    {
      source := data;
      destination := registers[AX];
      A.MulBound(destination, source, 0xffff);
      data := destination * source;
      registers[AX] := data % 0x1_0000;
      registers[DX] := data / 0x1_0000;
      CorrectDX();
    }

    /** The high word of an unsigned product made that of the signed one. */
    method CorrectDX()
      requires Valid() && source < 0x1_0000 && destination < 0x1_0000
      modifies registers
      ensures var dx1 := if source >= 0x8000 then (old(registers[DX]) - destination) % 0x1_0000 else old(registers[DX]);
        registers[..] == old(registers[..])[DX := if destination >= 0x8000 then (dx1 - source) % 0x1_0000 else dx1]
    {
      if source >= 0x8000 { registers[DX] := (registers[DX] - destination) % 0x1_0000; }
      if destination >= 0x8000 { registers[DX] := (registers[DX] - source) % 0x1_0000; }
    }

    /** IMUL of AL by the byte in data. */
    method ImulByte()
      requires Valid() && data < 0x100
      modifies `data, `destination, `source, registers
      ensures registers[..] == old(registers[..])[AX := A.Imul8(old(registers[AX]) % 0x100, old(data))]
    {
      source := data;
      destination := registers[AX] % 0x100;
      A.MulBound(destination, source, 0xff);
      data := destination * source;
      registers[AX] := data;
      CorrectAH();
    }

    /** The high byte of an unsigned product made that of the signed one. */
    method CorrectAH()
      requires Valid() && source < 0x100 && destination < 0x100
      modifies registers
      ensures registers[..] == old(registers[..])[AX := A.Signed8(old(registers[AX]), destination, source)]
    {
      if source >= 0x80 { SetAH((registers[AX] / 0x100 - destination) % 0x100); }
      if destination >= 0x80 { SetAH((registers[AX] / 0x100 - source) % 0x100); }
    }

    method SetOFRotate()
      modifies `flags
      ensures flags == S.OfRotate(old(flags), data, destination, wordSize)
    {
      flags := flags.(of := Bit(data, Width(wordSize) - 1) != Bit(destination, Width(wordSize) - 1));
    }

    method RolOnce()
      modifies `data, `destination, `flags
      ensures (data, flags) == S.Once(S.Rol, old(data), old(flags), wordSize)
    {
      destination := data;
      S.OddTwice(data);
      data := S.Left(data);
      flags := flags.(cf := Bit(data, Width(wordSize)));
      data := data + if flags.cf then 1 else 0;
      SetOFRotate();
    }

    method RorOnce()
      modifies `data, `destination, `flags
      ensures (data, flags) == S.Once(S.Ror, old(data), old(flags), wordSize)
    {
      destination := data;
      flags := flags.(cf := data % 2 == 1);
      data := data / 2;
      if flags.cf { data := S.OrTop(data, wordSize); }
      SetOFRotate();
    }

    method RclOnce()
      modifies `data, `destination, `flags
      ensures (data, flags) == S.Once(S.Rcl, old(data), old(flags), wordSize)
    {
      destination := data;
      S.OddTwice(data);
      data := S.Left(data) + if flags.cf then 1 else 0;
      flags := flags.(cf := Bit(data, Width(wordSize)));
      SetOFRotate();
    }

    method RcrOnce()
      modifies `data, `destination, `flags
      ensures (data, flags) == S.Once(S.Rcr, old(data), old(flags), wordSize)
    {
      destination := data;
      data := data / 2;
      if flags.cf { data := S.OrTop(data, wordSize); }
      flags := flags.(cf := destination % 2 == 1);
      SetOFRotate();
    }

    method ShlOnce()
      modifies `data, `destination, `flags
      ensures (data, flags) == S.Once(S.Shl, old(data), old(flags), wordSize)
    {
      destination := data;
      data := S.Left(data);
      flags := flags.(cf := Bit(data, Width(wordSize)));
      SetOFRotate();
      flags := SetPZS(flags, data, wordSize);
    }

    method ShrOnce()
      modifies `data, `destination, `flags
      ensures (data, flags) == S.Once(S.Shr, old(data), old(flags), wordSize)
    {
      destination := data;
      flags := flags.(cf := data % 2 == 1);
      data := data / 2;
      SetOFRotate();
      flags := SetPZS(flags.(af := true), data, wordSize);
    }

    /** The bit shifted in by SAR: a copy of the sign. */
    method KeepSign()
      modifies `data
      ensures data == if Bit(destination, Width(wordSize) - 1) then S.OrTop(old(data), wordSize) else old(data)
    {
      if Bit(destination, Width(wordSize) - 1) { data := S.OrTop(data, wordSize); }
    }

    method SarOnce()
      modifies `data, `destination, `flags
      ensures (data, flags) == S.Once(S.Sar, old(data), old(flags), wordSize)
    {
      destination := data;
      flags := flags.(cf := data % 2 == 1);
      data := data / 2;
      KeepSign();
      SetOFRotate();
      flags := SetPZS(flags.(af := true), data, wordSize);
    }

    /** One pass of the loop of the rotate and shift instructions. */
    method ShiftOnce(op: S.Shift)
      modifies `data, `destination, `flags
      ensures (data, flags) == S.Once(op, old(data), old(flags), wordSize)
    {
      match op
      case Rol => RolOnce();
      case Ror => RorOnce();
      case Rcl => RclOnce();
      case Rcr => RcrOnce();
      case Shl => ShlOnce();
      case Shr => ShrOnce();
      case Sar => SarOnce();
    }

    /** The loop of the rotate and shift instructions, count times on data. */
    method ShiftLoop(reg: nat, count: Byte)
      requires reg < 8
      modifies `data, `source, `destination, `flags
      ensures (data, flags) == S.Repeated(S.ShiftOf(reg), old(data), old(flags), wordSize, count)
    {
      source := count;
      S.NoPass(S.ShiftOf(reg), data, flags, wordSize);
      while source != 0
        invariant source <= count
        invariant S.After(S.ShiftOf(reg), old(data), old(flags), wordSize, count - source, data, flags)
        decreases source
      {
        S.OnePass(S.ShiftOf(reg), old(data), old(flags), wordSize, count - source, data, flags);
        ShiftOnce(S.ShiftOf(reg));
        source := source - 1;
      }
    }
  }
}
