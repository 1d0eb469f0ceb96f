/** Numbers longer than a register: chains of ADD/ADC and SUB/SBB, and the same on packed
    decimal digits with DAA and DAS. */
module CpuChain {
  import opened Arithmetic
  import opened Basics
  import opened Cpu

  function CarryOf(f: Flags): (r: nat) { if f.cf then 1 else 0 }

  /** add and sub as doALUOperation calls them: a carry that takes part is first added to the source. */
  function Alu(d: Word, s: Word, f: Flags, carry: bool, w: bool, subtract: bool): (r: (Word, Flags)) {
    var source: DWord := s + if carry then CarryOf(f) else 0;
    var data := if subtract then Sub32(d, source) else Add32(d, source);
    (data % if w then 0x1_0000 else 0x100, ArithFlags(f, data, d, source, w, subtract))
  }

  /** CF is the true carry or borrow, even when the carry in makes the source overflow. */
  lemma TrueCarry(d: Word, s: Word, f: Flags, carry: bool, w: bool, subtract: bool)
    requires w || (d < 0x100 && s < 0x100)
    ensures var (r, f') := Alu(d, s, f, carry, w, subtract);
      var m, c := if w then 0x1_0000 else 0x100, if carry then CarryOf(f) else 0;
      if subtract then r - m * CarryOf(f') == d - s - c else r + m * CarryOf(f') == d + s + c
  {
    var c := if carry then CarryOf(f) else 0;
    if w { WordCarry(d, s, c, f, subtract); } else { ByteCarry(d, s, c, f, subtract); }
  }

  lemma WordCarry(d: Word, s: Word, c: nat, f: Flags, subtract: bool)
    requires c <= 1
    ensures var data := if subtract then Sub32(d, s + c) else Add32(d, s + c);
      var k := if ArithFlags(f, data, d, s + c, true, subtract).cf then 0x1_0000 else 0;
      data % 0x1_0000 == if subtract then d - s - c + k else d + s + c - k
  {
    Pow2Values();
    Carry16(d, s + c);
  }

  lemma ByteCarry(d: Word, s: Word, c: nat, f: Flags, subtract: bool)
    requires c <= 1 && d < 0x100 && s < 0x100
    ensures var data := if subtract then Sub32(d, s + c) else Add32(d, s + c);
      var k := if ArithFlags(f, data, d, s + c, false, subtract).cf then 0x100 else 0;
      data % 0x100 == if subtract then d - s - c + k else d + s + c - k
  {
    Pow2Values();
    Carry8(d, s + c);
  }

  lemma Carry16(d: int, s: int)
    requires 0 <= d < 0x1_0000 && 0 <= s <= 0x1_0000
    ensures (d + s) % 0x1_0000_0000 / 0x1_0000 % 2 == (if d + s >= 0x1_0000 then 1 else 0)
    ensures (d - s) % 0x1_0000_0000 / 0x1_0000 % 2 == (if d < s then 1 else 0)
    ensures (d + s) % 0x1_0000_0000 % 0x1_0000 == if d + s >= 0x1_0000 then d + s - 0x1_0000 else d + s
    ensures (d - s) % 0x1_0000_0000 % 0x1_0000 == if d < s then d - s + 0x1_0000 else d - s
  {}

  lemma Carry8(d: int, s: int)
    requires 0 <= d < 0x100 && 0 <= s <= 0x100
    ensures (d + s) % 0x1_0000_0000 / 0x100 % 2 == (if d + s >= 0x100 then 1 else 0)
    ensures (d - s) % 0x1_0000_0000 / 0x100 % 2 == (if d < s then 1 else 0)
    ensures (d + s) % 0x1_0000_0000 % 0x100 == if d + s >= 0x100 then d + s - 0x100 else d + s
    ensures (d - s) % 0x1_0000_0000 % 0x100 == if d < s then d - s + 0x100 else d - s
  {}

  // ------------------------------------------------------------ words

  /** ADD (or SUB) of the lowest words, then ADC (or SBB) of the others. */
  function Chain(ds: seq<Word>, ss: seq<Word>, f: Flags, carry: bool, subtract: bool): (r: (seq<Word>, Flags))
    requires |ds| == |ss|
    ensures |r.0| == |ds|
  {
    if ds == [] then ([], f)
    else
      var (x, f1) := Alu(ds[0], ss[0], f, carry, true, subtract);
      var (xs, f2) := Chain(ds[1..], ss[1..], f1, true, subtract);
      ([x] + xs, f2)
  }

  /** A number from its words, least significant first. */
  function Number(ws: seq<Word>): (r: nat) {
    if ws == [] then 0 else ws[0] + 0x1_0000 * Number(ws[1..])
  }

  function Radix(n: nat): (r: nat) { if n == 0 then 1 else 0x1_0000 * Radix(n - 1) }

  /** What a carry or borrow out of n words is worth. */
  function Out(n: nat, f: Flags): (r: nat) { if f.cf then Radix(n) else 0 }

  lemma ChainUnfolds(ds: seq<Word>, ss: seq<Word>, f: Flags, carry: bool, subtract: bool)
    requires |ds| == |ss| > 0
    ensures var (x, f1) := Alu(ds[0], ss[0], f, carry, true, subtract);
      var (rs, f2) := Chain(ds, ss, f, carry, subtract);
      var r := Chain(ds[1..], ss[1..], f1, true, subtract);
      r.1 == f2 && Number(rs) == x + 0x1_0000 * Number(r.0)
  {
    var (x, f1) := Alu(ds[0], ss[0], f, carry, true, subtract);
    var r := Chain(ds[1..], ss[1..], f1, true, subtract);
    assert ([x] + r.0)[1..] == r.0;
  }

  /** A chain of n words adds or subtracts the whole numbers; CF is the carry or borrow out. */
  lemma {:induction false} ChainComputes(ds: seq<Word>, ss: seq<Word>, f: Flags, carry: bool, subtract: bool)
    requires |ds| == |ss| && (carry || ds != [])
    ensures var (rs, f') := Chain(ds, ss, f, carry, subtract);
      var c := if carry then CarryOf(f) else 0;
      if subtract then Number(rs) - Out(|ds|, f') == Number(ds) - Number(ss) - c
      else Number(rs) + Out(|ds|, f') == Number(ds) + Number(ss) + c
    decreases |ds|
  {
    if ds != [] {
      var f1 := Alu(ds[0], ss[0], f, carry, true, subtract).1;
      TrueCarry(ds[0], ss[0], f, carry, true, subtract);
      ChainComputes(ds[1..], ss[1..], f1, true, subtract);
      ChainUnfolds(ds, ss, f, carry, subtract);
    }
  }

  // ------------------------------------------------------------ packed decimal

  /** The low digit put right: AL, and whether CF is set by it. */
  function AdjustLow(al: Byte, subtract: bool): (r: (Byte, bool)) {
    var data: DWord := if subtract then Sub32(al, 6) else Add32(al, 6);
    (data % 0x100, Bit(data, 8))
  }

  function AdjustHigh(al: Byte, subtract: bool): (r: Byte) {
    if subtract then (al - 0x60) % 0x100 else (al + 0x60) % 0x100
  }

  /** DAA and DAS: the digits of AL put right after an addition or a subtraction. */
  function Adjust(al: Byte, f: Flags, subtract: bool): (r: (Byte, Flags)) {
    var low := f.af || al % 0x10 > 9;
    var (al1, c) := if low then AdjustLow(al, subtract) else (al, false);
    var cf := f.cf || c || al1 > 0x9f;
    var al2 := if cf then AdjustHigh(al1, subtract) else al1;
    (al2, SetPZS(f.(af := f.af || low, cf := cf), al2, false))
  }

  predicate IsDecimal(x: Word) { x / 0x10 <= 9 && x % 0x10 <= 9 }

  function Decimal(x: Word): (r: nat) { x / 0x10 * 10 + x % 0x10 }

  lemma Parts(h: int, l: int)
    requires 0 <= l < 0x10
    ensures (h * 0x10 + l) / 0x10 == h && (h * 0x10 + l) % 0x10 == l
  {}

  lemma OddSum(a: int, b: int)
    ensures ((a + b) % 2 == 1) == ((a % 2 == 1) != (b % 2 == 1))
    ensures ((a - b) % 2 == 1) == ((a % 2 == 1) != (b % 2 == 1))
  {
    EvenPart(a / 2 + b / 2, a % 2 + b % 2);
    EvenPart(a / 2 - b / 2, a % 2 - b % 2);
  }

  lemma EvenPart(m: int, r: int)
    requires -1 <= r <= 2
    ensures (2 * m + r) % 2 == if r == 1 || r == -1 then 1 else 0
  {}

  lemma Parity(a: int, b: int, k: int)
    requires k == 0 || k == 1
    ensures (((a + b + k) % 2 == 1) != (b % 2 == 1)) != (a % 2 == 1) <==> k == 1
    ensures (((a - b - k) % 2 == 1) != (b % 2 == 1)) != (a % 2 == 1) <==> k == 1
  {
    OddSum(a, b);
    OddSum(a + b, k);
    OddSum(a - b, k);
  }

  lemma SumNibbles(dh: int, dl: int, sh: int, sl: int)
    requires 0 <= dh <= 9 && 0 <= dl <= 9 && 0 <= sh <= 9 && 0 <= sl <= 10
    ensures (dh * 0x10 + dl + (sh * 0x10 + sl)) % 0x1_0000_0000 / 0x10 == dh + sh + if dl + sl >= 0x10 then 1 else 0
  {
    var k := if dl + sl >= 0x10 then 1 else 0;
    Parts(dh + sh + k, dl + sl - k * 0x10);
  }

  lemma DifferenceNibbles(dh: int, dl: int, sh: int, sl: int)
    requires 0 <= dh <= 9 && 0 <= dl <= 9 && 0 <= sh <= 9 && 0 <= sl <= 10
    ensures (dh * 0x10 + dl - (sh * 0x10 + sl)) % 0x1_0000_0000 / 0x10 % 2 == (dh - sh - if dl < sl then 1 else 0) % 2
  {
    var b := if dl < sl then 1 else 0;
    Nibble(dh - sh - b, dl - sl + b * 0x10);
  }

  lemma Nibble(h: int, l: int)
    requires 0 <= l < 0x10 && -0x20 < h < 0x20
    ensures (h * 0x10 + l) % 0x1_0000_0000 / 0x10 % 2 == h % 2
  {}

  /** AF is the true carry or borrow between the digits. */
  lemma HalfCarry(d: Word, s: Word, f: Flags, carry: bool, subtract: bool)
    requires IsDecimal(d) && IsDecimal(s)
    ensures var c := if carry then CarryOf(f) else 0;
      Alu(d, s, f, carry, false, subtract).1.af
      <==> if subtract then d % 0x10 < s % 0x10 + c else d % 0x10 + s % 0x10 + c >= 0x10
  {
    var c := if carry then CarryOf(f) else 0;
    if subtract { HalfBorrows(d, s, c); } else { HalfCarries(d, s, c); }
  }

  lemma HalfCarries(d: Word, s: Word, c: nat)
    requires IsDecimal(d) && IsDecimal(s) && c <= 1
    ensures var data := Add32(d, s + c);
      (Bit(data, 4) != Bit(s + c, 4)) != Bit(d, 4) <==> d % 0x10 + s % 0x10 + c >= 0x10
  {
    Pow2Values();
    var dh, dl, sh, sl := d / 0x10, d % 0x10, s / 0x10, s % 0x10 + c;
    Parts(sh, sl);
    SumNibbles(dh, dl, sh, sl);
    Parity(dh, sh, if dl + sl >= 0x10 then 1 else 0);
  }

  lemma HalfBorrows(d: Word, s: Word, c: nat)
    requires IsDecimal(d) && IsDecimal(s) && c <= 1
    ensures var data := Sub32(d, s + c);
      (Bit(data, 4) != Bit(s + c, 4)) != Bit(d, 4) <==> d % 0x10 < s % 0x10 + c
  {
    Pow2Values();
    var dh, dl, sh, sl := d / 0x10, d % 0x10, s / 0x10, s % 0x10 + c;
    Parts(sh, sl);
    DifferenceNibbles(dh, dl, sh, sl);
    Parity(dh, sh, if dl < sl then 1 else 0);
  }

  /** One byte of a decimal chain: digits in, digits out, CF the decimal carry or borrow. */
  lemma DecimalStep(d: Word, s: Word, f: Flags, carry: bool, subtract: bool)
    requires IsDecimal(d) && IsDecimal(s)
    ensures var (x, f1) := Alu(d, s, f, carry, false, subtract);
      var (r, f2) := Adjust(x, f1, subtract);
      var c := if carry then CarryOf(f) else 0;
      IsDecimal(r)
      && if subtract then Decimal(r) - 100 * CarryOf(f2) == Decimal(d) - Decimal(s) - c
         else Decimal(r) + 100 * CarryOf(f2) == Decimal(d) + Decimal(s) + c
  {
    var c := if carry then CarryOf(f) else 0;
    var (x, f1) := Alu(d, s, f, carry, false, subtract);
    HalfCarry(d, s, f, carry, subtract);
    TrueCarry(d, s, f, carry, false, subtract);
    if subtract {
      AdjustDifference(d / 0x10, d % 0x10, s / 0x10, s % 0x10 + c, x, f1);
    } else {
      AdjustSum(d / 0x10, d % 0x10, s / 0x10, s % 0x10 + c, x, f1);
    }
  }

  lemma LowIs(al: Byte)
    ensures AdjustLow(al, false) == if al >= 0xfa then (al - 0xfa, true) else (al + 6, false)
    ensures AdjustLow(al, true) == if al < 6 then (al + 0xfa, true) else (al - 6, false)
  {
    Pow2Values();
    Carry8(al, 6);
  }

  lemma HighIs(al: Byte)
    ensures AdjustHigh(al, false) == if al >= 0xa0 then al - 0xa0 else al + 0x60
    ensures AdjustHigh(al, true) == if al < 0x60 then al + 0xa0 else al - 0x60
  {}

  /** Adjust without wrap-around: the low digit first, then the high one. */
  lemma AdjustAdds(al: Byte, f: Flags)
    ensures var (r, f') := Adjust(al, f, false);
      var low := f.af || al % 0x10 > 9;
      var x := if low then al as int + 6 else al as int;
      var y := if x >= 0x100 then x - 0x100 else x;
      f'.cf == (f.cf || x >= 0x100 || y > 0x9f)
      && r == if !f'.cf then y else if y + 0x60 >= 0x100 then y - 0xa0 else y + 0x60
  {
    LowIs(al);
    HighIs(al);
    HighIs(AdjustLow(al, false).0);
  }

  lemma AdjustSubtracts(al: Byte, f: Flags)
    ensures var (r, f') := Adjust(al, f, true);
      var low := f.af || al % 0x10 > 9;
      var x := if low then al as int - 6 else al as int;
      var y := if x < 0 then x + 0x100 else x;
      f'.cf == (f.cf || x < 0 || y > 0x9f) && r == if !f'.cf then y else if y < 0x60 then y + 0xa0 else y - 0x60
  {
    LowIs(al);
    HighIs(al);
    HighIs(AdjustLow(al, true).0);
  }

  lemma AdjustSum(dh: nat, dl: nat, sh: nat, sl: nat, x: Byte, f: Flags)
    requires dh <= 9 && dl <= 9 && sh <= 9 && sl <= 10
    requires x + 0x100 * CarryOf(f) == (dh + sh) * 0x10 + dl + sl && (f.af <==> dl + sl >= 0x10)
    ensures var (r, f') := Adjust(x, f, false);
      IsDecimal(r) && Decimal(r) + 100 * CarryOf(f') == (dh + sh) * 10 + dl + sl
  {
    AdjustAdds(x, f);
    SumDigits(dh + sh, dl + sl, x, f.cf);
    var (r, f') := Adjust(x, f, false);
    var k := if dl + sl >= 10 then 1 else 0;
    Parts(dh + sh + k - if f'.cf then 10 else 0, dl + sl - 10 * k);
  }

  /** The sum of digits u * 16 + v, and what Adjust makes of it. */
  lemma SumDigits(u: int, v: int, al: int, cf: bool)
    requires 0 <= u <= 18 && 0 <= v <= 19 && 0 <= al < 0x100 && al + (if cf then 0x100 else 0) == u * 0x10 + v
    ensures var low := v >= 0x10 || al % 0x10 > 9;
      var x := if low then al + 6 else al;
      var y := if x >= 0x100 then x - 0x100 else x;
      var k := if v >= 10 then 1 else 0;
      var cf' := cf || x >= 0x100 || y > 0x9f;
      (low <==> v >= 10) && (cf' <==> u + k >= 10)
      && (if !cf' then y else if y + 0x60 >= 0x100 then y - 0xa0 else y + 0x60)
         == (u + k - if cf' then 10 else 0) * 0x10 + v - 10 * k
  {
    LowNibble(u, v, al, cf);
  }

  lemma LowNibble(u: int, v: int, al: int, cf: bool)
    requires 0 <= u <= 18 && 0 <= v <= 19 && 0 <= al < 0x100 && al + (if cf then 0x100 else 0) == u * 0x10 + v
    ensures al % 0x10 == if v >= 0x10 then v - 0x10 else v
  {}

  lemma AdjustDifference(dh: nat, dl: nat, sh: nat, sl: nat, x: Byte, f: Flags)
    requires dh <= 9 && dl <= 9 && sh <= 9 && sl <= 10
    requires x - 0x100 * CarryOf(f) == (dh - sh) * 0x10 + dl - sl && (f.af <==> dl < sl)
    ensures var (r, f') := Adjust(x, f, true);
      IsDecimal(r) && Decimal(r) - 100 * CarryOf(f') == (dh - sh) * 10 + dl - sl
  {
    AdjustSubtracts(x, f);
    DifferenceDigits(dh - sh, dl - sl, x, f.cf);
    var (r, f') := Adjust(x, f, true);
    var b := if dl < sl then 1 else 0;
    Parts(dh - sh - b + if f'.cf then 10 else 0, dl - sl + 10 * b);
  }

  lemma DifferenceDigits(u: int, v: int, al: int, cf: bool)
    requires -9 <= u <= 9 && -10 <= v <= 9 && 0 <= al < 0x100 && al - (if cf then 0x100 else 0) == u * 0x10 + v
    ensures var low := v < 0 || al % 0x10 > 9;
      var x := if low then al - 6 else al;
      var y := if x < 0 then x + 0x100 else x;
      var b := if v < 0 then 1 else 0;
      var cf' := cf || x < 0 || y > 0x9f;
      (low <==> v < 0) && (cf' <==> u - b < 0)
      && (if !cf' then y else if y < 0x60 then y + 0xa0 else y - 0x60)
         == (u - b + if cf' then 10 else 0) * 0x10 + v + 10 * b
  {
    LowBorrow(u, v, al, cf);
  }

  lemma LowBorrow(u: int, v: int, al: int, cf: bool)
    requires -9 <= u <= 9 && -10 <= v <= 9 && 0 <= al < 0x100 && al - (if cf then 0x100 else 0) == u * 0x10 + v
    ensures al % 0x10 == if v < 0 then v + 0x10 else v
  {}

  // ------------------------------------------------------------ decimal chains

  /** ADD and DAA (or SUB and DAS) of the lowest bytes, then ADC and DAA (or SBB and DAS). */
  function DecimalChain(ds: seq<Byte>, ss: seq<Byte>, f: Flags, carry: bool, subtract: bool): (r: (seq<Byte>, Flags))
    requires |ds| == |ss|
    ensures |r.0| == |ds|
  {
    if ds == [] then ([], f)
    else
      var (x, f1) := Alu(ds[0], ss[0], f, carry, false, subtract);
      var (y, f2) := Adjust(x, f1, subtract);
      var (ys, f3) := DecimalChain(ds[1..], ss[1..], f2, true, subtract);
      ([y] + ys, f3)
  }

  predicate AllDecimal(bs: seq<Byte>) { forall i :: 0 <= i < |bs| ==> IsDecimal(bs[i]) }

  /** The number the digits spell, two to a byte, least significant byte first. */
  function Spelled(bs: seq<Byte>): (r: nat) {
    if bs == [] then 0 else Decimal(bs[0]) + 100 * Spelled(bs[1..])
  }

  function Hundreds(n: nat): (r: nat) { if n == 0 then 1 else 100 * Hundreds(n - 1) }

  function DecimalOut(n: nat, f: Flags): (r: nat) { if f.cf then Hundreds(n) else 0 }

  lemma DecimalUnfolds(ds: seq<Byte>, ss: seq<Byte>, f: Flags, carry: bool, subtract: bool)
    requires |ds| == |ss| > 0
    ensures var (x, f1) := Alu(ds[0], ss[0], f, carry, false, subtract);
      var (y, f2) := Adjust(x, f1, subtract);
      var r := DecimalChain(ds[1..], ss[1..], f2, true, subtract);
      var (ys, f3) := DecimalChain(ds, ss, f, carry, subtract);
      r.1 == f3 && ys == [y] + r.0 && Spelled(ys) == Decimal(y) + 100 * Spelled(r.0)
  {
    var (x, f1) := Alu(ds[0], ss[0], f, carry, false, subtract);
    var (y, f2) := Adjust(x, f1, subtract);
    var r := DecimalChain(ds[1..], ss[1..], f2, true, subtract);
    assert ([y] + r.0)[1..] == r.0;
  }

  /** rs are the digits of the sum or difference and of c; CF is the carry or borrow out. */
  ghost predicate Computes(ds: seq<Byte>, ss: seq<Byte>, c: nat, rs: seq<Byte>, f': Flags, subtract: bool) {
    && AllDecimal(rs)
    && if subtract then Spelled(rs) - DecimalOut(|ds|, f') == Spelled(ds) - Spelled(ss) - c
       else Spelled(rs) + DecimalOut(|ds|, f') == Spelled(ds) + Spelled(ss) + c
  }

  lemma DecimalJoins(ds: seq<Byte>, ss: seq<Byte>, c: nat, y: Byte, f2: Flags, rs: seq<Byte>, f3: Flags, subtract: bool)
    requires |ds| == |ss| > 0 && IsDecimal(y) && Computes(ds[1..], ss[1..], CarryOf(f2), rs, f3, subtract)
    requires if subtract then Decimal(y) - 100 * CarryOf(f2) == Decimal(ds[0]) - Decimal(ss[0]) - c
             else Decimal(y) + 100 * CarryOf(f2) == Decimal(ds[0]) + Decimal(ss[0]) + c
    ensures Computes(ds, ss, c, [y] + rs, f3, subtract)
  {
    assert ([y] + rs)[1..] == rs;
  }

  /** A chain over n bytes of digits adds or subtracts the decimal numbers; CF is the decimal
      carry or borrow out. */
  lemma {:induction false} DecimalChainComputes(ds: seq<Byte>, ss: seq<Byte>, f: Flags, carry: bool, subtract: bool)
    requires |ds| == |ss| && (carry || ds != []) && AllDecimal(ds) && AllDecimal(ss)
    ensures var (rs, f') := DecimalChain(ds, ss, f, carry, subtract);
      Computes(ds, ss, if carry then CarryOf(f) else 0, rs, f', subtract)
    decreases |ds|
  {
    if ds != [] {
      var (x, f1) := Alu(ds[0], ss[0], f, carry, false, subtract);
      var (y, f2) := Adjust(x, f1, subtract);
      var (rs, f3) := DecimalChain(ds[1..], ss[1..], f2, true, subtract);
      DecimalStep(ds[0], ss[0], f, carry, subtract);
      DecimalChainComputes(ds[1..], ss[1..], f2, true, subtract);
      DecimalUnfolds(ds, ss, f, carry, subtract);
      DecimalJoins(ds, ss, if carry then CarryOf(f) else 0, y, f2, rs, f3, subtract);
    }
  }
}
