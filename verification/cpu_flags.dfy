/** The flags after additions, subtractions and comparisons, in signed and unsigned numbers. */
module CpuFlags {
  import opened Arithmetic
  import opened Basics
  import opened Cpu
  import opened CpuArith
  import C = CpuChain
  import S = CpuShift

  function Size(w: bool): (m: nat) { if w then 0x1_0000 else 0x100 }

  /** The operand as a signed number. */
  function Signed(x: Word, w: bool): (r: int)
    requires x < Size(w)
  {
    if w then S16(x) else S8(x)
  }

  predicate Fits(x: int, w: bool) { if w then -0x8000 <= x < 0x8000 else -0x80 <= x < 0x80 }

  /** How many of the low n bits are ones. */
  function Ones(x: nat, n: nat): (r: nat) {
    if n == 0 then 0 else Ones(x, n - 1) + if Bit(x, n - 1) then 1 else 0
  }

  // ------------------------------------------------------------ parity, zero and sign

  lemma BitsOf(x: nat)
    ensures Bit(x, 4) <==> x / 0x10 % 2 == 1
    ensures Bit(x, 7) <==> x / 0x80 % 2 == 1
    ensures Bit(x, 15) <==> x / 0x8000 % 2 == 1
  {
    Pow2Values();
  }

  lemma {:induction false} OnesHalved(x: nat, n: nat)
    ensures Ones(x, n + 1) == x % 2 + Ones(x / 2, n)
    decreases n
  {
    if n == 0 {
      assert Pow2(0) == 1 && Ones(x, 0) == 0;
    } else {
      OnesHalved(x, n - 1);
      S.HalfBit(x, n);
    }
  }

  lemma {:induction false} ParityHalved(x: nat)
    ensures EvenParity(x) <==> (EvenParity(x / 2) != (x % 2 == 1))
  {
    if x == 0 { assert EvenParity(0); }
  }

  lemma {:induction false} ParityIs(x: nat, n: nat)
    requires x < Pow2(n)
    ensures EvenParity(x) <==> Ones(x, n) % 2 == 0
    decreases n
  {
    if n == 0 {
      assert x == 0 && EvenParity(0);
    } else {
      ParityIs(x / 2, n - 1);
      OnesHalved(x, n - 1);
      ParityHalved(x);
      OddSum(x % 2, Ones(x / 2, n - 1));
    }
  }

  lemma OddSum(b: nat, m: nat)
    requires b <= 1
    ensures (b + m) % 2 == 0 <==> (m % 2 == 0) != (b == 1)
  {}

  lemma Top8(x: DWord)
    ensures x / 0x80 % 2 == 1 <==> x % 0x100 >= 0x80
  {}

  lemma Top16(x: DWord)
    ensures x / 0x8000 % 2 == 1 <==> x % 0x1_0000 >= 0x8000
  {}

  lemma NegativeIs(x: DWord, w: bool)
    ensures Bit(x, Width(w) - 1) <==> Signed(x % Size(w), w) < 0
  {
    BitsOf(x);
    if w { Top16(x); } else { Top8(x); }
  }

  lemma NegativeOwn(x: Word, w: bool)
    requires x < Size(w)
    ensures Bit(x, Width(w) - 1) <==> Signed(x, w) < 0
  {
    NegativeIs(x, w);
    assert x % Size(w) == x;
  }

  /** PF, ZF and SF tell of the result: an even number of ones in its low byte, zero, negative. */
  lemma {:induction false} ResultFlags(f: Flags, data: DWord, w: bool)
    ensures var r := data % Size(w); var f' := SetPZS(f, data, w);
      && (f'.pf <==> Ones(r % 0x100, 8) % 2 == 0)
      && (f'.zf <==> r == 0)
      && (f'.sf <==> Signed(r, w) < 0)
  {
    NegativeIs(data, w);
    Size2(w);
    LowByte(data, w);
    ByteParity(data % 0x100);
  }

  lemma Size2(w: bool)
    ensures Pow2(Width(w)) == Size(w)
  {
    Pow2Values();
  }

  lemma LowByte(data: DWord, w: bool)
    ensures data % Size(w) % 0x100 == data % 0x100
  {}

  lemma {:induction false} ByteParity(x: Byte)
    ensures EvenParity(x) <==> Ones(x, 8) % 2 == 0
  {
    Pow2Values();
    ParityIs(x, 8);
  }

  // ------------------------------------------------------------ overflow

  /** The two tests of overflow on signs: of destination, source and result. */
  predicate Over(d: bool, s: bool, r: bool, subtract: bool) {
    if subtract then d != s && r != d else d == s && r != d
  }

  lemma OverTests(f: Flags, data: DWord, d: DWord, s: DWord, w: bool, subtract: bool)
    ensures var n := Width(w) - 1;
      ArithFlags(f, data, d, s, w, subtract).of <==> Over(Bit(d, n), Bit(s, n), Bit(data, n), subtract)
  {}

  lemma Result16(d: Word, s: Word, c: nat, subtract: bool)
    requires c <= 1
    ensures var r := S16(Formed(d, s, c, subtract) % 0x1_0000) - Exact(S16(d), S16(s), c, subtract);
      r == 0 || r == 0x1_0000 || r == -0x1_0000
  {
    C.Carry16(d, s + c);
  }

  lemma Result8(d: Byte, s: Byte, c: nat, subtract: bool)
    requires c <= 1
    ensures var r := S8(Formed(d, s, c, subtract) % 0x100) - Exact(S8(d), S8(s), c, subtract);
      r == 0 || r == 0x100 || r == -0x100
  {
    C.Carry8(d, s + c);
  }

  /** The signed result, in the numbers of the width, is the exact one or off by their size. */
  lemma SignedResult(d: Word, s: Word, c: nat, w: bool, subtract: bool, data: DWord)
    requires d < Size(w) && s < Size(w) && c <= 1
    requires data == if subtract then Sub32(d, s + c) else Add32(d, s + c)
    ensures var exact := Exact(Signed(d, w), Signed(s, w), c, subtract);
      var r := Signed(data % Size(w), w);
      r == exact || r == exact + Size(w) || r == exact - Size(w)
  {
    if w { Result16(d, s, c, subtract); } else { Result8(d, s, c, subtract); }
  }

  lemma OverArithmetic(d: int, s: int, c: nat, r: int, half: int, subtract: bool)
    requires half > 1 && c <= 1 && -half <= d < half && -half <= s < half && -half <= r < half
    requires var exact := Exact(d, s, c, subtract);
      r == exact || r == exact + 2 * half || r == exact - 2 * half
    ensures var exact := Exact(d, s, c, subtract);
      (Over(d < 0, s + c < 0 || s + c == half, r < 0, subtract) <==> !(-half <= exact < half))
      <==> !(c == 1 && s == half - 1)
  {}

  lemma SourceSign(s: Word, c: nat, w: bool)
    requires s < Size(w) && c <= 1
    ensures var t := Signed(s, w) + c; Bit(s + c, Width(w) - 1) <==> t < 0 || t == Size(w) / 2
  {
    NegativeIs(s + c, w);
    if w { Source16(s, c); } else { Source8(s, c); }
  }

  lemma Source16(s: Word, c: nat)
    requires c <= 1
    ensures S16((s + c) % 0x1_0000) < 0 <==> S16(s) + c < 0 || S16(s) + c == 0x8000
  {}

  lemma Source8(s: Byte, c: nat)
    requires c <= 1
    ensures S8((s + c) % 0x100) < 0 <==> S8(s) + c < 0 || S8(s) + c == 0x80
  {}

  /** What the operation forms before it is cut to the width. */
  function Formed(d: Word, s: Word, c: nat, subtract: bool): (data: DWord)
    requires c <= 1
  {
    if subtract then Sub32(d, s + c) else Add32(d, s + c)
  }

  function CarryIn(f: Flags, carry: bool): (c: nat)
    ensures c <= 1
  {
    if carry then C.CarryOf(f) else 0
  }

  lemma AluFlags(d: Word, s: Word, f: Flags, carry: bool, w: bool, subtract: bool)
    ensures var c := CarryIn(f, carry);
      C.Alu(d, s, f, carry, w, subtract).1 == ArithFlags(f, Formed(d, s, c, subtract), d, s + c, w, subtract)
  {}

  lemma OverSigns(d: Word, s: Word, f: Flags, c: nat, w: bool, subtract: bool)
    requires d < Size(w) && s < Size(w) && c <= 1
    ensures var data := Formed(d, s, c, subtract);
      var t := Signed(s, w) + c;
      ArithFlags(f, data, d, s + c, w, subtract).of
      <==> Over(Signed(d, w) < 0, t < 0 || t == Size(w) / 2, Signed(data % Size(w), w) < 0, subtract)
  {
    var data := Formed(d, s, c, subtract);
    OverTests(f, data, d, s + c, w, subtract);
    NegativeOwn(d, w);
    NegativeIs(data, w);
    SourceSign(s, c, w);
  }

  /** The exact result. */
  function Exact(d: int, s: int, c: int, subtract: bool): (r: int) { if subtract then d - s - c else d + s + c }

  /** OF tells whether the exact signed result does not fit, except when a carry is added to the
      largest source: then it tells the opposite. */
  lemma OverflowIff(d: Word, s: Word, f: Flags, carry: bool, w: bool, subtract: bool)
    requires d < Size(w) && s < Size(w)
    ensures var c := CarryIn(f, carry);
      (C.Alu(d, s, f, carry, w, subtract).1.of <==> !Fits(Exact(Signed(d, w), Signed(s, w), c, subtract), w))
      <==> !(c == 1 && s == Size(w) / 2 - 1)
  {
    var c := CarryIn(f, carry);
    AluFlags(d, s, f, carry, w, subtract);
    OverSigns(d, s, f, c, w, subtract);
    ExactOver(d, s, c, w, subtract);
  }

  lemma ExactOver(d: Word, s: Word, c: nat, w: bool, subtract: bool)
    requires d < Size(w) && s < Size(w) && c <= 1
    ensures var r := Signed(Formed(d, s, c, subtract) % Size(w), w);
      var t := Signed(s, w) + c;
      (Over(Signed(d, w) < 0, t < 0 || t == Size(w) / 2, r < 0, subtract)
       <==> !Fits(Exact(Signed(d, w), Signed(s, w), c, subtract), w))
      <==> !(c == 1 && s == Size(w) / 2 - 1)
  {
    var data := Formed(d, s, c, subtract);
    SignedResult(d, s, c, w, subtract, data);
    LargestSource(s, w);
    OverArithmetic(Signed(d, w), Signed(s, w), c, Signed(data % Size(w), w), Size(w) / 2, subtract);
  }

  lemma LargestSource(s: Word, w: bool)
    requires s < Size(w)
    ensures s == Size(w) / 2 - 1 <==> Signed(s, w) == Size(w) / 2 - 1
  {}

  /** -128 - 1 does not fit a byte, 127 + 1 neither; 0 + 127 + 1 is not noticed. */
  lemma {:induction false} Overflows(f: Flags)
    ensures C.Alu(0x80, 1, f, false, false, true).1.of && C.Alu(0x7f, 1, f, false, false, false).1.of
    ensures f.cf ==> !C.Alu(0, 0x7f, f, true, false, false).1.of && !Fits(0 + 0x7f + 1, false)
  {
    OverflowIff(0x80, 1, f, false, false, true);
    OverflowIff(0x7f, 1, f, false, false, false);
    OverflowIff(0, 0x7f, f, true, false, false);
  }

  // ------------------------------------------------------------ half carry

  lemma Three(a: bool, b: bool, c: bool, x: int, y: int, z: int)
    requires x == (if a then 1 else 0) && y == (if b then 1 else 0) && z == (if c then 1 else 0)
    ensures (a != b) != c <==> (x + y + z) % 2 == 1
  {}

  lemma Nibbles(d: Word, s: DWord, subtract: bool)
    requires s <= 0x1_0000
    ensures var data := if subtract then Sub32(d, s) else Add32(d, s);
      (Bit(data, 4) != Bit(s, 4)) != Bit(d, 4)
      <==> if subtract then d % 0x10 < s % 0x10 else d % 0x10 + s % 0x10 >= 0x10
  {
    var data := if subtract then Sub32(d, s) else Add32(d, s);
    FourthBit(d);
    FourthBit(s);
    FourthBit(data);
    Three(Bit(data, 4), Bit(s, 4), Bit(d, 4), data / 0x10 % 2, s / 0x10 % 2, d / 0x10 % 2);
    if subtract { NibbleBorrow(d, s); } else { NibbleCarry(d, s); }
  }

  lemma FourthBit(x: nat)
    ensures x / 0x10 % 2 == if Bit(x, 4) then 1 else 0
  {
    Pow2Values();
  }

  lemma NibbleCarry(d: int, s: int)
    requires 0 <= d < 0x1_0000 && 0 <= s <= 0x1_0000
    ensures ((d + s) % 0x1_0000_0000 / 0x10 % 2 + s / 0x10 % 2 + d / 0x10 % 2) % 2
         == if d % 0x10 + s % 0x10 >= 0x10 then 1 else 0
  {
    var k := if d % 0x10 + s % 0x10 >= 0x10 then 1 else 0;
    assert (d + s) / 0x10 == d / 0x10 + s / 0x10 + k;
    TwiceOver(d / 0x10, s / 0x10, k);
  }

  lemma TwiceOver(a: int, b: int, k: int)
    requires k == 0 || k == 1
    ensures ((a + b + k) % 2 + b % 2 + a % 2) % 2 == k
  {}

  lemma NibbleBorrow(d: int, s: int)
    requires 0 <= d < 0x1_0000 && 0 <= s <= 0x1_0000
    ensures ((d - s) % 0x1_0000_0000 / 0x10 % 2 + s / 0x10 % 2 + d / 0x10 % 2) % 2
         == if d % 0x10 < s % 0x10 then 1 else 0
  {
    var a, b := d / 0x10, s / 0x10;
    var k := if d % 0x10 < s % 0x10 then 1 else 0;
    assert (d - s) / 0x10 == a - b - k;
    assert (d - s) % 0x1_0000_0000 / 0x10 == if d < s then a - b - k + 0x1000_0000 else a - b - k;
  }

  lemma LowNibble(s: nat, c: nat)
    requires c <= 1
    ensures (s + c) % 0x10 == if s % 0x10 + c == 0x10 then 0 else s % 0x10 + c
  {}

  /** AF is the carry or borrow out of the low four bits, except when a carry is added to a source
      that ends in 15: then it is the opposite. */
  lemma HalfCarryIff(d: Word, s: Word, f: Flags, carry: bool, w: bool, subtract: bool)
    ensures var c := CarryIn(f, carry);
      var half := if subtract then d % 0x10 < s % 0x10 + c else d % 0x10 + s % 0x10 + c >= 0x10;
      (C.Alu(d, s, f, carry, w, subtract).1.af <==> half) <==> !(c == 1 && s % 0x10 == 0xf)
  {
    var c := CarryIn(f, carry);
    AluFlags(d, s, f, carry, w, subtract);
    Nibbles(d, s + c, subtract);
    LowNibble(s, c);
    AfIs(f, Formed(d, s, c, subtract), d, s + c, w, subtract);
  }

  lemma AfIs(f: Flags, data: DWord, d: DWord, s: DWord, w: bool, subtract: bool)
    ensures ArithFlags(f, data, d, s, w, subtract).af <==> (Bit(data, 4) != Bit(s, 4)) != Bit(d, 4)
  {}

  // ------------------------------------------------------------ comparing

  lemma SignOrder(d: int, s: int, r: int, half: int)
    requires half > 1 && -half <= d < half && -half <= s < half && -half <= r < half
    requires r == d - s || r == d - s + 2 * half || r == d - s - 2 * half
    ensures (r < 0) != !(-half <= d - s < half) <==> d < s
  {}

  lemma PlainOverflow(d: Word, s: Word, f: Flags, w: bool)
    requires d < Size(w) && s < Size(w)
    ensures C.Alu(d, s, f, false, w, true).1.of <==> !Fits(Signed(d, w) - Signed(s, w), w)
  {
    OverflowIff(d, s, f, false, w, true);
  }

  lemma SignedOrder(d: Word, s: Word, f: Flags, w: bool)
    requires d < Size(w) && s < Size(w)
    ensures var f' := C.Alu(d, s, f, false, w, true).1; f'.sf != f'.of <==> Signed(d, w) < Signed(s, w)
  {
    var data := Sub32(d, s);
    PlainOverflow(d, s, f, w);
    ResultFlags(f, data, w);
    SignedResult(d, s, 0, w, true, data);
    SignOrder(Signed(d, w), Signed(s, w), Signed(data % Size(w), w), Size(w) / 2);
    assert C.Alu(d, s, f, false, w, true).1.sf == SetPZS(f, data, w).sf;
  }

  /** After a comparison the flags tell the order, signed and unsigned. */
  lemma ComparisonOrders(d: Word, s: Word, f: Flags, w: bool)
    requires d < Size(w) && s < Size(w)
    ensures var f' := ArithFlags(f, Sub32(d, s), d, s, w, true);
      && (f'.zf <==> d == s)
      && (f'.cf <==> d < s)
      && (f'.sf != f'.of <==> Signed(d, w) < Signed(s, w))
  {
    var f' := ArithFlags(f, Sub32(d, s), d, s, w, true);
    assert f' == C.Alu(d, s, f, false, w, true).1;
    SignedOrder(d, s, f, w);
    C.TrueCarry(d, s, f, false, w, true);
    ResultFlags(f, Sub32(d, s), w);
    assert f'.zf == SetPZS(f, Sub32(d, s), w).zf;
  }

  // ------------------------------------------------------------ shifts and rotations

  /** After a pass of any of them OF tells whether the sign has changed. */
  lemma PassOverflow(op: S.Shift, data: DWord, f: Flags, w: bool)
    ensures var (d, g) := S.Once(op, data, f, w);
      g.of <==> (Signed(d % Size(w), w) < 0) != (Signed(data % Size(w), w) < 0)
  {
    NegativeIs(data, w);
    NegativeIs(S.Once(op, data, f, w).0, w);
  }

  /** So after a shift to the left by one, whether twice the operand does not fit. */
  lemma DoubledOverflow(x: Word, f: Flags, w: bool)
    requires x < Size(w)
    ensures S.Once(S.Shl, x, f, w).1.of <==> !Fits(2 * Signed(x, w), w)
  {
    ShlPass(x, f, w, 2 * x);
    DoubledSign(x, w);
  }

  lemma ShlPass(x: Word, f: Flags, w: bool, d: DWord)
    requires d == 2 * x
    ensures S.Once(S.Shl, x, f, w).1.of <==> (Signed(d % Size(w), w) < 0) != (Signed(x % Size(w), w) < 0)
  {
    PassOverflow(S.Shl, x, f, w);
    S.ShlIs(x, f, w);
    LeftIs(x, d);
  }

  lemma LeftIs(x: Word, d: DWord)
    requires d == 2 * x
    ensures S.Left(x) == d
  {}

  lemma SmallMod(x: Word, w: bool)
    requires x < Size(w)
    ensures x % Size(w) == x
  {}

  lemma DoubledSign(x: Word, w: bool)
    requires x < Size(w)
    ensures (Signed(2 * x % Size(w), w) < 0) != (Signed(x % Size(w), w) < 0) <==> !Fits(2 * Signed(x, w), w)
  {
    SmallMod(x, w);
    if w { Doubled16(x, 2 * x % 0x1_0000); } else { Doubled8(x, 2 * x % 0x100); }
  }

  lemma Doubled16(x: Word, y: Word)
    requires y == 2 * x || y == 2 * x - 0x1_0000
    ensures (S16(y) < 0) != (S16(x) < 0) <==> !(-0x8000 <= 2 * S16(x) < 0x8000)
  {}

  lemma Doubled8(x: Byte, y: Byte)
    requires y == 2 * x || y == 2 * x - 0x100
    ensures (S8(y) < 0) != (S8(x) < 0) <==> !(-0x80 <= 2 * S8(x) < 0x80)
  {}
}
