/** Signed multiplication and division, built by the interpreter from unsigned arithmetic. */
module CpuArith {
  import opened Arithmetic
  import opened Basics
  import opened Cpu

  // ------------------------------------------------------------ signed views

  function S8(x: Byte): (s: int)
    ensures -0x80 <= s < 0x80
  {
    if x >= 0x80 then x as int - 0x100 else x as int
  }

  function S16(x: Word): (s: int)
    ensures -0x8000 <= s < 0x8000
  {
    if x >= 0x8000 then x as int - 0x1_0000 else x as int
  }

  function S32(x: DWord): (s: int)
    ensures -0x8000_0000 <= s < 0x8000_0000
  {
    if x >= 0x8000_0000 then x as int - 0x1_0000_0000 else x as int
  }

  function SignExtend(x: Byte): (r: Word) { if x < 0x80 then x else x + 0xff00 }

  /** Division towards zero. */
  function Trunc(d: int, s: int): (r: int)
    requires s != 0
  {
    if (d < 0) == (s < 0) then Abs(d) / Abs(s) else -(Abs(d) / Abs(s))
  }

  function Abs(x: int): (r: nat) { if x < 0 then -x else x }

  lemma Products(m: int, b: int)
    ensures (-m) * b == -(m * b) && m * (-b) == -(m * b) && (-m) * (-b) == m * b
  {}

  lemma FactorBound(q: nat, b: nat, a: nat)
    requires b >= 1 && q * b <= a
    ensures q <= a
  {
    NotNegative(q, b - 1);
    assert q * b == q * (b - 1) + q;
  }

  lemma Divided(a: nat, b: nat)
    requires b > 0
    ensures a == a / b * b + a % b && a % b < b && 0 <= a / b <= a
  {
    FactorBound(a / b, b, a);
  }

  /** The magnitudes divided; the remainder has the dividend's sign. */
  lemma TruncParts(d: int, s: int)
    requires s != 0
    ensures Abs(Trunc(d, s)) == Abs(d) / Abs(s) <= Abs(d)
    ensures d - Trunc(d, s) * s == if d < 0 then -(Abs(d) % Abs(s)) else Abs(d) % Abs(s)
  {
    var m := Abs(d) / Abs(s);
    Divided(Abs(d), Abs(s));
    Products(m, Abs(s));
  }

  /** What truncating division means: the remainder is smaller than the divisor and takes
      the dividend's sign. */
  lemma TruncMeans(d: int, s: int)
    requires s != 0
    ensures var r := d - Trunc(d, s) * s; Abs(r) < Abs(s) && (r == 0 || (r < 0) == (d < 0))
  {
    TruncParts(d, s);
  }

  // ------------------------------------------------------------ division

  function Negated(x: DWord): (r: DWord) { (-(x as int)) % 0x1_0000_0000 }

  /** div: 32 bits by 16, on magnitudes, with the signs put back if it is signed. */
  function Div(destination: DWord, source: Word, signed: bool): (r: (DWord, Word))
    requires source != 0
  {
    var dn := signed && destination >= 0x8000_0000;
    var sn := signed && source >= 0x8000;
    var d := if dn then Negated(destination) else destination;
    var s := if sn then Negated(source) % 0x1_0000 else source;
    assert s != 0;
    Divided(d, s);
    var data: DWord, remainder: Word := d / s, d % s;
    (if dn != sn then Negated(data) else data,
     if dn then Negated(remainder) % 0x1_0000 else remainder)
  }

  /** IDIV of AX by a byte: AL and AH, or None for a divide overflow. */
  function Idiv8(ax: Word, source: Byte): (r: Option<(Byte, Byte)>) {
    if source == 0 then None
    else
      var d: DWord := if ax >= 0x8000 then ax as int + 0xffff_0000 else ax;
      var (data, remainder) := Div(d, SignExtend(source), true);
      if 0x7f < data < 0xffff_ff80 then None else Some((data % 0x100, remainder % 0x100))
  }

  /** IDIV of DX:AX by a word: AX and DX. */
  function Idiv16(dx: Word, ax: Word, source: Word): (r: Option<(Word, Word)>) {
    if source == 0 then None
    else
      var (data, remainder) := Div((dx as int) * 0x1_0000 + ax, source, true);
      if 0x7fff < data < 0xffff_8000 then None else Some((data % 0x1_0000, remainder))
  }

  /** div computes the truncated quotient and its remainder, as 32- and 16-bit patterns. */
  lemma DivIsTrunc(destination: DWord, source: Word)
    requires source != 0
    ensures var (data, remainder) := Div(destination, source, true);
      var d, s := S32(destination), S16(source);
      data == Trunc(d, s) % 0x1_0000_0000 && remainder == (d - Trunc(d, s) * s) % 0x1_0000
  {
    var d, s := S32(destination), S16(source);
    TruncParts(d, s);
    Divided(Abs(d), Abs(s));
    Magnitudes(destination, source);
    var q, r := Abs(d) / Abs(s), Abs(d) % Abs(s);
    Signed(q, r, d < 0, s < 0);
    assert Trunc(d, s) == if (d < 0) == (s < 0) then q else -q;
    assert d - Trunc(d, s) * s == if d < 0 then -r else r;
    assert Div(destination, source, true)
        == (if (d < 0) != (s < 0) then Negated(q) else q, if d < 0 then Negated(r) % 0x1_0000 else r);
  }

  lemma Signed(q: int, r: int, dn: bool, sn: bool)
    requires 0 <= q <= 0x8000_0000 && 0 <= r < 0x8000
    ensures (if dn != sn then Negated(q) else q) == (if dn == sn then q else -q) % 0x1_0000_0000
    ensures (if dn then Negated(r) % 0x1_0000 else r) == (if dn then -r else r) % 0x1_0000
  {}

  lemma Magnitudes(destination: DWord, source: Word)
    ensures (if destination >= 0x8000_0000 then Negated(destination) else destination) == Abs(S32(destination))
    ensures source != 0 ==> (if source >= 0x8000 then Negated(source) % 0x1_0000 else source) == Abs(S16(source))
  {}

  /** IDIV of a word by a byte: an overflow is raised exactly when the divisor is 0 or the
      quotient does not fit a signed byte; else AL and AH are the quotient and the remainder. */
  lemma Idiv8Divides(ax: Word, source: Byte)
    ensures var r := Idiv8(ax, source);
      var d, s := S16(ax), S8(source);
      if s == 0 || !(-0x80 <= Trunc(d, s) < 0x80) then r.None?
      else r.Some? && S8(r.value.0) == Trunc(d, s) && S8(r.value.1) == d - Trunc(d, s) * s
  {
    if source != 0 {
      var wide: DWord := if ax >= 0x8000 then ax as int + 0xffff_0000 else ax;
      DivIsTrunc(wide, SignExtend(source));
      assert S32(wide) == S16(ax) && S16(SignExtend(source)) == S8(source);
      TruncMeans(S16(ax), S8(source));
      TruncParts(S16(ax), S8(source));
      Narrowed8(Trunc(S16(ax), S8(source)), S16(ax) - Trunc(S16(ax), S8(source)) * S8(source));
    }
  }

  lemma Narrowed8(q: int, r: int)
    requires -0x8000_0000 <= q <= 0x8000_0000 && -0x80 < r < 0x80
    ensures 0x7f < q % 0x1_0000_0000 < 0xffff_ff80 <==> !(-0x80 <= q < 0x80)
    ensures -0x80 <= q < 0x80 ==> S8(q % 0x1_0000_0000 % 0x100) == q
    ensures S8(r % 0x1_0000 % 0x100) == r
  {}

  /** IDIV of a double word by a word. */
  lemma Idiv16Divides(dx: Word, ax: Word, source: Word)
    ensures var r := Idiv16(dx, ax, source);
      var d, s := S32((dx as int) * 0x1_0000 + ax), S16(source);
      if s == 0 || !(-0x8000 <= Trunc(d, s) < 0x8000) then r.None?
      else r.Some? && S16(r.value.0) == Trunc(d, s) && S16(r.value.1) == d - Trunc(d, s) * s
  {
    if source != 0 {
      var wide: DWord := (dx as int) * 0x1_0000 + ax;
      DivIsTrunc(wide, source);
      TruncMeans(S32(wide), S16(source));
      TruncParts(S32(wide), S16(source));
      Narrowed16(Trunc(S32(wide), S16(source)), S32(wide) - Trunc(S32(wide), S16(source)) * S16(source));
    }
  }

  lemma Narrowed16(q: int, r: int)
    requires -0x8000_0000 <= q <= 0x8000_0000 && -0x8000 < r < 0x8000
    ensures 0x7fff < q % 0x1_0000_0000 < 0xffff_8000 <==> !(-0x8000 <= q < 0x8000)
    ensures -0x8000 <= q < 0x8000 ==> S16(q % 0x1_0000_0000 % 0x1_0000) == q
    ensures S16(r % 0x1_0000) == r
  {
    SmallMod(q, 0x1_0000_0000);
    SmallMod(r, 0x1_0000);
    if -0x8000 <= q < 0 { assert (q + 0x1_0000_0000) % 0x1_0000 == q + 0x1_0000; }
  }

  lemma SmallMod(x: int, m: int)
    requires m > 0 && -m <= x < m
    ensures x % m == if x == -m then 0 else if x < 0 then x + m else x
  {}

  // ------------------------------------------------------------ multiplication

  /** IMUL of AL by a byte: AX, the unsigned product with its high byte corrected. */
  function Imul8(al: Byte, source: Byte): (r: Word) {
    MulBound(al, source, 0xff);
    Signed8((al as int) * source, al, source)
  }

  function Signed8(ax: Word, al: Byte, source: Byte): (r: Word) {
    var ah := ax / 0x100;
    var ah1 := if source >= 0x80 then (ah - al) % 0x100 else ah;
    var ah2 := if al >= 0x80 then (ah1 - source) % 0x100 else ah1;
    ah2 * 0x100 + ax % 0x100
  }

  /** IMUL of AX by a word: DX and AX. */
  function Imul16(ax: Word, source: Word): (r: (Word, Word)) {
    MulBound(ax, source, 0xffff);
    Signed16((ax as int) * source, ax, source)
  }

  function Signed16(data: DWord, ax: Word, source: Word): (r: (Word, Word)) {
    var dx := data / 0x1_0000;
    var dx1 := if source >= 0x8000 then (dx - ax) % 0x1_0000 else dx;
    var dx2 := if ax >= 0x8000 then (dx1 - source) % 0x1_0000 else dx1;
    (dx2, data % 0x1_0000)
  }

  lemma MulBound(a: nat, b: nat, m: nat)
    requires a <= m && b <= m
    ensures 0 <= a * b <= m * m
  {
    assert (m - a) * b >= 0 && m * (m - b) >= 0;
  }

  lemma High8(p: int, x: int, y: int)
    requires 0 <= p < 0x1_0000 && 0 <= x < 0x100 && 0 <= y < 0x100
    ensures ((p / 0x100 - x) % 0x100 - y) % 0x100 * 0x100 + p % 0x100 == (p - 0x100 * (x + y)) % 0x1_0000
  {}

  lemma High16(p: int, x: int, y: int)
    requires 0 <= p < 0x1_0000_0000 && 0 <= x < 0x1_0000 && 0 <= y < 0x1_0000
    ensures ((p / 0x1_0000 - x) % 0x1_0000 - y) % 0x1_0000 * 0x1_0000 + p % 0x1_0000
         == (p - 0x1_0000 * (x + y)) % 0x1_0000_0000
  {}

  lemma Step8(h: int, c: bool, x: int)
    requires 0 <= h < 0x100
    ensures (if c then (h - x) % 0x100 else h) == (h - (if c then x else 0)) % 0x100
  {}

  lemma Step16(h: int, c: bool, x: int)
    requires 0 <= h < 0x1_0000
    ensures (if c then (h - x) % 0x1_0000 else h) == (h - (if c then x else 0)) % 0x1_0000
  {}

  lemma Pattern16(t: int, u: int)
    requires -0x8000 <= t < 0x8000 && (u == t || u == t - 0x1_0000)
    ensures S16(u % 0x1_0000) == t
  {}

  lemma Pattern32(t: int, u: int)
    requires -0x8000_0000 <= t < 0x8000_0000 && (u == t || u == t - 0x1_0000_0000)
    ensures S32(u % 0x1_0000_0000) == t
  {}

  /** What the two corrections take away, in units of the high half. */
  function TakenAway(a: nat, b: nat, sign: nat): (r: nat) {
    (if b >= sign then a else 0) + if a >= sign then b else 0
  }

  lemma Signed8Taken(p: Word, al: Byte, source: Byte)
    ensures Signed8(p, al, source) as int == (p - 0x100 * TakenAway(al, source, 0x80)) % 0x1_0000
  {
    var x, y := if source >= 0x80 then al as int else 0, if al >= 0x80 then source as int else 0;
    High8(p, x, y);
    Step8(p / 0x100, source >= 0x80, al);
    Step8((p / 0x100 - x) % 0x100, al >= 0x80, source);
  }

  lemma Signed16Taken(p: DWord, ax: Word, source: Word)
    ensures var (dx, lo) := Signed16(p, ax, source);
      (dx as int) * 0x1_0000 + lo == (p - 0x1_0000 * TakenAway(ax, source, 0x8000)) % 0x1_0000_0000
  {
    var x, y := if source >= 0x8000 then ax as int else 0, if ax >= 0x8000 then source as int else 0;
    High16(p, x, y);
    Step16(p / 0x1_0000, source >= 0x8000, ax);
    Step16((p / 0x1_0000 - x) % 0x1_0000, ax >= 0x8000, source);
  }

  /** p, the unsigned product, is corrected to the t that differs from it by the right multiple. */
  lemma Signed8Is(p: Word, al: Byte, source: Byte, t: int)
    requires -0x4000 <= t <= 0x4000
    requires t == p - 0x100 * TakenAway(al, source, 0x80) + if source >= 0x80 && al >= 0x80 then 0x1_0000 else 0
    ensures S16(Signed8(p, al, source)) == t
  {
    Signed8Taken(p, al, source);
    Pattern16(t, p - 0x100 * TakenAway(al, source, 0x80));
  }

  lemma Signed16Is(p: DWord, ax: Word, source: Word, t: int)
    requires -0x4000_0000 <= t <= 0x4000_0000
    requires t == p - 0x1_0000 * TakenAway(ax, source, 0x8000)
                    + if source >= 0x8000 && ax >= 0x8000 then 0x1_0000_0000 else 0
    ensures var (dx, lo) := Signed16(p, ax, source); S32((dx as int) * 0x1_0000 + lo) == t
  {
    Signed16Taken(p, ax, source);
    Pattern32(t, p - 0x1_0000 * TakenAway(ax, source, 0x8000));
  }

  /** The product of the signed values, as a 16-bit pattern; it always fits. */
  lemma Imul8Multiplies(al: Byte, source: Byte)
    ensures S16(Imul8(al, source)) == S8(al) * S8(source)
  {
    MulBound(al, source, 0xff);
    Corrected(al, source, 0x100);
    SignedBound(S8(al), S8(source), 0x80);
    Signed8Is((al as int) * source, al, source, S8(al) * S8(source));
  }

  /** The product of the signed values in DX:AX. */
  lemma Imul16Multiplies(ax: Word, source: Word)
    ensures var (dx, lo) := Imul16(ax, source);
      S32((dx as int) * 0x1_0000 + lo) == S16(ax) * S16(source)
  {
    MulBound(ax, source, 0xffff);
    Corrected(ax, source, 0x1_0000);
    SignedBound(S16(ax), S16(source), 0x8000);
    Signed16Is((ax as int) * source, ax, source, S16(ax) * S16(source));
  }

  /** The signed product from the unsigned one. */
  lemma Corrected(a: int, b: int, m: int)
    ensures (a - m) * b == a * b - m * b && a * (b - m) == a * b - m * a
    ensures (a - m) * (b - m) == a * b - m * a - m * b + m * m
  {}

  lemma SignedBound(a: int, b: int, m: int)
    requires m > 0
    requires -m <= a < m && -m <= b < m
    ensures -(m * m) <= a * b <= m * m
  {
    if a >= 0 {
      if b >= 0 { MulBound(a, b, m); } else { MulBound(a, -b, m); Products(a, -b); }
    } else {
      if b >= 0 { MulBound(-a, b, m); Products(-a, b); } else { MulBound(-a, -b, m); Products(-a, -b); }
    }
  }
}
