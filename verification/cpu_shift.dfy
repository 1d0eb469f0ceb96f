/** Shifts and rotations, a bit at a time: what a count of n amounts to.

    RingIs and After speak of every value that equals theirs, not of the value itself: that hides the
    functions applied to it, which are then unfolded only in the lemmas that name them. */
module CpuShift {
  import opened Arithmetic
  import opened Basics
  import opened Cpu
  import opened CpuArith

  datatype Shift = Rol | Ror | Rcl | Rcr | Shl | Shr | Sar

  function ShiftOf(reg: nat): (r: Shift)
    requires reg < 8
  {
    if reg == 0 then Rol else if reg == 1 then Ror else if reg == 2 then Rcl else if reg == 3 then Rcr
    else if reg == 5 then Shr else if reg == 7 then Sar else Shl
  }

  function Left(data: DWord): (r: DWord) { data * 2 % 0x1_0000_0000 }

  function Bool(b: bool): (r: nat) { if b then 1 else 0 }

  function TopValue(w: bool): (r: DWord) { if w then 0x8000 else 0x80 }

  /** Setting the operand's top bit. */
  function OrTop(data: DWord, w: bool): (r: DWord) {
    if Bit(data, Width(w) - 1) then data else (data + TopValue(w)) % 0x1_0000_0000
  }

  function OfRotate(f: Flags, data: DWord, destination: DWord, w: bool): (r: Flags) {
    f.(of := Bit(data, Width(w) - 1) != Bit(destination, Width(w) - 1))
  }

  /** One pass of the loop.  Bits above the operand are not cleared between the passes. */
  function Once(op: Shift, data: DWord, f: Flags, w: bool): (r: (DWord, Flags)) {
    var n := Width(w);
    match op
    case Rol =>
      var d := Left(data);
      var c := Bit(d, n);
      OddTwice(data);
      (d + Bool(c), OfRotate(f.(cf := c), d + Bool(c), data, w))
    case Ror =>
      var c := data % 2 == 1;
      var d := if c then OrTop(data / 2, w) else data / 2;
      (d, OfRotate(f.(cf := c), d, data, w))
    case Rcl =>
      OddTwice(data);
      var d := Left(data) + Bool(f.cf);
      (d, OfRotate(f.(cf := Bit(d, n)), d, data, w))
    case Rcr =>
      var d := if f.cf then OrTop(data / 2, w) else data / 2;
      (d, OfRotate(f.(cf := data % 2 == 1), d, data, w))
    case Shl =>
      var d := Left(data);
      (d, SetPZS(OfRotate(f.(cf := Bit(d, n)), d, data, w), d, w))
    case Shr =>
      var d := data / 2;
      (d, SetPZS(OfRotate(f.(cf := data % 2 == 1, af := true), d, data, w), d, w))
    case Sar =>
      var d := if Bit(data, n - 1) then OrTop(data / 2, w) else data / 2;
      (d, SetPZS(OfRotate(f.(cf := data % 2 == 1, af := true), d, data, w), d, w))
  }

  lemma OddTwice(data: DWord)
    ensures Left(data) + 1 < 0x1_0000_0000
  {}

  /** The loop: count passes, one after the other. */
  function Repeated(op: Shift, data: DWord, f: Flags, w: bool, count: nat): (r: (DWord, Flags))
    decreases count
  {
    if count == 0 then (data, f)
    else var (d, g) := Repeated(op, data, f, w, count - 1); Once(op, d, g, w)
  }

  // ------------------------------------------------------------ bits

  /** The low n bits of x, lowest first. */
  function Bits(x: nat, n: nat): (s: seq<bool>)
    ensures |s| == n
  {
    if n == 0 then [] else [x % 2 == 1] + Bits(x / 2, n - 1)
  }

  lemma {:induction false} BitsAt(x: nat, n: nat, k: nat)
    requires k < n
    ensures Bits(x, n)[k] == Bit(x, k)
    decreases n
  {
    if k > 0 {
      BitsAt(x / 2, n - 1, k - 1);
      HalfBit(x, k);
      LaterBits(x, n, k);
    } else {
      assert Pow2(0) == 1;
    }
  }

  lemma LaterBits(x: nat, n: nat, k: nat)
    requires 0 < k < n
    ensures Bits(x, n)[k] == Bits(x / 2, n - 1)[k - 1]
  {}

  lemma HalfBit(x: nat, k: nat)
    requires k > 0
    ensures Bit(x, k) == Bit(x / 2, k - 1)
  {
    DivDiv(x, 2, Pow2(k - 1));
  }

  /** The next bit. */
  lemma {:induction false} BitsAppend(x: nat, n: nat)
    ensures Bits(x, n + 1) == Bits(x, n) + [Bit(x, n)]
  {
    forall k | 0 <= k < n + 1 ensures Bits(x, n + 1)[k] == (Bits(x, n) + [Bit(x, n)])[k] {
      BitsAt(x, n + 1, k);
      if k < n { BitsAt(x, n, k); }
    }
  }

  /** Shifting up puts a bit below and loses the top one. */
  lemma BitsDouble(x: nat, b: nat, n: nat)
    requires b <= 1 && n > 0
    ensures Bits(2 * x + b, n) == [b == 1] + Bits(x, n)[..n - 1] && Bit(2 * x + b, n) == Bits(x, n)[n - 1]
  {
    BitsAppend(x, n - 1);
    HalfBit(2 * x + b, n);
    BitsAt(x, n, n - 1);
  }

  /** Shifting down. */
  lemma BitsHalf(x: nat, n: nat)
    requires n > 0
    ensures Bits(x / 2, n) == Bits(x, n)[1..] + [Bit(x, n)]
  {
    BitsAppend(x, n);
    assert Bits(x, n + 1)[1..] == Bits(x / 2, n);
  }

  /** Bits do not see what lies above them. */
  lemma {:induction false} BitsBelow(x: nat, k: nat, n: nat)
    requires n <= k
    ensures Bits(x % Pow2(k), n) == Bits(x, n)
    decreases n
  {
    if n > 0 {
      HalfMod(x, Pow2(k - 1));
      BitsBelow(x / 2, k - 1, n - 1);
    }
  }

  lemma HalfMod(x: nat, m: nat)
    requires m > 0
    ensures x % (2 * m) / 2 == x / 2 % m && x % (2 * m) % 2 == x % 2
  {
    var q, r := x / 2 / m, x / 2 % m;
    assert x / 2 == m * q + r;
    assert x == (2 * m) * q + (2 * r + x % 2);
    DivModUnique(x, 2 * m, q, 2 * r + x % 2);
  }

  lemma {:induction false} BitsTopNext(d: nat, p: nat, n: nat)
    requires n > 1 && Bits(d / 2 + p, n - 1) == Bits(d / 2, n - 1)[..n - 2] + [true]
    ensures Bits(d + 2 * p, n) == Bits(d, n)[..n - 1] + [true]
  {
    assert (d + 2 * p) / 2 == d / 2 + p;
  }

  lemma {:induction false} BitsTop(d: nat, n: nat)
    requires n > 0 && !Bit(d, n - 1)
    ensures Bits(d + Pow2(n - 1), n) == Bits(d, n)[..n - 1] + [true]
    decreases n
  {
    if n == 1 {
      assert Pow2(0) == 1;
    } else {
      HalfBit(d, n - 1);
      BitsTop(d / 2, n - 1);
      BitsTopNext(d, Pow2(n - 2), n);
    }
  }

  // ------------------------------------------------------------ one pass on the bits

  /** What a rotation turns: the operand's bits, with CF above them for RCL and RCR. */
  function Ring(op: Shift, data: nat, f: Flags, w: bool): (s: seq<bool>)
    ensures |s| > 0
  {
    if op.Rcl? || op.Rcr? then Bits(data, Width(w)) + [f.cf] else Bits(data, Width(w))
  }

  function Up(s: seq<bool>): (t: seq<bool>)
    requires |s| > 0
    ensures |t| == |s|
  {
    [s[|s| - 1]] + s[..|s| - 1]
  }

  function Down(s: seq<bool>): (t: seq<bool>)
    requires |s| > 0
    ensures |t| == |s|
  {
    s[1..] + [s[0]]
  }

  lemma LeftMod(data: DWord, b: nat)
    requires b <= 1
    ensures Left(data) + b == (2 * data + b) % Pow2(32)
  {
    Pow2Values();
  }

  /** Shifting left within 32 bits, and a bit put below. */
  lemma LeftBits(data: DWord, b: nat, n: nat)
    requires b <= 1 && 0 < n < 32
    ensures Bits(Left(data) + b, n) == [b == 1] + Bits(data, n)[..n - 1]
      && Bit(Left(data) + b, n) == Bits(data, n)[n - 1]
  {
    LeftMod(data, b);
    ShiftedBits(2 * data + b, n);
    BitsDouble(data, b, n);
  }

  /** The bits up to n are not touched by the cut to 32 bits. */
  lemma ShiftedBits(x: nat, n: nat)
    requires 0 < n < 32
    ensures Bits(x % Pow2(32), n) == Bits(x, n) && Bit(x % Pow2(32), n) == Bit(x, n)
  {
    BitsBelow(x, 32, n);
    BitsBelow(x, 32, n + 1);
    BitsAt(x, n + 1, n);
    BitsAt(x % Pow2(32), n + 1, n);
  }

  lemma NoHighBits(data: nat, n: nat)
    requires n > 0 && data < Pow2(n)
    ensures !Bit(data, n) && !Bit(data / 2, n - 1) && data / 2 < Pow2(n - 1)
  {
    DivModUnique(data, Pow2(n), 0, data);
    HalfBit(data, n);
  }

  lemma OrTopIs(d: DWord, w: bool)
    requires d < Pow2(Width(w) - 1)
    ensures OrTop(d, w) == d + Pow2(Width(w) - 1) < Pow2(Width(w))
  {
    Pow2Values();
    DivModUnique(d, Pow2(Width(w) - 1), 0, d);
  }

  /** Shifting an operand right, and a bit put on top. */
  lemma RightBits(data: DWord, c: bool, w: bool)
    requires data < Pow2(Width(w))
    ensures var d := if c then OrTop(data / 2, w) else data / 2;
      Bits(d, Width(w)) == Bits(data, Width(w))[1..] + [c] && d < Pow2(Width(w))
  {
    var n := Width(w);
    NoHighBits(data, n);
    BitsHalf(data, n);
    if c {
      OrTopIs(data / 2, w);
      BitsTop(data / 2, n);
    }
  }

  /** The bits above an operand and its flags; ring s. */
  ghost predicate RingIs(op: Shift, data: nat, f: Flags, w: bool, s: seq<bool>) {
    forall d: nat :: d == data ==> Ring(op, d, f, w) == s
  }

  /** After n passes the operand is d and the flags are g. */
  ghost predicate After(op: Shift, data: DWord, f: Flags, w: bool, n: nat, d: DWord, g: Flags) {
    forall k: nat :: k == n ==> Repeated(op, data, f, w, k) == (d, g)
  }

  lemma RolOnce(data: DWord, f: Flags, w: bool) returns (d: DWord, g: Flags)
    ensures (d, g) == Once(Rol, data, f, w) && Bits(d, Width(w)) == Up(Bits(data, Width(w)))
  {
    var r := Once(Rol, data, f, w);
    d, g := r.0, r.1;
    RolBits(data, Width(w));
  }

  lemma RolBits(data: DWord, n: nat)
    requires 0 < n < 32
    ensures Bits(Left(data) + Bool(Bit(Left(data), n)), n) == Up(Bits(data, n))
  {
    LeftBits(data, 0, n);
    LeftBits(data, Bool(Bit(Left(data), n)), n);
  }

  lemma RclOnce(data: DWord, f: Flags, w: bool) returns (d: DWord, g: Flags)
    ensures (d, g) == Once(Rcl, data, f, w)
    ensures Bits(d, Width(w)) == [f.cf] + Bits(data, Width(w))[..Width(w) - 1]
      && g.cf == Bits(data, Width(w))[Width(w) - 1]
  {
    var r := Once(Rcl, data, f, w);
    d, g := r.0, r.1;
    LeftBits(data, Bool(f.cf), Width(w));
  }

  lemma CarryUp(s: seq<bool>, c: bool)
    requires |s| > 0
    ensures [c] + s[..|s| - 1] + [s[|s| - 1]] == Up(s + [c])
  {}

  lemma RorOnce(data: DWord, f: Flags, w: bool) returns (d: DWord, g: Flags)
    requires data < Pow2(Width(w))
    ensures (d, g) == Once(Ror, data, f, w) && Bits(d, Width(w)) == Down(Bits(data, Width(w))) && d < Pow2(Width(w))
  {
    var r := Once(Ror, data, f, w);
    d, g := r.0, r.1;
    RightBits(data, data % 2 == 1, w);
  }

  lemma RcrOnce(data: DWord, f: Flags, w: bool) returns (d: DWord, g: Flags)
    requires data < Pow2(Width(w))
    ensures (d, g) == Once(Rcr, data, f, w) && Bits(d, Width(w)) == Bits(data, Width(w))[1..] + [f.cf]
    ensures g.cf == Bits(data, Width(w))[0] && d < Pow2(Width(w))
  {
    var r := Once(Rcr, data, f, w);
    d, g := r.0, r.1;
    RightBits(data, f.cf, w);
  }

  lemma CarryDown(s: seq<bool>, c: bool)
    requires |s| > 0
    ensures s[1..] + [c] + [s[0]] == Down(s + [c])
  {}

  lemma RotatesLeft(op: Shift, data: DWord, f: Flags, w: bool, s: seq<bool>) returns (d: DWord, g: Flags)
    requires (op.Rol? || op.Rcl?) && |s| > 0 && RingIs(op, data, f, w, s)
    ensures (d, g) == Once(op, data, f, w) && RingIs(op, d, g, w, Up(s))
  {
    assert Ring(op, data, f, w) == s;
    if op.Rol? {
      d, g := RolOnce(data, f, w);
    } else {
      d, g := RclOnce(data, f, w);
      CarryUp(Bits(data, Width(w)), f.cf);
    }
  }

  lemma RotatesRight(op: Shift, data: DWord, f: Flags, w: bool, s: seq<bool>) returns (d: DWord, g: Flags)
    requires (op.Ror? || op.Rcr?) && data < Pow2(Width(w)) && |s| > 0 && RingIs(op, data, f, w, s)
    ensures (d, g) == Once(op, data, f, w) && RingIs(op, d, g, w, Down(s)) && d < Pow2(Width(w))
  {
    assert Ring(op, data, f, w) == s;
    if op.Ror? {
      d, g := RorOnce(data, f, w);
    } else {
      d, g := RcrOnce(data, f, w);
      CarryDown(Bits(data, Width(w)), f.cf);
    }
  }

  // ------------------------------------------------------------ any count

  /** s turned up by k places: the top k bits come round. */
  function Turned(s: seq<bool>, k: nat): (t: seq<bool>)
    requires k <= |s|
    ensures |t| == |s|
  {
    s[|s| - k..] + s[..|s| - k]
  }

  lemma UpTurned(s: seq<bool>, k: nat)
    requires k < |s|
    ensures Up(Turned(s, k)) == Turned(s, if k + 1 == |s| then 0 else k + 1)
  {}

  lemma DownTurned(s: seq<bool>, k: nat)
    requires k < |s|
    ensures Down(Turned(s, k)) == Turned(s, if k == 0 then |s| - 1 else k - 1)
  {}

  /** The complement of a count. */
  function Back(n: nat, m: nat): (k: nat)
    requires m > 0
    ensures k < m
  {
    -(n as int) % m
  }

  lemma NextTurn(n: nat, m: nat)
    requires m > 0
    ensures (n + 1) % m == if n % m + 1 == m then 0 else n % m + 1
    ensures Back(n + 1, m) == if Back(n, m) == 0 then m - 1 else Back(n, m) - 1
  {
    DivModUnique(n + 1, m, if n % m + 1 == m then n / m + 1 else n / m, if n % m + 1 == m then 0 else n % m + 1);
    var q, r := -(n as int) / m, -(n as int) % m;
    DivModUnique(-(n as int) - 1, m, if r == 0 then q - 1 else q, if r == 0 then m - 1 else r - 1);
  }

  lemma OnePass(op: Shift, data: DWord, f: Flags, w: bool, n: nat, d: DWord, g: Flags)
    requires After(op, data, f, w, n, d, g)
    ensures var (d', g') := Once(op, d, g, w); After(op, data, f, w, n + 1, d', g')
  {
    assert Repeated(op, data, f, w, n) == (d, g);
  }

  lemma NoPass(op: Shift, data: DWord, f: Flags, w: bool)
    ensures After(op, data, f, w, 0, data, f)
  {}

  lemma WholeTurn(s: seq<bool>)
    requires |s| > 0
    ensures Turned(s, 0 % |s|) == s && Turned(s, Back(0, |s|)) == s
  {
    DivModUnique(0, |s|, 0, 0);
    assert s[|s|..] + s[..|s|] == s;
  }

  lemma LeftNext(op: Shift, data: DWord, f: Flags, w: bool, s: seq<bool>, n: nat) returns (d: DWord, g: Flags)
    requires (op.Rol? || op.Rcl?) && |s| > 0 && RingIs(op, data, f, w, Turned(s, n % |s|))
    ensures (d, g) == Once(op, data, f, w) && RingIs(op, d, g, w, Turned(s, (n + 1) % |s|))
  {
    d, g := RotatesLeft(op, data, f, w, Turned(s, n % |s|));
    NextTurn(n, |s|);
    UpTurned(s, n % |s|);
  }

  lemma RightNext(op: Shift, data: DWord, f: Flags, w: bool, s: seq<bool>, n: nat) returns (d: DWord, g: Flags)
    requires (op.Ror? || op.Rcr?) && data < Pow2(Width(w)) && |s| > 0 && RingIs(op, data, f, w, Turned(s, Back(n, |s|)))
    ensures (d, g) == Once(op, data, f, w) && RingIs(op, d, g, w, Turned(s, Back(n + 1, |s|))) && d < Pow2(Width(w))
  {
    d, g := RotatesRight(op, data, f, w, Turned(s, Back(n, |s|)));
    NextTurn(n, |s|);
    DownTurned(s, Back(n, |s|));
  }

  lemma {:induction false} LeftRuns(op: Shift, data: DWord, f: Flags, w: bool, s: seq<bool>, n: nat)
    returns (d: DWord, g: Flags)
    requires (op.Rol? || op.Rcl?) && |s| > 0 && RingIs(op, data, f, w, s)
    ensures After(op, data, f, w, n, d, g) && RingIs(op, d, g, w, Turned(s, n % |s|))
    decreases n
  {
    if n == 0 {
      d, g := data, f;
      NoPass(op, data, f, w);
      WholeTurn(s);
    } else {
      d, g := LeftRuns(op, data, f, w, s, n - 1);
      OnePass(op, data, f, w, n - 1, d, g);
      d, g := LeftNext(op, d, g, w, s, n - 1);
    }
  }

  lemma {:induction false} RightRuns(op: Shift, data: DWord, f: Flags, w: bool, s: seq<bool>, n: nat)
    returns (d: DWord, g: Flags)
    requires (op.Ror? || op.Rcr?) && data < Pow2(Width(w)) && |s| > 0 && RingIs(op, data, f, w, s)
    ensures After(op, data, f, w, n, d, g) && RingIs(op, d, g, w, Turned(s, Back(n, |s|))) && d < Pow2(Width(w))
    decreases n
  {
    if n == 0 {
      d, g := data, f;
      NoPass(op, data, f, w);
      WholeTurn(s);
    } else {
      d, g := RightRuns(op, data, f, w, s, n - 1);
      OnePass(op, data, f, w, n - 1, d, g);
      d, g := RightNext(op, d, g, w, s, n - 1);
    }
  }

  /** ROL and RCL by any count turn the ring up by the count modulo its length. */
  lemma LeftByCount(op: Shift, data: DWord, f: Flags, w: bool, n: nat)
    requires op.Rol? || op.Rcl?
    ensures var (d, g) := Repeated(op, data, f, w, n);
      var s := Ring(op, data, f, w);
      Ring(op, d, g, w) == Turned(s, n % |s|)
  {
    var d, g := LeftRuns(op, data, f, w, Ring(op, data, f, w), n);
  }

  /** ROR and RCR by any count turn it down, which is up by the complement. */
  lemma RightByCount(op: Shift, data: DWord, f: Flags, w: bool, n: nat)
    requires (op.Ror? || op.Rcr?) && data < Pow2(Width(w))
    ensures var (d, g) := Repeated(op, data, f, w, n);
      var s := Ring(op, data, f, w);
      Ring(op, d, g, w) == Turned(s, Back(n, |s|)) && d < Pow2(Width(w))
  {
    var d, g := RightRuns(op, data, f, w, Ring(op, data, f, w), n);
  }

  // ------------------------------------------------------------ there and back

  lemma {:induction false} BitsDetermine(x: nat, y: nat, n: nat)
    requires x < Pow2(n) && y < Pow2(n) && Bits(x, n) == Bits(y, n)
    ensures x == y
    decreases n
  {
    if n > 0 {
      assert Bits(x, n)[0] == Bits(y, n)[0];
      assert Bits(x, n)[1..] == Bits(x / 2, n - 1) && Bits(y, n)[1..] == Bits(y / 2, n - 1);
      BitsDetermine(x / 2, y / 2, n - 1);
    }
  }

  lemma TurnBack(s: seq<bool>, n: nat)
    requires |s| > 0
    ensures Turned(Turned(s, n % |s|), Back(n, |s|)) == s
  {
    var m, a := |s|, n % |s|;
    if a == 0 {
      assert Back(n, m) == 0 by { DivModUnique(-(n as int), m, -(n / m), 0); }
    } else {
      assert Back(n, m) == m - a by { DivModUnique(-(n as int), m, -(n / m) - 1, m - a); }
    }
  }

  lemma WrittenBits(d: DWord, w: bool)
    ensures var x := d % if w then 0x1_0000 else 0x100;
      x < Pow2(Width(w)) && Bits(x, Width(w)) == Bits(d, Width(w))
  {
    Pow2Values();
    BitsBelow(d, Width(w), Width(w));
  }

  /** ROL then ROR, and RCL then RCR, by the same count restore the operand, and CF too when it
      is part of the ring. */
  lemma ThereAndBack(op: Shift, back: Shift, data: DWord, f: Flags, w: bool, n: nat)
    requires (op == Rol && back == Ror) || (op == Rcl && back == Rcr)
    requires data < Pow2(Width(w))
    ensures var (d, g) := Repeated(op, data, f, w, n);
      var (e, h) := Repeated(back, d % (if w then 0x1_0000 else 0x100), g, w, n);
      e == data && (op.Rcl? ==> h.cf == f.cf)
  {
    var s := Ring(op, data, f, w);
    var d, g := LeftRuns(op, data, f, w, s, n);
    assert Repeated(op, data, f, w, n) == (d, g);
    WrittenBits(d, w);
    var x := d % if w then 0x1_0000 else 0x100;
    SameRing(op, back, d, g, w, x, Turned(s, n % |s|));
    var e, h := RightRuns(back, x, g, w, Turned(s, n % |s|), n);
    assert Repeated(back, x, g, w, n) == (e, h);
    TurnBack(s, n);
    RingDetermines(op, back, data, f, w, e, h, s);
  }

  lemma SameRing(op: Shift, back: Shift, d: DWord, g: Flags, w: bool, x: DWord, s: seq<bool>)
    requires (op == Rol && back == Ror) || (op == Rcl && back == Rcr)
    requires RingIs(op, d, g, w, s) && Bits(x, Width(w)) == Bits(d, Width(w))
    ensures RingIs(back, x, g, w, s)
  {
    assert Ring(op, d, g, w) == s;
    assert Ring(back, x, g, w) == s;
  }

  lemma RingDetermines(op: Shift, back: Shift, data: DWord, f: Flags, w: bool, e: DWord, h: Flags, s: seq<bool>)
    requires (op == Rol && back == Ror) || (op == Rcl && back == Rcr)
    requires data < Pow2(Width(w)) && e < Pow2(Width(w)) && s == Ring(op, data, f, w) && RingIs(back, e, h, w, s)
    ensures e == data && (op.Rcl? ==> h.cf == f.cf)
  {
    var n := Width(w);
    assert Ring(back, e, h, w) == s;
    assert Ring(back, e, h, w)[..n] == Bits(e, n) && s[..n] == Bits(data, n);
    BitsDetermine(e, data, n);
  }

  // ------------------------------------------------------------ shifts as arithmetic

  function Modulus(w: bool): (r: nat) { if w then 0x1_0000 else 0x100 }

  function SignedOf(x: DWord, w: bool): (r: int)
    requires x < Modulus(w)
  {
    if w then S16(x) else S8(x)
  }

  lemma Doubled8(data: DWord)
    ensures Left(data) / 0x100 % 2 == 1 <==> data % 0x100 >= 0x80
  {}

  lemma Doubled16(data: DWord)
    ensures Left(data) / 0x1_0000 % 2 == 1 <==> data % 0x1_0000 >= 0x8000
  {
    var q, t := data / 0x1_0000, data % 0x1_0000;
    var p := if t >= 0x8000 then 1 else 0;
    assert q % 0x8000 < 0x8000 && data == 0x1_0000 * q + t;
    LeftWraps(data, q, t);
    DivModUnique(Left(data), 0x1_0000, 2 * (q % 0x8000) + p, 2 * t - 0x1_0000 * p);
  }

  lemma LeftWraps(data: DWord, q: nat, t: nat)
    requires t < 0x1_0000 && data == 0x1_0000 * q + t
    ensures Left(data) == 0x2_0000 * (q % 0x8000) + 2 * t
  {
    var c := q / 0x8000;
    assert 2 * data == 0x1_0000_0000 * c + (0x2_0000 * (q % 0x8000) + 2 * t);
    DivModUnique(2 * data, 0x1_0000_0000, c, 0x2_0000 * (q % 0x8000) + 2 * t);
  }

  /** The bit that leaves the operand is its top bit, whatever is above it. */
  lemma TopLeaves(data: DWord, w: bool)
    ensures Bit(Left(data), Width(w)) <==> data % Modulus(w) >= Modulus(w) / 2
  {
    Pow2Values();
    if w { Doubled16(data); } else { Doubled8(data); }
  }

  lemma ShlOnce(data: DWord, f: Flags, w: bool, y: nat) returns (d: DWord, g: Flags)
    requires data % Modulus(w) == y % Modulus(w)
    ensures (d, g) == Once(Shl, data, f, w) && d % Modulus(w) == 2 * y % Modulus(w)
    ensures g.cf <==> y % Modulus(w) >= Modulus(w) / 2
  {
    ShlIs(data, f, w);
    var r := Once(Shl, data, f, w);
    d, g := r.0, r.1;
    TopLeaves(data, w);
    DoubledSame(data, y, Modulus(w));
  }

  lemma ShlIs(data: DWord, f: Flags, w: bool)
    ensures Once(Shl, data, f, w).0 == Left(data) && Once(Shl, data, f, w).1.cf == Bit(Left(data), Width(w))
  {}

  lemma DoubledSame(data: DWord, y: nat, m: nat)
    requires (m == 0x1_0000 || m == 0x100) && data % m == y % m
    ensures Left(data) % m == 2 * y % m
  {
    TwiceMod(data, m);
    TwiceMod(y, m);
  }

  lemma DoubleMod(y: nat, m: nat)
    requires m > 0
    ensures 2 * y % m == 2 * (y % m) % m
  {
    var q, r := y / m, y % m;
    var p, t := 2 * r / m, 2 * r % m;
    assert 2 * y == m * (2 * q + p) + t;
    DivModUnique(2 * y, m, 2 * q + p, t);
  }

  lemma TwiceMod(y: nat, m: nat)
    requires m == 0x1_0000 || m == 0x100
    ensures 2 * y % m == 2 * (y % m) % m && 2 * y % 0x1_0000_0000 % m == 2 * y % m
  {
    DoubleMod(y, m);
    ModOfMod(2 * y, m, 0x1_0000_0000 / m);
  }

  lemma TwicePow(x: nat, n: nat)
    requires n > 0
    ensures 2 * (x * Pow2(n - 1)) == x * Pow2(n)
  {}

  /** What SHL has made of the operand, and of CF, after n passes. */
  ghost predicate Shifted(data: DWord, w: bool, n: nat, d: DWord, g: Flags) {
    d % Modulus(w) == data * Pow2(n) % Modulus(w)
    && (n > 0 ==> (g.cf <==> data * Pow2(n - 1) % Modulus(w) >= Modulus(w) / 2))
  }

  lemma ShlNext(data: DWord, w: bool, n: nat, d: DWord, g: Flags)
    requires Shifted(data, w, n, d, g)
    ensures var (d', g') := Once(Shl, d, g, w); Shifted(data, w, n + 1, d', g')
  {
    var d', g' := ShlOnce(d, g, w, data * Pow2(n));
    TwicePow(data, n + 1);
  }

  lemma {:induction false} ShlRuns(data: DWord, f: Flags, w: bool, n: nat) returns (d: DWord, g: Flags)
    ensures After(Shl, data, f, w, n, d, g) && Shifted(data, w, n, d, g)
    decreases n
  {
    if n == 0 {
      d, g := data, f;
      NoPass(Shl, data, f, w);
    } else {
      d, g := ShlRuns(data, f, w, n - 1);
      OnePass(Shl, data, f, w, n - 1, d, g);
      ShlNext(data, w, n - 1, d, g);
      var r := Once(Shl, d, g, w);
      d, g := r.0, r.1;
    }
  }

  /** SHL by n is multiplication by 2^n modulo the operand's size; CF is the last bit that left it. */
  lemma ShlMultiplies(data: DWord, f: Flags, w: bool, n: nat)
    ensures var (d, g) := Repeated(Shl, data, f, w, n);
      d % Modulus(w) == data * Pow2(n) % Modulus(w)
      && (n > 0 ==> (g.cf <==> data * Pow2(n - 1) % Modulus(w) >= Modulus(w) / 2))
  {
    var d, g := ShlRuns(data, f, w, n);
    assert Repeated(Shl, data, f, w, n) == (d, g);
  }

  lemma HalfSigned(x: DWord, w: bool)
    requires x < Modulus(w)
    ensures x / 2 < Modulus(w) / 2
    ensures if x < Modulus(w) / 2 then SignedOf(x / 2, w) == SignedOf(x, w) / 2
            else SignedOf(x / 2 + Modulus(w) / 2, w) == SignedOf(x, w) / 2
    ensures (x % 2 == 1) == (SignedOf(x, w) % 2 == 1)
  {
    if w { HalfOf(x, 0x8000); } else { HalfOf(x, 0x80); }
  }

  lemma HalfOf(x: int, h: int)
    requires h == 0x8000 || h == 0x80
    ensures (x - 2 * h) / 2 == x / 2 - h && (x - 2 * h) % 2 == x % 2
  {}

  lemma TopBit(x: DWord, w: bool)
    requires x < Modulus(w)
    ensures Bit(x, Width(w) - 1) <==> x >= Modulus(w) / 2
  {
    Pow2Values();
  }

  lemma SarOnce(data: DWord, f: Flags, w: bool) returns (d: DWord, g: Flags)
    requires data < Modulus(w)
    ensures (d, g) == Once(Sar, data, f, w) && d < Modulus(w) && SignedOf(d, w) == SignedOf(data, w) / 2
    ensures g.cf == (SignedOf(data, w) % 2 == 1)
  {
    Pow2Values();
    var r := Once(Sar, data, f, w);
    d, g := r.0, r.1;
    TopBit(data, w);
    HalfSigned(data, w);
    OrTopIs(data / 2, w);
  }

  lemma ShrOnce(data: DWord, f: Flags, w: bool) returns (d: DWord, g: Flags)
    ensures (d, g) == Once(Shr, data, f, w) && d == data / 2 && g.cf == (data % 2 == 1)
  {
    var r := Once(Shr, data, f, w);
    d, g := r.0, r.1;
  }

  lemma {:induction false} SarRuns(data: DWord, f: Flags, w: bool, n: nat) returns (d: DWord, g: Flags)
    requires data < Modulus(w)
    ensures After(Sar, data, f, w, n, d, g) && d < Modulus(w) && SignedOf(d, w) == SignedOf(data, w) / Pow2(n)
    ensures n > 0 ==> g.cf == (SignedOf(data, w) / Pow2(n - 1) % 2 == 1)
    decreases n
  {
    if n == 0 {
      d, g := data, f;
      NoPass(Sar, data, f, w);
    } else {
      d, g := SarRuns(data, f, w, n - 1);
      OnePass(Sar, data, f, w, n - 1, d, g);
      d, g := SarOnce(d, g, w);
      DivDiv(SignedOf(data, w), Pow2(n - 1), 2);
    }
  }

  /** SAR by n is division of the signed operand by 2^n, rounding down; CF is the last bit lost. */
  lemma SarDivides(data: DWord, f: Flags, w: bool, n: nat)
    requires data < Modulus(w)
    ensures var (d, g) := Repeated(Sar, data, f, w, n);
      d < Modulus(w) && SignedOf(d, w) == SignedOf(data, w) / Pow2(n)
      && (n > 0 ==> g.cf == (SignedOf(data, w) / Pow2(n - 1) % 2 == 1))
  {
    var d, g := SarRuns(data, f, w, n);
    assert Repeated(Sar, data, f, w, n) == (d, g);
  }

  lemma {:induction false} ShrRuns(data: DWord, f: Flags, w: bool, n: nat) returns (d: DWord, g: Flags)
    ensures After(Shr, data, f, w, n, d, g) && d == data / Pow2(n)
    ensures n > 0 ==> g.cf == (data / Pow2(n - 1) % 2 == 1)
    decreases n
  {
    if n == 0 {
      d, g := data, f;
      NoPass(Shr, data, f, w);
    } else {
      d, g := ShrRuns(data, f, w, n - 1);
      OnePass(Shr, data, f, w, n - 1, d, g);
      d, g := ShrOnce(d, g, w);
      DivDiv(data, Pow2(n - 1), 2);
    }
  }

  /** SHR by n is division of the unsigned operand by 2^n; CF is the last bit lost. */
  lemma ShrDivides(data: DWord, f: Flags, w: bool, n: nat)
    ensures var (d, g) := Repeated(Shr, data, f, w, n);
      d == data / Pow2(n) && (n > 0 ==> g.cf == (data / Pow2(n - 1) % 2 == 1))
  {
    var d, g := ShrRuns(data, f, w, n);
    assert Repeated(Shr, data, f, w, n) == (d, g);
  }
}
