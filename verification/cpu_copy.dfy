/** Ordinary blocks: with DF clear and no wrap-around, REP MOVS is a memory copy and
    REP STOS a fill. */
module CpuCopy {
  import opened Basics
  import opened Cpu
  import opened CpuStrings

  /** The physical address of the first byte of each block. */
  function Source(c: State): (r: nat)
    requires Ok(c)
  {
    (SourceBase(c) as int) * 16 + c.regs[SI]
  }

  function Destination(c: State): (r: nat)
    requires Ok(c)
  {
    (c.regs[FirstS] as int) * 16 + c.regs[DI]
  }

  /** A block of len bytes that runs upwards inside its segment and inside memory. */
  predicate Upward(offset: Word, address: nat, len: nat) {
    offset + len <= 0x1_0000 && address + len <= MEMSIZE
  }

  predicate Plain(c: State, op: StringOp, len: nat)
    requires Ok(c)
  {
    && !c.f.df && Upward(c.regs[DI], Destination(c), len) && LowLimit(c) <= Destination(c)
    && (op.Movs? ==> Upward(c.regs[SI], Source(c), len))
    && (op.Movs? ==> forall a :: Source(c) <= a < Source(c) + len ==> c.initialized[a])
    && (op.Movs? ==> Destination(c) <= Source(c) || Source(c) + len <= Destination(c))
  }

  lemma UpwardAt(base: Word, offset: Word, w: bool, n: nat, k: nat, b: nat)
    requires Upward(offset, base * 16 + offset, n * Size(w)) && k < n && b < Size(w)
    ensures var o := Off(offset, Size(w), k);
      Physical(base, if b == 0 then o else Next(o)) == base * 16 + offset + k * Size(w) + b
  {
    assert (k + 1) * Size(w) <= n * Size(w);
    assert (k + 1) * Size(w) == k * Size(w) + Size(w);
    assert Off(offset, Size(w), k) == offset + k * Size(w);
  }

  /** The byte b of element k that is x bytes into a block. */
  lemma Divided(w: bool, n: nat, x: nat) returns (k: nat, b: nat)
    requires x < n * Size(w)
    ensures k < n && b < Size(w) && x == k * Size(w) + b
  {
    if w { k, b := x / 2, x % 2; } else { k, b := x, 0; }
  }

  lemma HitsAre(c: State, n: nat, j: nat, a: nat)
    requires Ok(c) && !c.f.df && Upward(c.regs[DI], Destination(c), n * Size(c.wordSize)) && j <= n
    ensures Hit(c, j, a) <==> Destination(c) <= a < Destination(c) + j * Size(c.wordSize)
  {
    var m := Size(c.wordSize);
    if Hit(c, j, a) {
      var k, b :| 0 <= k < j && 0 <= b < m && Dst(c, k, b) == a;
      UpwardAt(c.regs[FirstS], c.regs[DI], c.wordSize, n, k, b);
      assert (k + 1) * m <= j * m;
    }
    if Destination(c) <= a < Destination(c) + j * m {
      var k, b := Divided(c.wordSize, j, a - Destination(c));
      UpwardAt(c.regs[FirstS], c.regs[DI], c.wordSize, n, k, b);
      assert Dst(c, k, b) == a;
    }
  }

  lemma PlainIsLegal(c: State, op: StringOp, n: nat)
    requires Ok(c) && (op.Movs? || op.Stos?) && Plain(c, op, n * Size(c.wordSize))
    ensures Legal(c, op, n)
  {
    var m := Size(c.wordSize);
    forall k, b | 0 <= k < n && 0 <= b < m
      ensures Dst(c, k, b) == Destination(c) + k * m + b && LowLimit(c) <= Dst(c, k, b)
    {
      UpwardAt(c.regs[FirstS], c.regs[DI], c.wordSize, n, k, b);
    }
    if op.Movs? {
      forall k, b | 0 <= k < n && 0 <= b < m
        ensures c.initialized[Src(c, k, b)] && !Hit(c, k, Src(c, k, b))
      {
        UpwardAt(SourceBase(c), c.regs[SI], c.wordSize, n, k, b);
        HitsAre(c, n, k, Src(c, k, b));
        assert (k + 1) * m <= n * m;
      }
    }
  }

  /** What the byte at a ought to be after the copy or fill of len bytes. */
  function Block(c: State, op: StringOp, len: nat, a: nat): (r: Byte)
    requires Ok(c) && a < MEMSIZE && Plain(c, op, len)
  {
    var i := a - Destination(c);
    if !(0 <= i < len) then c.ram[a]
    else if op.Movs? then c.ram[Source(c) + i]
    else if c.wordSize && i % 2 == 1 then c.regs[AX] / 0x100
    else c.regs[AX] % 0x100
  }

  lemma Inside(w: bool, n: nat, k: nat, b: nat)
    requires k < n && b < Size(w)
    ensures k * Size(w) + b < n * Size(w) && (w ==> (k * Size(w) + b) % 2 == b)
  {
    if w { assert k * 2 + b < n * 2; } else { assert k * 1 + b < n * 1; }
  }

  lemma ElementByte(c: State, op: StringOp, n: nat, k: nat, b: nat)
    requires Ok(c) && (op.Movs? || op.Stos?) && Plain(c, op, n * Size(c.wordSize)) && k < n && b < Size(c.wordSize)
    ensures Dst(c, k, b) == Destination(c) + k * Size(c.wordSize) + b
    ensures StoredByte(c, op, k, b) == Block(c, op, n * Size(c.wordSize), Dst(c, k, b))
  {
    UpwardAt(c.regs[FirstS], c.regs[DI], c.wordSize, n, k, b);
    Inside(c.wordSize, n, k, b);
    if op.Movs? { UpwardAt(SourceBase(c), c.regs[SI], c.wordSize, n, k, b); }
  }

  lemma PlainStored(c: State, op: StringOp, n: nat, ram: seq<Byte>, a: nat)
    requires Ok(c) && (op.Movs? || op.Stos?) && Plain(c, op, n * Size(c.wordSize))
      && Stored(c, op, n, ram) && a < MEMSIZE
    ensures ram[a] == Block(c, op, n * Size(c.wordSize), a)
  {
    HitsAre(c, n, n, a);
    if Hit(c, n, a) {
      var k, b := Divided(c.wordSize, n, a - Destination(c));
      ElementByte(c, op, n, k, b);
      assert ram[Dst(c, k, b)] == StoredByte(c, op, k, b);
    }
  }

  /** All of memory after a plain copy or fill. */
  lemma PlainMemory(c: State, op: StringOp, n: nat, ram: seq<Byte>, block: seq<Byte>)
    requires Ok(c) && (op.Movs? || op.Stos?) && Plain(c, op, n * Size(c.wordSize)) && Stored(c, op, n, ram)
    requires |block| == n * Size(c.wordSize)
    requires forall i :: 0 <= i < |block| ==> block[i] == Block(c, op, |block|, Destination(c) + i)
    ensures ram == c.ram[..Destination(c)] + block + c.ram[Destination(c) + |block|..]
  {
    forall a | 0 <= a < MEMSIZE
      ensures ram[a] == if Destination(c) <= a < Destination(c) + |block| then block[a - Destination(c)] else c.ram[a]
    {
      PlainStored(c, op, n, ram, a);
    }
    Assembled(c.ram, block, Destination(c), ram);
  }

  lemma Assembled(ram: seq<Byte>, block: seq<Byte>, d: nat, r: seq<Byte>)
    requires |r| == |ram| && d + |block| <= |ram|
    requires forall a :: 0 <= a < |ram| ==> r[a] == if d <= a < d + |block| then block[a - d] else ram[a]
    ensures r == ram[..d] + block + ram[d + |block|..]
  {}

  /** ram is c's memory with len bytes at Source copied to Destination. */
  ghost predicate Copied(c: State, len: nat, ram: seq<Byte>)
    requires Ok(c) && Plain(c, Movs, len)
  {
    ram == c.ram[..Destination(c)] + c.ram[Source(c)..Source(c) + len] + c.ram[Destination(c) + len..]
  }

  lemma BegunPlain(c: State, op: StringOp, w: bool, len: nat)
    requires Armed(c, op, w) && Plain(c, op, len)
    ensures Plain(Begun(c), op, len) && Begun(c).wordSize == w && Begun(c).ram == c.ram
    ensures Destination(Begun(c)) == Destination(c) && Source(Begun(c)) == Source(c)
  {}

  lemma Moves(c: State, n: nat, ram: seq<Byte>)
    requires Ok(c) && Plain(c, Movs, n * Size(c.wordSize)) && Stored(c, Movs, n, ram)
    ensures Copied(c, n * Size(c.wordSize), ram)
  {
    PlainMemory(c, Movs, n, ram, c.ram[Source(c)..Source(c) + n * Size(c.wordSize)]);
  }

  lemma CopiedFrom(c: State, w: bool, len: nat, ram: seq<Byte>)
    requires Armed(c, Movs, w) && Plain(c, Movs, len) && Plain(Begun(c), Movs, len)
    ensures Copied(Begun(c), len, ram) <==> Copied(c, len, ram)
  {
    BegunPlain(c, Movs, w, len);
  }

  /** REP MOVS copies a plain block, also onto an overlapping lower one. */
  lemma RepMovsCopies(c: State, w: bool, n: Word) returns (s: State)
    requires Armed(c, Movs, w) && c.rep == 2 && n == c.regs[CX] > 0 && Plain(c, Movs, n * Size(w))
    ensures RunsTo(c, n, s) && s.regs == RegsAt(Begun(c), Movs, n, n) && s.f == c.f && !s.repeating
    ensures Copied(c, n * Size(w), s.ram)
  {
    BegunPlain(c, Movs, w, n * Size(w));
    PlainIsLegal(Begun(c), Movs, n);
    s := RepBlock(c, Movs, w, n, n);
    Moves(Begun(c), n, s.ram);
    CopiedFrom(c, w, n * Size(w), s.ram);
  }

  /** AL over and over, or for words AL and AH in turn. */
  function Filling(ax: Word, w: bool, len: nat): (s: seq<Byte>)
    ensures |s| == len
  {
    seq(len, i requires 0 <= i => if w && i % 2 == 1 then ax / 0x100 else ax % 0x100)
  }

  lemma Fills(c: State, n: nat, ram: seq<Byte>)
    requires Ok(c) && Plain(c, Stos, n * Size(c.wordSize)) && Stored(c, Stos, n, ram)
    ensures var len := n * Size(c.wordSize);
      ram == c.ram[..Destination(c)] + Filling(c.regs[AX], c.wordSize, len) + c.ram[Destination(c) + len..]
  {
    PlainMemory(c, Stos, n, ram, Filling(c.regs[AX], c.wordSize, n * Size(c.wordSize)));
  }

  /** REP STOS fills a plain block with AL, or with AL and AH in turn. */
  lemma RepStosFills(c: State, w: bool, n: Word) returns (s: State)
    requires Armed(c, Stos, w) && c.rep == 2 && n == c.regs[CX] > 0 && Plain(c, Stos, n * Size(w))
    ensures RunsTo(c, n, s) && s.regs == RegsAt(Begun(c), Stos, n, n) && s.f == c.f && !s.repeating
    ensures var len := n * Size(w);
      s.ram == c.ram[..Destination(c)] + Filling(c.regs[AX], w, len) + c.ram[Destination(c) + len..]
  {
    BegunPlain(c, Stos, w, n * Size(w));
    PlainIsLegal(Begun(c), Stos, n);
    s := RepBlock(c, Stos, w, n, n);
    Fills(Begun(c), n, s.ram);
  }
}
