/** Repeated string instructions: the interpreter's element-by-element loop does what
    the instruction set promises for the whole block. */
module CpuStrings {
  import opened Basics
  import opened Cpu

  /** One pass of the loop takes c to c'. */
  ghost predicate TurnsTo(c: State, c': State) {
    Ok(c) && (c.failed || Fetch(c).failed || Handled(Fetch(c))) && c' == Turn(c)
  }

  /** Successive states of the loop. */
  ghost predicate Trace(t: seq<State>) {
    forall i :: 0 < i < |t| ==> TurnsTo(t[i - 1], t[i])
  }

  /** k passes of the loop take c to c'. */
  ghost predicate RunsTo(c: State, k: nat, c': State) {
    exists t :: Trace(t) && |t| == k + 1 && t[0] == c && t[k] == c'
  }

  /** A REP prefix has been taken and a string instruction is the next to be fetched. */
  ghost predicate Armed(c: State, op: StringOp, w: bool) {
    && Ok(c) && !c.failed && !c.repeating && c.prefix && c.rep != 0
    && Readable(c, c.ip, CSeg, false)
    && var opcode := Value(c, c.ip, CSeg, false);
       IsString(opcode) && OpOf(opcode) == op && w == (opcode % 2 == 1)
  }

  /** The state in which the instruction's first element is processed. */
  function Begun(c: State): (r: State)
    requires Ok(c) && Readable(c, c.ip, CSeg, false)
    ensures Ok(r)
  {
    var opcode := Value(c, c.ip, CSeg, false);
    c.(prefix := false, opcode := opcode, ip := Next(c.ip), wordSize := opcode % 2 == 1)
  }

  /** Between the elements of a repeated instruction. */
  ghost predicate Going(c: State, op: StringOp) {
    Ok(c) && !c.failed && c.repeating && !c.prefix && IsString(c.opcode) && OpOf(c.opcode) == op
    && c.wordSize == (c.opcode % 2 == 1)
  }

  lemma TurnIsElement(c: State, op: StringOp)
    requires Going(c, op)
    ensures TurnsTo(c, StringInstruction(c, op))
  {
    assert c.(wordSize := c.opcode % 2 == 1) == c;
  }

  lemma FirstTurn(c: State, op: StringOp, w: bool)
    requires Armed(c, op, w)
    ensures TurnsTo(c, StringInstruction(Begun(c), op))
  {
    assert Fetch(c).(wordSize := Fetch(c).opcode % 2 == 1) == Begun(c);
  }

  lemma NoPass(c: State)
    ensures RunsTo(c, 0, c)
  {
    assert Trace([c]);
  }

  lemma OneMore(c: State, k: nat, c1: State, c2: State)
    requires RunsTo(c, k, c1) && TurnsTo(c1, c2)
    ensures RunsTo(c, k + 1, c2)
  {
    var t :| Trace(t) && |t| == k + 1 && t[0] == c && t[k] == c1;
    var t' := t + [c2];
    forall i | 0 < i < |t'| ensures TurnsTo(t'[i - 1], t'[i]) {
      assert i < |t| ==> t'[i - 1] == t[i - 1] && t'[i] == t[i];
    }
    assert Trace(t');
  }

  /** The loop is deterministic. */
  lemma {:induction false} OneOutcome(c: State, k: nat, c1: State, c2: State)
    requires RunsTo(c, k, c1) && RunsTo(c, k, c2)
    ensures c1 == c2
  {
    var t :| Trace(t) && |t| == k + 1 && t[0] == c && t[k] == c1;
    var u :| Trace(u) && |u| == k + 1 && u[0] == c && u[k] == c2;
    SameTrace(t, u, k);
  }

  lemma {:induction false} SameTrace(t: seq<State>, u: seq<State>, i: nat)
    requires Trace(t) && Trace(u) && |t| == |u| > i && t[0] == u[0]
    ensures t[i] == u[i]
    decreases i
  {
    if i > 0 {
      SameTrace(t, u, i - 1);
      assert TurnsTo(t[i - 1], t[i]) && TurnsTo(u[i - 1], u[i]);
    }
  }

  // ------------------------------------------------------------ where the elements are

  /** The offset of the k-th element. */
  function Off(base: Word, step: int, k: nat): (r: Word) { (base + k * step) % 0x1_0000 }

  lemma OffNext(base: Word, step: int, k: nat)
    ensures (Off(base, step, k) + step) % 0x1_0000 == Off(base, step, k + 1)
  {
    assert base + (k + 1) * step == base + k * step + step;
  }

  function SourceBase(c: State): (r: Word)
    requires Ok(c)
  {
    c.regs[FirstS + if c.segmentOverride != -1 then c.segmentOverride else DSeg]
  }

  function Size(w: bool): (r: nat) { if w then 2 else 1 }

  /** Physical addresses of byte b of the k-th source and destination element. */
  function Src(c: State, k: nat, b: nat): (a: nat)
    requires Ok(c) && b < 2
    ensures a < MEMSIZE
  {
    var o := Off(c.regs[SI], Step(c), k);
    Physical(SourceBase(c), if b == 0 then o else Next(o))
  }

  function Dst(c: State, k: nat, b: nat): (a: nat)
    requires Ok(c) && b < 2
    ensures a < MEMSIZE
  {
    var o := Off(c.regs[DI], Step(c), k);
    Physical(c.regs[FirstS], if b == 0 then o else Next(o))
  }

  /** Whether a is one of the first n destination addresses. */
  ghost predicate Hit(c: State, n: nat, a: nat)
    requires Ok(c)
  {
    exists k, b :: 0 <= k < n && 0 <= b < Size(c.wordSize) && Dst(c, k, b) == a
  }

  // ------------------------------------------------------------ moving and filling

  /** Byte b of the k-th element to be stored. */
  function StoredByte(c: State, op: StringOp, k: nat, b: nat): (r: Byte)
    requires Ok(c) && b < 2
  {
    if op.Movs? then c.ram[Src(c, k, b)] else if b == 0 then c.regs[AX] % 0x100 else c.regs[AX] / 0x100
  }

  /** All source bytes are initialised, no destination byte is below the program, none is
      written twice, and none is a source of a later element. */
  ghost predicate Legal(c: State, op: StringOp, n: nat)
    requires Ok(c)
  {
    var m := Size(c.wordSize);
    && (forall k, b :: 0 <= k < n && 0 <= b < m ==> LowLimit(c) <= Dst(c, k, b))
    && (forall k, b, k', b' :: 0 <= k < n && 0 <= b < m && 0 <= k' < n && 0 <= b' < m && Dst(c, k, b) == Dst(c, k', b')
          ==> k == k' && b == b')
    && (op.Movs? ==> forall k, b :: 0 <= k < n && 0 <= b < m ==>
           c.initialized[Src(c, k, b)] && !Hit(c, k, Src(c, k, b)))
  }

  /** Memory after the first j elements: the block copied or filled, everything else as it was. */
  ghost predicate Stored(c: State, op: StringOp, j: nat, ram: seq<Byte>)
    requires Ok(c)
  {
    && |ram| == MEMSIZE
    && (forall k, b :: 0 <= k < j && 0 <= b < Size(c.wordSize) ==> ram[Dst(c, k, b)] == StoredByte(c, op, k, b))
    && forall a :: 0 <= a < MEMSIZE && !Hit(c, j, a) ==> ram[a] == c.ram[a]
  }

  ghost predicate Marked(c: State, j: nat, initialized: seq<bool>)
    requires Ok(c)
  {
    |initialized| == MEMSIZE && forall a :: 0 <= a < MEMSIZE ==> initialized[a] == (c.initialized[a] || Hit(c, j, a))
  }

  /** The registers after j of n elements: CX counted down, the index registers moved. */
  function RegsAt(c: State, op: StringOp, n: Word, j: nat): (r: seq<Word>)
    requires Ok(c) && j <= n
    ensures |r| == 12 && r[CX] == n - j && r[DI] == Off(c.regs[DI], Step(c), j)
    ensures r[SI] == if op.Movs? || op.Cmps? then Off(c.regs[SI], Step(c), j) else c.regs[SI]
    ensures forall i :: 0 <= i < 12 && i != CX && i != SI && i != DI ==> r[i] == c.regs[i]
  {
    c.regs[CX := n - j][DI := Off(c.regs[DI], Step(c), j)]
          [SI := if op.Movs? || op.Cmps? then Off(c.regs[SI], Step(c), j) else c.regs[SI]]
  }

  /** The state after j elements of a move or fill that started with CX = n. */
  ghost predicate Reached(c: State, op: StringOp, n: Word, j: nat, c': State)
    requires Ok(c)
  {
    && Ok(c') && j <= n && c.regs[CX] == n
    && c' == c.(regs := RegsAt(c, op, n, j),
                segment := if op.Movs? && j > 0 then DSeg else c.segment,
                ram := c'.ram, initialized := c'.initialized,
                repeating := if j == 0 then c.repeating else j < n)
    && Stored(c, op, j, c'.ram) && Marked(c, j, c'.initialized)
  }

  // the two bytes of an element, written one after the other
  function Put(ram: seq<Byte>, base: Word, o: Word, v: Word, w: bool): (r: seq<Byte>)
    requires |ram| == MEMSIZE
    ensures |r| == MEMSIZE
  {
    var r := ram[Physical(base, o) := v % 0x100];
    if w then r[Physical(base, Next(o)) := v / 0x100] else r
  }

  function Mark(initialized: seq<bool>, base: Word, o: Word, w: bool): (r: seq<bool>)
    requires |initialized| == MEMSIZE
    ensures |r| == MEMSIZE
  {
    var r := initialized[Physical(base, o) := true];
    if w then r[Physical(base, Next(o)) := true] else r
  }

  lemma WriteIsPut(c: State, v: Word, o: Word)
    requires Ok(c) && !c.failed && (c.wordSize || v < 0x100)
    requires LowLimit(c) <= Physical(c.regs[FirstS], o)
      && (c.wordSize ==> LowLimit(c) <= Physical(c.regs[FirstS], Next(o)))
    ensures Write(c, v, o, ESeg, c.wordSize)
         == c.(ram := Put(c.ram, c.regs[FirstS], o, v, c.wordSize),
               initialized := Mark(c.initialized, c.regs[FirstS], o, c.wordSize))
  {}

  lemma HitNext(c: State, j: nat, a: nat)
    requires Ok(c)
    ensures Hit(c, j + 1, a) <==> Hit(c, j, a) || a == Dst(c, j, 0) || (c.wordSize && a == Dst(c, j, 1))
  {
    if Hit(c, j + 1, a) {
      var k, b :| 0 <= k < j + 1 && 0 <= b < Size(c.wordSize) && Dst(c, k, b) == a;
      if k < j { assert Hit(c, j, a); }
    }
  }

  lemma PutStores(c: State, op: StringOp, n: nat, j: nat, ram: seq<Byte>, v: Word)
    requires Ok(c) && Legal(c, op, n) && j < n && Stored(c, op, j, ram)
    requires v % 0x100 == StoredByte(c, op, j, 0) && (c.wordSize ==> v / 0x100 == StoredByte(c, op, j, 1))
    ensures Stored(c, op, j + 1, Put(ram, c.regs[FirstS], Off(c.regs[DI], Step(c), j), v, c.wordSize))
  {
    var r := Put(ram, c.regs[FirstS], Off(c.regs[DI], Step(c), j), v, c.wordSize);
    forall k, b | 0 <= k < j + 1 && 0 <= b < Size(c.wordSize)
      ensures r[Dst(c, k, b)] == StoredByte(c, op, k, b)
    {
      if k < j {
        assert Dst(c, k, b) != Dst(c, j, 0);
        assert c.wordSize ==> Dst(c, k, b) != Dst(c, j, 1);
      } else if c.wordSize {
        assert Dst(c, j, 0) != Dst(c, j, 1);
      }
    }
    forall a | 0 <= a < MEMSIZE && !Hit(c, j + 1, a) ensures r[a] == c.ram[a] { HitNext(c, j, a); }
  }

  lemma MarkMarks(c: State, j: nat, initialized: seq<bool>)
    requires Ok(c) && Marked(c, j, initialized)
    ensures Marked(c, j + 1, Mark(initialized, c.regs[FirstS], Off(c.regs[DI], Step(c), j), c.wordSize))
  {
    var r := Mark(initialized, c.regs[FirstS], Off(c.regs[DI], Step(c), j), c.wordSize);
    forall a | 0 <= a < MEMSIZE ensures r[a] == (c.initialized[a] || Hit(c, j + 1, a)) { HitNext(c, j, a); }
  }

  lemma StoSIsPut(c: State, j: nat, s: State, v: Word)
    requires Ok(c) && Ok(s) && !s.failed
    requires s.f == c.f && s.wordSize == c.wordSize && s.loadSegment == c.loadSegment
    requires s.regs[FirstS] == c.regs[FirstS] && s.regs[DI] == Off(c.regs[DI], Step(c), j)
    requires LowLimit(c) <= Dst(c, j, 0) && (c.wordSize ==> LowLimit(c) <= Dst(c, j, 1)) && (c.wordSize || v < 0x100)
    ensures var es, o := c.regs[FirstS], Off(c.regs[DI], Step(c), j);
      StoS(s, v) == s.(regs := s.regs[DI := Off(c.regs[DI], Step(c), j + 1)],
                       ram := Put(s.ram, es, o, v, c.wordSize), initialized := Mark(s.initialized, es, o, c.wordSize))
  {
    OffNext(c.regs[DI], Step(c), j);
    assert Step(s) == Step(c);
    WriteIsPut(Moved(s, DI), v, s.regs[DI]);
  }

  /** Storing the j-th element. */
  lemma StoreStep(c: State, op: StringOp, n: nat, j: nat, s: State, v: Word)
    requires Ok(c) && Legal(c, op, n) && j < n && Ok(s) && !s.failed
    requires s.f == c.f && s.wordSize == c.wordSize && s.loadSegment == c.loadSegment
    requires s.regs[FirstS] == c.regs[FirstS] && s.regs[DI] == Off(c.regs[DI], Step(c), j)
    requires Stored(c, op, j, s.ram) && Marked(c, j, s.initialized) && (c.wordSize || v < 0x100)
    requires v % 0x100 == StoredByte(c, op, j, 0) && (c.wordSize ==> v / 0x100 == StoredByte(c, op, j, 1))
    ensures var r := StoS(s, v);
      && r == s.(regs := s.regs[DI := Off(c.regs[DI], Step(c), j + 1)], ram := r.ram, initialized := r.initialized)
      && Stored(c, op, j + 1, r.ram) && Marked(c, j + 1, r.initialized)
  {
    assert LowLimit(c) <= Dst(c, j, 0) && (c.wordSize ==> LowLimit(c) <= Dst(c, j, 1));
    StoSIsPut(c, j, s, v);
    PutStores(c, op, n, j, s.ram, v);
    MarkMarks(c, j, s.initialized);
  }

  /** The source of the j-th element of a move is still as it was. */
  lemma SourceIntact(c: State, n: Word, j: nat, s: State, b: nat)
    requires Ok(c) && Legal(c, Movs, n) && Reached(c, Movs, n, j, s) && j < n && b < Size(c.wordSize)
    ensures s.initialized[Src(c, j, b)] && s.ram[Src(c, j, b)] == StoredByte(c, Movs, j, b)
  {
    var a := Src(c, j, b);
    assert c.initialized[a] && !Hit(c, j, a);
  }

  lemma LoadAt(c: State, j: nat, s: State)
    requires Ok(c) && Ok(s) && s.f == c.f && s.wordSize == c.wordSize && s.segmentOverride == c.segmentOverride
    requires SourceBase(s) == SourceBase(c) && s.regs[SI] == Off(c.regs[SI], Step(c), j)
    requires s.initialized[Src(c, j, 0)] && (c.wordSize ==> s.initialized[Src(c, j, 1)])
    ensures var (r, v) := LodS(s);
      && r == s.(regs := s.regs[SI := Off(c.regs[SI], Step(c), j + 1)], segment := DSeg)
      && v == if c.wordSize then TwoBytes(s.ram[Src(c, j, 0)], s.ram[Src(c, j, 1)]) else s.ram[Src(c, j, 0)]
  {
    OffNext(c.regs[SI], Step(c), j);
    var r := Moved(s, SI).(segment := DSeg);
    assert Address(r, s.regs[SI], -1) == Src(c, j, 0);
    assert Address(r, Next(s.regs[SI]), -1) == Src(c, j, 1);
  }

  /** Loading the j-th element of a move. */
  lemma LoadStep(c: State, n: Word, j: nat, s: State)
    requires Ok(c) && Legal(c, Movs, n) && Reached(c, Movs, n, j, s) && j < n && !c.failed
    ensures var (r, v) := LodS(s);
      && r == s.(regs := s.regs[SI := Off(c.regs[SI], Step(c), j + 1)], segment := DSeg)
      && v % 0x100 == StoredByte(c, Movs, j, 0) && (c.wordSize ==> v / 0x100 == StoredByte(c, Movs, j, 1))
      && (c.wordSize || v < 0x100)
  {
    SourceIntact(c, n, j, s, 0);
    if c.wordSize { SourceIntact(c, n, j, s, 1); }
    LoadAt(c, j, s);
  }

  /** The j-th element moved, before CX is counted down. */
  lemma MovsElement(c: State, n: Word, j: nat, s: State)
    requires Ok(c) && Legal(c, Movs, n) && !c.failed && Reached(c, Movs, n, j, s) && j < n
    ensures ElementDone(c, Movs, n, j, Element(s, Movs))
  {
    LoadStep(c, n, j, s);
    var (r, v) := LodS(s);
    StoreStep(c, Movs, n, j, r, v);
    var e := StoS(r, v);
    assert Element(s, Movs) == e;
    assert e.regs[CX := n - j - 1] == RegsAt(c, Movs, n, j + 1);
  }

  lemma StosElement(c: State, n: Word, j: nat, s: State)
    requires Ok(c) && Legal(c, Stos, n) && !c.failed && Reached(c, Stos, n, j, s) && j < n
    ensures ElementDone(c, Stos, n, j, Element(s, Stos))
  {
    StoreStep(c, Stos, n, j, s, Accum(s));
    var e := StoS(s, Accum(s));
    assert e.regs[CX := n - j - 1] == RegsAt(c, Stos, n, j + 1);
  }

  ghost predicate ElementDone(c: State, op: StringOp, n: Word, j: nat, e: State)
    requires Ok(c) && j < n
  {
    && Ok(e) && !e.failed && e.regs[CX] == n - j && e.rep == c.rep
    && Reached(c, op, n, j + 1, e.(regs := e.regs[CX := n - j - 1], repeating := j + 1 < n))
  }

  /** One more element of a move or fill. */
  lemma BlockStep(c: State, op: StringOp, n: Word, j: nat, s: State)
    requires Ok(c) && (op.Movs? || op.Stos?) && Legal(c, op, n) && c.rep == 2 && !c.failed
    requires Reached(c, op, n, j, s) && j < n
    ensures Reached(c, op, n, j + 1, StringInstruction(s, op))
  {
    if op.Movs? { MovsElement(c, n, j, s); } else { StosElement(c, n, j, s); }
    var e := Element(s, op);
    assert StringInstruction(s, op) == DoRep(e, false);
  }

  lemma ReachedGoes(c: State, op: StringOp, n: Word, j: nat, s: State)
    requires Ok(c) && Reached(c, op, n, j, s) && 0 < j < n
    requires !c.failed && !c.prefix && IsString(c.opcode) && OpOf(c.opcode) == op && c.wordSize == (c.opcode % 2 == 1)
    ensures Going(s, op)
  {}

  lemma ReachedAtStart(c: State, op: StringOp, n: Word)
    requires Ok(c) && c.regs[CX] == n
    ensures Reached(c, op, n, 0, c)
  {
    assert c.regs == RegsAt(c, op, n, 0);
  }

  lemma BlockTurn(c: State, op: StringOp, w: bool, n: Word, j: nat, s0: State) returns (s: State)
    requires Armed(c, op, w) && (op.Movs? || op.Stos?) && c.rep == 2
    requires n == c.regs[CX] && Legal(Begun(c), op, n) && j < n
    requires if j == 0 then s0 == c else Reached(Begun(c), op, n, j, s0)
    ensures TurnsTo(s0, s) && Reached(Begun(c), op, n, j + 1, s)
  {
    var b := Begun(c);
    if j == 0 {
      FirstTurn(c, op, w);
      ReachedAtStart(b, op, n);
      BlockStep(b, op, n, 0, b);
      s := StringInstruction(b, op);
    } else {
      ReachedGoes(b, op, n, j, s0);
      TurnIsElement(s0, op);
      BlockStep(b, op, n, j, s0);
      s := StringInstruction(s0, op);
    }
  }

  lemma BlockPass(c: State, op: StringOp, w: bool, n: Word, j: nat, s0: State) returns (s: State)
    requires Armed(c, op, w) && (op.Movs? || op.Stos?) && c.rep == 2
    requires n == c.regs[CX] && Legal(Begun(c), op, n) && j < n
    requires if j == 0 then s0 == c else Reached(Begun(c), op, n, j, s0)
    requires RunsTo(c, j, s0)
    ensures RunsTo(c, j + 1, s) && Reached(Begun(c), op, n, j + 1, s)
  {
    s := BlockTurn(c, op, w, n, j, s0);
    OneMore(c, j, s0, s);
  }

  /** REP MOVS and REP STOS: the j-th of the passes, exactly CX of them, has copied or filled
      j elements of the block and nothing else. */
  lemma {:induction false} RepBlock(c: State, op: StringOp, w: bool, n: Word, j: nat) returns (s: State)
    requires Armed(c, op, w) && (op.Movs? || op.Stos?) && c.rep == 2
    requires n == c.regs[CX] && Legal(Begun(c), op, n) && 1 <= j <= n
    ensures RunsTo(c, j, s) && Reached(Begun(c), op, n, j, s)
    decreases j
  {
    if j == 1 {
      NoPass(c);
      s := BlockPass(c, op, w, n, 0, c);
    } else {
      var s0 := RepBlock(c, op, w, n, j - 1);
      s := BlockPass(c, op, w, n, j - 1, s0);
    }
  }

  /** With CX = 0 a repeated string instruction is passed over: nothing is touched. */
  lemma RepOfNothing(c: State, op: StringOp, w: bool)
    requires Armed(c, op, w) && (c.rep == 2 || Compares(op)) && c.regs[CX] == 0
    ensures RunsTo(c, 1, Begun(c)) && !Begun(c).repeating
  {
    FirstTurn(c, op, w);
    NoPass(c);
    OneMore(c, 0, c, Begun(c));
  }

  /** REPNE is refused before an instruction that does not compare. */
  lemma RepneWantsAComparison(c: State, op: StringOp, w: bool)
    requires Armed(c, op, w) && c.rep == 1 && !Compares(op)
    ensures exists c' :: TurnsTo(c, c') && c'.failed
  {
    FirstTurn(c, op, w);
    assert TurnsTo(c, StringInstruction(Begun(c), op));
  }

  // ------------------------------------------------------------ prefixes

  /** An instruction's head: at a pass that starts a new instruction, code is the opcode. */
  ghost predicate Heads(c: State, at: Word, code: Byte) {
    Ok(c) && Readable(c, at, CSeg, false) && Value(c, at, CSeg, false) == code
  }

  lemma FirstPrefix(c: State, o: Byte)
    requires Ok(c) && !c.failed && !c.repeating && !c.prefix && IsOverride(o) && Heads(c, c.ip, o)
    ensures TurnsTo(c, c.(ip := Next(c.ip), segmentOverride := o / 8 % 4, opcode := o, prefix := true,
                          wordSize := false, rep := 0))
  {}

  lemma SecondPrefix(c: State, r: Byte)
    requires Ok(c) && !c.failed && !c.repeating && c.prefix && c.rep == 0 && IsRep(r) && Heads(c, c.ip, r)
    ensures TurnsTo(c, c.(ip := Next(c.ip), opcode := r, prefix := true, wordSize := r % 2 == 1,
                          rep := if r == 0xf2 then 1 else 2))
  {}

  /** A segment override before REP is kept for the string instruction that follows. */
  lemma OverrideThenRep(c: State, o: Byte, r: Byte, s: Byte)
    requires Ok(c) && !c.failed && !c.repeating && IsOverride(o) && IsRep(r) && IsString(s)
    requires Heads(c, c.ip, o) && Heads(c, Next(c.ip), r) && Heads(c, Next(Next(c.ip)), s)
    requires !c.prefix
    ensures var c2 := c.(ip := Next(Next(c.ip)), segmentOverride := o / 8 % 4, opcode := r, prefix := true,
                         wordSize := r % 2 == 1, rep := if r == 0xf2 then 1 else 2);
      RunsTo(c, 2, c2) && Armed(c2, OpOf(s), s % 2 == 1)
  {
    var c1 := c.(ip := Next(c.ip), segmentOverride := o / 8 % 4, opcode := o,
                  prefix := true, wordSize := false, rep := 0);
    FirstPrefix(c, o);
    var c2 := c1.(ip := Next(c1.ip), opcode := r, wordSize := r % 2 == 1, rep := if r == 0xf2 then 1 else 2);
    SecondPrefix(c1, r);
    NoPass(c);
    OneMore(c, 0, c, c1);
    OneMore(c, 1, c1, c2);
  }

  /** After REP only a string instruction is accepted. */
  lemma NothingElseAfterRep(c: State, code: Byte)
    requires Ok(c) && !c.failed && !c.repeating && c.prefix && c.rep != 0 && Heads(c, c.ip, code)
    ensures exists c' :: TurnsTo(c, c') && (!IsString(code) ==> c'.failed && c'.ram == c.ram && c'.regs == c.regs)
  {
    assert TurnsTo(c, Turn(c));
  }
}
