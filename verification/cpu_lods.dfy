/** The string instructions without a repeat prefix, and REP LODS. */
module CpuLods {
  import opened Basics
  import opened Cpu
  import opened CpuStrings
  import opened CpuSearch

  // ------------------------------------------------------------ without a prefix

  /** The same state with REP and a count of one. */
  function Once(c: State): (r: State)
    requires Ok(c)
    ensures Ok(r)
  {
    c.(rep := 2, regs := c.regs[CX := 1])
  }

  /** The fields that a prefix changes put back. */
  function Unprefixed(c: State, r: State): (u: State)
    requires Ok(c) && Ok(r)
  {
    r.(rep := c.rep, repeating := c.repeating, regs := r.regs[CX := c.regs[CX]])
  }

  lemma StepIgnores(c: State)
    requires Ok(c)
    ensures Step(Once(c)) == Step(c) && LowLimit(Once(c)) == LowLimit(c)
  {}

  lemma MovedOnce(c: State, r: nat)
    requires Ok(c) && r < 8 && r != CX
    ensures Moved(Once(c), r) == Once(Moved(c, r))
  {
    assert Moved(Once(c), r).regs == Once(Moved(c, r)).regs;
  }

  lemma LodSOnce(c: State)
    requires Ok(c)
    ensures LodS(Once(c)) == (Once(LodS(c).0), LodS(c).1)
  {
    MovedOnce(c, SI);
  }

  lemma LodDISOnce(c: State)
    requires Ok(c)
    ensures LodDIS(Once(c)) == (Once(LodDIS(c).0), LodDIS(c).1)
  {
    MovedOnce(c, DI);
  }

  lemma WriteByteOnce(c: State, v: Byte, o: Word)
    requires Ok(c)
    ensures WriteByte(Once(c), v, o, ESeg) == Once(WriteByte(c, v, o, ESeg))
  {}

  lemma WriteOnce(c: State, v: Word, o: Word, w: bool)
    requires Ok(c)
    ensures Write(Once(c), v, o, ESeg, w) == Once(Write(c, v, o, ESeg, w))
  {
    WriteByteOnce(c, v % 0x100, o);
    WriteByteOnce(WriteByte(c, v % 0x100, o, ESeg), v / 0x100, Next(o));
  }

  lemma StoSOnce(c: State, v: Word)
    requires Ok(c)
    ensures StoS(Once(c), v) == Once(StoS(c, v))
  {
    MovedOnce(c, DI);
    WriteOnce(Moved(c, DI), v, c.regs[DI], c.wordSize);
  }

  /** An element is processed alike with a prefix and without. */
  lemma ElementOnce(c: State, op: StringOp)
    requires Ok(c)
    ensures Element(Once(c), op) == Once(Element(c, op))
  {
    match op
    case Movs =>
      LodSOnce(c);
      StoSOnce(LodS(c).0, LodS(c).1);
    case Stos => StoSOnce(c, Accum(c));
    case Lods =>
      LodSOnce(c);
      assert Element(Once(c), op).regs == Once(Element(c, op)).regs;
    case Cmps =>
      LodSOnce(c);
      LodDISOnce(LodS(c).0);
    case Scas => LodDISOnce(c);
  }

  predicate SameCount(c: State, e: State)
    requires Ok(c) && Ok(e)
  {
    e.regs[CX] == c.regs[CX] && e.rep == c.rep && e.repeating == c.repeating
  }

  lemma WriteKeeps(c: State, v: Word, o: Word, w: bool)
    requires Ok(c)
    ensures SameCount(c, Write(c, v, o, ESeg, w))
  {}

  lemma StoSKeeps(c: State, v: Word)
    requires Ok(c)
    ensures SameCount(c, StoS(c, v))
  {
    WriteKeeps(Moved(c, DI), v, c.regs[DI], c.wordSize);
  }

  lemma LodSKeeps(c: State)
    requires Ok(c)
    ensures SameCount(c, LodS(c).0) && SameCount(c, LodDIS(c).0)
  {}

  lemma ElementKeeps(c: State, op: StringOp)
    requires Ok(c)
    ensures SameCount(c, Element(c, op))
  {
    var c1 := LodS(c).0;
    LodSKeeps(c);
    match op
    case Movs => StoSKeeps(c1, LodS(c).1);
    case Stos => StoSKeeps(c, Accum(c));
    case Lods =>
    case Cmps => LodSKeeps(c1);
    case Scas =>
  }

  /** Without a prefix an instruction does what it does under REP with a count of one, whatever CX is,
      and leaves CX alone; it fails when that does. */
  lemma AloneIsOnce(c: State, op: StringOp)
    requires Ok(c) && c.rep == 0
    ensures StringInstruction(c, op) == Unprefixed(c, StringInstruction(Once(c), op))
  {
    ElementOnce(c, op);
    ElementKeeps(c, op);
    var e := Element(c, op);
    if e.failed {
      assert StringInstruction(Once(c), op) == Once(e);
      assert Once(e).regs[CX := c.regs[CX]] == e.regs;
    } else {
      OnceCounted(e, Compares(op));
    }
  }

  lemma OnceCounted(e: State, compare: bool)
    requires Ok(e) && e.rep == 0
    ensures Unprefixed(e, DoRep(Once(e), compare)) == e == DoRep(e, compare)
  {
    assert DoRep(Once(e), compare).regs[CX := e.regs[CX]] == e.regs;
  }

  // ------------------------------------------------------------ REP LODS

  /** The k-th element in the data segment. */
  function Loaded(c: State, k: nat): (v: Word)
    requires Ok(c)
  {
    Read(c.ram, Src(c, k, 0), Src(c, k, 1), c.wordSize)
  }

  predicate CanLoad(c: State, k: nat)
    requires Ok(c)
  {
    c.initialized[Src(c, k, 0)] && (c.wordSize ==> c.initialized[Src(c, k, 1)])
  }

  /** AX with an element loaded: all of it, or AL. */
  function WithElement(c: State, v: Word): (ax: Word)
    requires Ok(c) && (c.wordSize || v < 0x100)
  {
    if c.wordSize then v else c.regs[AX] / 0x100 * 0x100 + v
  }

  lemma ByteLoaded(c: State, k: nat)
    requires Ok(c)
    ensures c.wordSize || Loaded(c, k) < 0x100
  {}

  /** The registers after j of n elements. */
  function LodsRegs(c: State, n: Word, j: nat): (r: seq<Word>)
    requires Ok(c) && j <= n
  {
    ByteLoaded(c, if j == 0 then 0 else j - 1);
    c.regs[CX := n - j][SI := Off(c.regs[SI], Step(c), j)]
          [AX := if j == 0 then c.regs[AX] else WithElement(c, Loaded(c, j - 1))]
  }

  ghost predicate Fetched(c: State, n: Word, j: nat, s: State)
    requires Ok(c)
  {
    && j <= n && c.regs[CX] == n
    && s == c.(regs := LodsRegs(c, n, j), segment := if j > 0 then DSeg else c.segment,
               repeating := if j == 0 then c.repeating else j < n)
  }

  /** The registers that decide where elements are. */
  lemma LodsPlaces(c: State, n: Word, j: nat, s: State)
    requires Ok(c) && Ok(s) && Fetched(c, n, j, s)
    ensures s.regs[SI] == Off(c.regs[SI], Step(c), j) && Step(s) == Step(c)
    ensures forall i :: FirstS <= i < 12 ==> s.regs[i] == c.regs[i]
  {}

  lemma LodsReads(c: State, n: Word, j: nat, s: State)
    requires Ok(c) && Ok(s) && Fetched(c, n, j, s) && CanLoad(c, j)
    ensures LodS(s) == (s.(regs := s.regs[SI := Off(c.regs[SI], Step(c), j + 1)], segment := DSeg), Loaded(c, j))
  {
    LodsPlaces(c, n, j, s);
    LoadAt(c, j, s);
  }

  /** The registers with the element taken and the count not yet counted down. */
  lemma LodsElement(c: State, n: Word, j: nat, s: State)
    requires Ok(c) && Ok(s) && !c.failed && Fetched(c, n, j, s) && j < n && CanLoad(c, j)
    ensures Loaded(c, j) < 0x100 || c.wordSize
    ensures Element(s, Lods) == s.(segment := DSeg,
      regs := s.regs[SI := Off(c.regs[SI], Step(c), j + 1)][AX := WithElement(s, Loaded(c, j))])
  {
    ByteLoaded(c, j);
    LodsReads(c, n, j, s);
  }

  lemma AxHigh(c: State, n: Word, j: nat, s: State)
    requires Ok(c) && Ok(s) && Fetched(c, n, j, s) && j < n && (c.wordSize || Loaded(c, j) < 0x100)
    ensures WithElement(s, Loaded(c, j)) == WithElement(c, Loaded(c, j))
  {}

  lemma LodsCounted(c: State, n: Word, j: nat, s: State, ax: Word)
    requires Ok(c) && Fetched(c, n, j, s) && j < n && (c.wordSize || Loaded(c, j) < 0x100)
    requires ax == WithElement(c, Loaded(c, j))
    ensures s.regs[SI := Off(c.regs[SI], Step(c), j + 1)][AX := ax][CX := n - (j + 1)] == LodsRegs(c, n, j + 1)
  {}

  lemma LodsStep(c: State, n: Word, j: nat, s: State)
    requires Ok(c) && Ok(s) && c.rep == 2 && !c.failed && Fetched(c, n, j, s) && j < n && CanLoad(c, j)
    ensures Fetched(c, n, j + 1, StringInstruction(s, Lods))
  {
    LodsElement(c, n, j, s);
    AxHigh(c, n, j, s);
    LodsCounted(c, n, j, s, WithElement(c, Loaded(c, j)));
    assert StringInstruction(s, Lods) == DoRep(Element(s, Lods), false);
  }

  lemma FetchedAtStart(c: State, n: Word)
    requires Ok(c) && c.regs[CX] == n
    ensures Fetched(c, n, 0, c)
  {
    assert c.regs == LodsRegs(c, n, 0);
  }

  lemma FetchedGoes(c: State, n: Word, j: nat, s: State)
    requires Ok(c) && Ok(s) && Fetched(c, n, j, s) && 0 < j < n
    requires !c.failed && !c.prefix && IsString(c.opcode) && OpOf(c.opcode) == Lods && c.wordSize == (c.opcode % 2 == 1)
    ensures Going(s, Lods)
  {}

  lemma FirstLods(c: State, w: bool, n: Word) returns (s: State)
    requires Armed(c, Lods, w) && c.rep == 2 && n == c.regs[CX] && 0 < n && CanLoad(Begun(c), 0)
    ensures TurnsTo(c, s) && Ok(s) && Fetched(Begun(c), n, 1, s)
  {
    var b := Begun(c);
    FirstTurn(c, Lods, w);
    FetchedAtStart(b, n);
    LodsStep(b, n, 0, b);
    s := StringInstruction(b, Lods);
  }

  lemma LaterLods(c: State, w: bool, n: Word, j: nat, s0: State) returns (s: State)
    requires Armed(c, Lods, w) && c.rep == 2 && n == c.regs[CX] && 0 < j < n && CanLoad(Begun(c), j)
    requires Ok(s0) && Fetched(Begun(c), n, j, s0)
    ensures TurnsTo(s0, s) && Ok(s) && Fetched(Begun(c), n, j + 1, s)
  {
    var b := Begun(c);
    FetchedGoes(b, n, j, s0);
    TurnIsElement(s0, Lods);
    LodsStep(b, n, j, s0);
    s := StringInstruction(s0, Lods);
  }

  /** REP LODS: the j-th of the passes, exactly CX of them, has left element j in AL or AX and has
      touched no memory. */
  lemma {:induction false} RepLods(c: State, w: bool, n: Word, j: nat) returns (s: State)
    requires Armed(c, Lods, w) && c.rep == 2 && n == c.regs[CX] && 1 <= j <= n
    requires forall k :: 0 <= k < j ==> CanLoad(Begun(c), k)
    ensures RunsTo(c, j, s) && Ok(s) && Fetched(Begun(c), n, j, s)
    decreases j
  {
    if j == 1 {
      NoPass(c);
      s := FirstLods(c, w, n);
      OneMore(c, 0, c, s);
    } else {
      var s0 := RepLods(c, w, n, j - 1);
      s := LaterLods(c, w, n, j - 1, s0);
      OneMore(c, j - 1, s0, s);
    }
  }
}
