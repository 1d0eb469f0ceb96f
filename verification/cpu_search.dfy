/** REPNE SCAS, REPE CMPS and their twins: the loop finds the first element that decides. */
module CpuSearch {
  import opened Arithmetic
  import opened Basics
  import opened Cpu
  import opened CpuStrings

  /** The two operands of the k-th comparison, and whether they can be read. */
  function DestinationOf(c: State, op: StringOp, k: nat): (r: Word)
    requires Ok(c)
  {
    if op.Cmps? then Read(c.ram, Src(c, k, 0), Src(c, k, 1), c.wordSize) else Accum(c)
  }

  function SourceOf(c: State, k: nat): (r: Word)
    requires Ok(c)
  {
    Read(c.ram, Dst(c, k, 0), Dst(c, k, 1), c.wordSize)
  }

  function Read(ram: seq<Byte>, lo: nat, hi: nat, w: bool): (r: Word)
    requires lo < |ram| && hi < |ram|
  {
    if w then TwoBytes(ram[lo], ram[hi]) else ram[lo]
  }

  predicate Known(c: State, op: StringOp, k: nat)
    requires Ok(c)
  {
    && c.initialized[Dst(c, k, 0)] && (c.wordSize ==> c.initialized[Dst(c, k, 1)])
    && (op.Cmps? ==> c.initialized[Src(c, k, 0)] && (c.wordSize ==> c.initialized[Src(c, k, 1)]))
  }

  predicate Equal(c: State, op: StringOp, k: nat)
    requires Ok(c)
  {
    DestinationOf(c, op, k) == SourceOf(c, k)
  }

  /** Whether the k-th comparison ends the search: a match for REPNE, a mismatch for REPE. */
  predicate Decides(c: State, op: StringOp, k: nat)
    requires Ok(c)
  {
    Equal(c, op, k) == (c.rep == 1)
  }

  /** k comparisons are made: up to the first that decides, or all n. */
  ghost predicate Length(c: State, op: StringOp, n: nat, k: nat)
    requires Ok(c)
  {
    && 1 <= k <= n && (k < n ==> Decides(c, op, k - 1))
    && forall j :: 0 <= j < k - 1 ==> !Decides(c, op, j)
  }

  function FlagsAfter(c: State, op: StringOp, k: nat): (r: Flags)
    requires Ok(c)
  {
    var d, s := DestinationOf(c, op, k), SourceOf(c, k);
    ArithFlags(c.f, Sub32(d, s), d, s, c.wordSize, true)
  }

  /** The state after j comparisons of a search that started with CX = n. */
  ghost predicate Searched(c: State, op: StringOp, n: Word, j: nat, c': State)
    requires Ok(c)
  {
    && Ok(c') && j <= n && c.regs[CX] == n
    && c' == c.(regs := RegsAt(c, op, n, j),
                segment := if op.Cmps? && j > 0 then DSeg else c.segment,
                f := if j == 0 then c.f else FlagsAfter(c, op, j - 1),
                repeating := if j == 0 then c.repeating else j < n && !Decides(c, op, j - 1))
  }

  lemma LowPartZero(d: Word, s: Word, m: nat)
    requires m == 0x100 || m == 0x1_0000
    requires d < m && s < m
    ensures Sub32(d, s) % m == 0 <==> d == s
  {
    if d >= s { assert Sub32(d, s) == d - s; } else { assert Sub32(d, s) == d - s + 0x1_0000_0000; }
  }

  /** ZF is set exactly when the operands are equal. */
  lemma ZeroMeansEqual(f: Flags, d: Word, s: Word, w: bool)
    requires w || (d < 0x100 && s < 0x100)
    ensures ArithFlags(f, Sub32(d, s), d, s, w, true).zf == (d == s)
  {
    Pow2Values();
    LowPartZero(d, s, if w then 0x1_0000 else 0x100);
    assert SetPZS(f, Sub32(d, s), w).zf == (Sub32(d, s) % Pow2(Width(w)) == 0);
  }

  /** The arithmetic flags depend on earlier ones only through DF, which they keep. */
  lemma FlagsForget(f: Flags, g: Flags, data: DWord, d: DWord, s: DWord, w: bool)
    requires f.df == g.df
    ensures ArithFlags(f, data, d, s, w, true) == ArithFlags(g, data, d, s, w, true)
    ensures ArithFlags(f, data, d, s, w, true).df == f.df
  {}

  /** What a comparison reads is as the search found it, and the index registers are at element k. */
  ghost predicate Placed(c: State, s: State, k: nat)
    requires Ok(c)
  {
    && Ok(s) && !s.failed && s.ram == c.ram && s.initialized == c.initialized && s.f.df == c.f.df
    && s.wordSize == c.wordSize && s.segmentOverride == c.segmentOverride
    && SourceBase(s) == SourceBase(c) && s.regs[FirstS] == c.regs[FirstS] && s.regs[AX] == c.regs[AX]
    && s.regs[DI] == Off(c.regs[DI], Step(c), k)
  }

  lemma LoadDestination(c: State, s: State, k: nat)
    requires Ok(c) && Placed(c, s, k) && Known(c, Scas, k)
    ensures LodDIS(s) == (s.(regs := s.regs[DI := Off(c.regs[DI], Step(c), k + 1)]), SourceOf(c, k))
  {
    OffNext(c.regs[DI], Step(c), k);
    var r := Moved(s, DI);
    assert Address(r, s.regs[DI], ESeg) == Dst(c, k, 0);
    assert Address(r, Next(s.regs[DI]), ESeg) == Dst(c, k, 1);
  }

  lemma LoadSource(c: State, s: State, k: nat)
    requires Ok(c) && Placed(c, s, k) && Known(c, Cmps, k) && s.regs[SI] == Off(c.regs[SI], Step(c), k)
    ensures var r := s.(regs := s.regs[SI := Off(c.regs[SI], Step(c), k + 1)], segment := DSeg);
      LodS(s) == (r, DestinationOf(c, Cmps, k)) && Placed(c, r, k)
  {
    OffNext(c.regs[SI], Step(c), k);
    var r := Moved(s, SI).(segment := DSeg);
    assert Address(r, s.regs[SI], -1) == Src(c, k, 0);
    assert Address(r, Next(s.regs[SI]), -1) == Src(c, k, 1);
  }

  /** What one comparison does, before CX is counted down. */
  function Compared(c: State, op: StringOp, j: nat, s: State): (r: State)
    requires Ok(c) && Ok(s)
  {
    s.(regs := s.regs[DI := Off(c.regs[DI], Step(c), j + 1)]
                     [SI := if op.Cmps? then Off(c.regs[SI], Step(c), j + 1) else s.regs[SI]],
       segment := if op.Cmps? then DSeg else s.segment, f := FlagsAfter(c, op, j))
  }

  lemma ScasStep(c: State, j: nat, s: State)
    requires Ok(c) && Placed(c, s, j) && Known(c, Scas, j)
    ensures Element(s, Scas) == Compared(c, Scas, j, s)
  {
    var d, v := DestinationOf(c, Scas, j), SourceOf(c, j);
    FlagsForget(s.f, c.f, Sub32(d, v), d, v, c.wordSize);
    LoadDestination(c, s, j);
    var r := s.regs[DI := Off(c.regs[DI], Step(c), j + 1)];
    assert r == r[SI := s.regs[SI]];
  }

  lemma CmpsStep(c: State, j: nat, s: State)
    requires Ok(c) && Placed(c, s, j) && Known(c, Cmps, j) && s.regs[SI] == Off(c.regs[SI], Step(c), j)
    ensures Element(s, Cmps) == Compared(c, Cmps, j, s)
  {
    var d, v := DestinationOf(c, Cmps, j), SourceOf(c, j);
    FlagsForget(s.f, c.f, Sub32(d, v), d, v, c.wordSize);
    LoadSource(c, s, j);
    var (s1, d1) := LodS(s);
    LoadDestination(c, s1, j);
    var si, di := Off(c.regs[SI], Step(c), j + 1), Off(c.regs[DI], Step(c), j + 1);
    UpdatesSwap(s.regs, si, di);
  }

  lemma UpdatesSwap(regs: seq<Word>, si: Word, di: Word)
    requires |regs| == 12
    ensures regs[SI := si][DI := di] == regs[DI := di][SI := si]
  {}

  lemma SearchedPlaces(c: State, op: StringOp, n: Word, j: nat, s: State)
    requires Ok(c) && !c.failed && Searched(c, op, n, j, s)
    ensures Placed(c, s, j) && (op.Cmps? ==> s.regs[SI] == Off(c.regs[SI], Step(c), j))
  {
    if j > 0 {
      var d, v := DestinationOf(c, op, j - 1), SourceOf(c, j - 1);
      FlagsForget(c.f, c.f, Sub32(d, v), d, v, c.wordSize);
    }
  }

  /** A comparison advances the search. */
  lemma CompareStep(c: State, op: StringOp, n: Word, j: nat, s: State)
    requires Ok(c) && Compares(op) && !c.failed && c.rep != 0 && Searched(c, op, n, j, s) && j < n && Known(c, op, j)
    ensures Searched(c, op, n, j + 1, StringInstruction(s, op))
  {
    SearchedPlaces(c, op, n, j, s);
    if op.Cmps? { CmpsStep(c, j, s); } else { ScasStep(c, j, s); }
    var e := Compared(c, op, j, s);
    var d, v := DestinationOf(c, op, j), SourceOf(c, j);
    ZeroMeansEqual(c.f, d, v, c.wordSize);
    Counts(c, op, n, j, s);
    assert StringInstruction(s, op) == DoRep(e, true);
  }

  lemma RegsNext(c: State, op: StringOp, n: Word, j: nat)
    requires Ok(c) && Compares(op) && j < n
    ensures RegsAt(c, op, n, j)[DI := Off(c.regs[DI], Step(c), j + 1)]
              [SI := if op.Cmps? then Off(c.regs[SI], Step(c), j + 1) else RegsAt(c, op, n, j)[SI]][CX := n - j - 1]
         == RegsAt(c, op, n, j + 1)
  {}

  lemma CountsDown(c: State, op: StringOp, n: Word, j: nat, e: State)
    requires Ok(c) && Ok(e) && e.rep == c.rep != 0 && j < n && e.regs[CX] == n - j && e.f.zf == Equal(c, op, j)
    ensures DoRep(e, true) == e.(regs := e.regs[CX := n - j - 1], repeating := j + 1 < n && !Decides(c, op, j))
  {}

  /** CX counts down and the instruction is repeated unless the comparison decides. */
  lemma Counts(c: State, op: StringOp, n: Word, j: nat, s: State)
    requires Ok(c) && Compares(op) && !c.failed && c.rep != 0 && Searched(c, op, n, j, s) && j < n
    requires FlagsAfter(c, op, j).zf == Equal(c, op, j)
    ensures Searched(c, op, n, j + 1, DoRep(Compared(c, op, j, s), true))
  {
    var e := Compared(c, op, j, s);
    assert e.regs[CX] == n - j;
    RegsNext(c, op, n, j);
    CountsDown(c, op, n, j, e);
  }

  lemma SearchedAtStart(c: State, op: StringOp, n: Word)
    requires Ok(c) && c.regs[CX] == n
    ensures Searched(c, op, n, 0, c)
  {
    assert c.regs == RegsAt(c, op, n, 0);
  }

  lemma SearchGoes(c: State, op: StringOp, n: Word, j: nat, s: State)
    requires Ok(c) && Searched(c, op, n, j, s) && 0 < j < n && !Decides(c, op, j - 1)
    requires !c.failed && !c.prefix && IsString(c.opcode) && OpOf(c.opcode) == op && c.wordSize == (c.opcode % 2 == 1)
    ensures Going(s, op)
  {}

  lemma SearchTurn(c: State, op: StringOp, w: bool, n: Word, j: nat, s0: State) returns (s: State)
    requires Armed(c, op, w) && Compares(op) && n == c.regs[CX] && j < n && Known(Begun(c), op, j)
    requires if j == 0 then s0 == c else Searched(Begun(c), op, n, j, s0) && !Decides(Begun(c), op, j - 1)
    ensures TurnsTo(s0, s) && Searched(Begun(c), op, n, j + 1, s)
  {
    var b := Begun(c);
    if j == 0 {
      FirstTurn(c, op, w);
      SearchedAtStart(b, op, n);
      CompareStep(b, op, n, 0, b);
      s := StringInstruction(b, op);
    } else {
      SearchGoes(b, op, n, j, s0);
      TurnIsElement(s0, op);
      CompareStep(b, op, n, j, s0);
      s := StringInstruction(s0, op);
    }
  }

  lemma SearchPass(c: State, op: StringOp, w: bool, n: Word, j: nat, s0: State) returns (s: State)
    requires Armed(c, op, w) && Compares(op) && n == c.regs[CX] && j < n && Known(Begun(c), op, j)
    requires if j == 0 then s0 == c else Searched(Begun(c), op, n, j, s0) && !Decides(Begun(c), op, j - 1)
    requires RunsTo(c, j, s0)
    ensures RunsTo(c, j + 1, s) && Searched(Begun(c), op, n, j + 1, s)
  {
    s := SearchTurn(c, op, w, n, j, s0);
    OneMore(c, j, s0, s);
  }

  /** As long as no comparison decides, the j-th pass has made j comparisons. */
  lemma {:induction false} Searches(c: State, op: StringOp, w: bool, n: Word, j: nat) returns (s: State)
    requires Armed(c, op, w) && Compares(op) && n == c.regs[CX] && 1 <= j <= n
    requires forall i :: 0 <= i < j ==> Known(Begun(c), op, i)
    requires forall i :: 0 <= i < j - 1 ==> !Decides(Begun(c), op, i)
    ensures RunsTo(c, j, s) && Searched(Begun(c), op, n, j, s)
    decreases j
  {
    if j == 1 {
      NoPass(c);
      s := SearchPass(c, op, w, n, 0, c);
    } else {
      var s0 := Searches(c, op, w, n, j - 1);
      s := SearchPass(c, op, w, n, j - 1, s0);
    }
  }

  lemma FoundIff(c: State, op: StringOp, n: nat, k: nat)
    requires Ok(c) && Length(c, op, n, k)
    ensures (exists i :: 0 <= i < n && Decides(c, op, i)) <==> Decides(c, op, k - 1)
  {
    if i :| 0 <= i < n && Decides(c, op, i) {
      assert i >= k - 1;
    }
  }

  lemma SearchEnds(c: State, op: StringOp, n: Word, k: nat, s: State)
    requires Ok(c) && Length(c, op, n, k) && Searched(c, op, n, k, s)
    ensures s == c.(regs := RegsAt(c, op, n, k), f := s.f, segment := s.segment, repeating := false)
    ensures s.f == FlagsAfter(c, op, k - 1) && s.f.zf == Equal(c, op, k - 1)
  {
    ZeroMeansEqual(c.f, DestinationOf(c, op, k - 1), SourceOf(c, k - 1), c.wordSize);
  }

  /** REPNE SCAS, REPE CMPS and their twins: exactly k passes, up to the first comparison that
      decides or all CX of them; ZF tells which, memory is untouched. */
  lemma RepSearch(c: State, op: StringOp, w: bool, n: Word, k: nat) returns (s: State)
    requires Armed(c, op, w) && Compares(op) && n == c.regs[CX] && Length(Begun(c), op, n, k)
    requires forall i :: 0 <= i < k ==> Known(Begun(c), op, i)
    ensures RunsTo(c, k, s)
    ensures s == Begun(c).(regs := RegsAt(Begun(c), op, n, k), f := s.f, segment := s.segment, repeating := false)
    ensures s.f == FlagsAfter(Begun(c), op, k - 1)
    ensures (exists i :: 0 <= i < n && Decides(Begun(c), op, i)) <==> s.f.zf == (c.rep == 1)
  {
    s := Searches(c, op, w, n, k);
    SearchEnds(Begun(c), op, n, k, s);
    FoundIff(Begun(c), op, n, k);
  }

  lemma LengthLeast(c: State, op: StringOp, n: nat, j: nat, k: nat)
    requires Ok(c) && Length(c, op, n, j) && Length(c, op, n, k)
    ensures j <= k
  {}

  /** There is exactly one such number of comparisons. */
  lemma SearchLength(c: State, op: StringOp, n: nat) returns (k: nat)
    requires Ok(c) && n > 0
    ensures Length(c, op, n, k) && forall j: nat :: Length(c, op, n, j) ==> j == k
  {
    k := 1;
    while k < n && !Decides(c, op, k - 1)
      invariant 1 <= k <= n && forall j :: 0 <= j < k - 1 ==> !Decides(c, op, j)
    {
      k := k + 1;
    }
    forall j: nat | Length(c, op, n, j) ensures j == k {
      LengthLeast(c, op, n, j, k);
      LengthLeast(c, op, n, k, j);
    }
  }
}
