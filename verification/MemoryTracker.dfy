/** Memory-resident locals (src/memory_tracker.rs): free-memory-pointer bumps become named
    regions, and later writes are attributed to them. */
module MemoryTracker {
  import opened Basics
  import opened Bytes
  import opened SolidityAst

  datatype MemAssignment = MemAssignment(name: string, memoryOffset: U64, size: nat)

  datatype MemRegion = MemRegion(name: string, typeName: string, base: U64, size: U64) {
    /** One past the region, a `u64` sum. */
    function End(): U64 {
      SumU64(base, size)
    }
  }

  const FMP_OFFSET: U64 := 0x40
  const INITIAL_FMP: U64 := 0x80
  const OP_MSTORE: byte := 0x52
  const OP_MSTORE8: byte := 0x53

  /** The fields of a tracker. */
  datatype Mem = Mem(regions: seq<MemRegion>, lastFmp: U64)

  const FRESH := Mem([], INITIAL_FMP)

  // ---- what a step does -------------------------------------------------------------------------

  /** The low eight bytes of the pointer word, or the cached value when the snapshot is short. */
  function ObservedFmp(memory: seq<byte>, cached: U64): U64 {
    if |memory| < 0x60 then cached
    else
      BigEndianBound(memory[0x58..0x60]);
      BigEndian(memory[0x58..0x60])
  }

  function Saturated(w: Word): U64 {
    if w < U64_BOUND then w else U64_BOUND - 1
  }

  function PickVarForOffset(o: I32, vars: seq<VarDecl>): (r: Option<VarDecl>)
    ensures r.Some? ==> r.value in vars && r.value.memoryResident && r.value.Covers(o)
    ensures r.None? ==> forall v :: v in vars && v.memoryResident ==> !v.Covers(o)
  {
    var exact := FirstVar(vars, (v: VarDecl) => v.memoryResident && v.declarationOffset == o);
    var inDeclaration := FirstVar(vars, (v: VarDecl) => v.memoryResident && v.src.ContainsOffset(o));
    var inStatement := FirstVar(vars, (v: VarDecl) => v.memoryResident && v.InStatement(o));
    if exact.Some? then exact else if inDeclaration.Some? then inDeclaration else inStatement
  }

  predicate IsRegistered(regions: seq<MemRegion>, name: string) {
    exists r :: r in regions && r.name == name
  }

  /** The most recently declared memory variable that has no region yet. */
  function LatestUnregistered(regions: seq<MemRegion>, vars: seq<VarDecl>): (r: Option<VarDecl>)
    ensures r.Some? ==> r.value in vars && r.value.memoryResident && !IsRegistered(regions, r.value.name)
    decreases |vars|
  {
    if vars == [] then None
    else
      var v := vars[|vars| - 1];
      if v.memoryResident && !IsRegistered(regions, v.name) then Some(v)
        else LatestUnregistered(regions, vars[..|vars| - 1])
  }

  function Candidate(regions: seq<MemRegion>, off: Option<I32>, vars: seq<VarDecl>): Option<VarDecl> {
    var picked := if off.Some? then PickVarForOffset(off.value, vars) else None;
    if picked.Some? then picked else LatestUnregistered(regions, vars)
  }

  /** A bump registers a region for the candidate that has none. */
  predicate Registers(regions: seq<MemRegion>, prevFmp: U64, newFmp: U64, off: Option<I32>, vars: seq<VarDecl>) {
    && prevFmp < newFmp
    && Candidate(regions, off, vars).Some?
    && !IsRegistered(regions, Candidate(regions, off, vars).value.name)
  }

  function Bumped(
    regions: seq<MemRegion>, prevFmp: U64, newFmp: U64, off: Option<I32>, vars: seq<VarDecl>): seq<MemRegion>
  {
    if Registers(regions, prevFmp, newFmp, off, vars) then
      var v := Candidate(regions, off, vars).value;
      regions + [MemRegion(v.name, v.typeName, prevFmp, newFmp - prevFmp)]
    else regions
  }

  /** Whether a write of `width` bytes at `dest` passes the containment test of a region. */
  predicate Takes(r: MemRegion, dest: U64, width: nat) {
    r.base <= dest && if width == 32 then SumU64(dest, 32) <= r.End() else dest < r.End()
  }

  function FirstTaker(regions: seq<MemRegion>, dest: U64, width: nat): (r: Option<nat>)
    ensures r.Some? ==> r.value < |regions| && Takes(regions[r.value], dest, width)
                        && forall i :: 0 <= i < r.value ==> !Takes(regions[i], dest, width)
    ensures r.None? ==> forall i :: 0 <= i < |regions| ==> !Takes(regions[i], dest, width)
  {
    if regions == [] then None
    else if Takes(regions[0], dest, width) then Some(0)
    else
      var rest := FirstTaker(regions[1..], dest, width);
      if rest.None? then None else Some(rest.value + 1)
  }

  function Attributed(regions: seq<MemRegion>, dest: U64, width: nat): seq<MemAssignment> {
    var taker := FirstTaker(regions, dest, width);
    if taker.Some? then [MemAssignment(regions[taker.value].name, dest, width)] else []
  }

  datatype Step = Step(op: byte, off: Option<I32>, vars: seq<VarDecl>, stack: seq<Word>, memory: seq<byte>) {
    predicate IsStore() { (op == OP_MSTORE || op == OP_MSTORE8) && 2 <= |stack| }
    function Dest(): U64 requires 2 <= |stack| { Saturated(stack[|stack| - 1]) }
    function Stored(): Word requires 2 <= |stack| { stack[|stack| - 2] }
    /** The step writes the free memory pointer. */
    predicate IsBump() { op == OP_MSTORE && IsStore() && Dest() == FMP_OFFSET }
  }

  function Next(m: Mem, s: Step): Mem {
    Mem(if s.IsBump() then Bumped(m.regions, m.lastFmp, Saturated(s.Stored()), s.off, s.vars) else m.regions,
        ObservedFmp(s.memory, m.lastFmp))
  }

  function Reported(m: Mem, s: Step): seq<MemAssignment> {
    if s.IsStore() && !s.IsBump() then Attributed(m.regions, s.Dest(), if s.op == OP_MSTORE then 32 else 1) else []
  }

  class MemoryTracker {
    var regions: seq<MemRegion>
    var lastFmp: U64

    function State(): Mem
      reads this
    {
      Mem(regions, lastFmp)
    }

    constructor ()
      ensures State() == FRESH
    {
      regions, lastFmp := [], INITIAL_FMP;
    }

    method Reset()
      modifies this
      ensures State() == FRESH
    {
      regions, lastFmp := [], INITIAL_FMP;
    }

    method ObserveMemory(memory: seq<byte>)
      modifies this`lastFmp
      ensures lastFmp == ObservedFmp(memory, old(lastFmp))
    {
      if |memory| < 0x60 {
        return;
      }
      BigEndianBound(memory[0x40..0x60][24..]);
      assert memory[0x40..0x60][24..] == memory[0x58..0x60];
      lastFmp := BigEndian(memory[0x40..0x60][24..]);
    }

    method HandleFmpBump(prevFmp: U64, newFmp: U64, off: Option<I32>, vars: seq<VarDecl>)
      modifies this`regions
      ensures regions == Bumped(old(regions), prevFmp, newFmp, off, vars)
    {
      if newFmp <= prevFmp {
        return;
      }
      var size := newFmp - prevFmp;
      var candidate := Candidate(regions, off, vars);
      if candidate.Some? {
        var v := candidate.value;
        if IsRegistered(regions, v.name) {
          return;
        }
        regions := regions + [MemRegion(v.name, v.typeName, prevFmp, size)];
      }
    }

    method HandleMstore(off: Option<I32>, vars: seq<VarDecl>, preStack: seq<Word>, prevFmp: U64)
      returns (assigns: seq<MemAssignment>)
      modifies this`regions
      ensures |preStack| < 2 ==> assigns == [] && regions == old(regions)
      ensures 2 <= |preStack| ==>
                var dest := Saturated(preStack[|preStack| - 1]);
                if dest == FMP_OFFSET
                then assigns == []
                  && regions == Bumped(old(regions), prevFmp, Saturated(preStack[|preStack| - 2]), off, vars)
                else assigns == Attributed(regions, dest, 32) && regions == old(regions)
    {
      if |preStack| < 2 {
        return [];
      }
      var dest := Saturated(preStack[|preStack| - 1]);
      if dest == FMP_OFFSET {
        HandleFmpBump(prevFmp, Saturated(preStack[|preStack| - 2]), off, vars);
        return [];
      }
      assigns := FindRegion(dest, 32);
    }

    method HandleMstore8(preStack: seq<Word>) returns (assigns: seq<MemAssignment>)
      ensures assigns == if |preStack| < 2 then [] else Attributed(regions, Saturated(preStack[|preStack| - 1]), 1)
    {
      if |preStack| < 2 {
        return [];
      }
      assigns := FindRegion(Saturated(preStack[|preStack| - 1]), 1);
    }

    /** The search loop of both handlers: the first region that takes the write. */
    method FindRegion(dest: U64, width: nat) returns (assigns: seq<MemAssignment>)
      requires width == 32 || width == 1
      ensures assigns == Attributed(regions, dest, width)
    {
      assigns := [];
      for i := 0 to |regions|
        invariant assigns == []
        invariant forall j :: 0 <= j < i ==> !Takes(regions[j], dest, width)
      {
        var r := regions[i];
        if Takes(r, dest, width) {
          assert FirstTaker(regions, dest, width) == Some(i);
          return [MemAssignment(r.name, dest, width)];
        }
      }
    }

    method ProcessStep(op: byte, off: Option<I32>, vars: seq<VarDecl>, preStack: seq<Word>, preMemory: seq<byte>)
      returns (assigns: seq<MemAssignment>)
      modifies this
      ensures var s := Step(op, off, vars, preStack, preMemory);
              State() == Next(old(State()), s) && assigns == Reported(old(State()), s)
    {
      var prevFmp := lastFmp;
      ObserveMemory(preMemory);
      if op == OP_MSTORE {
        assigns := HandleMstore(off, vars, preStack, prevFmp);
      } else if op == OP_MSTORE8 {
        assigns := HandleMstore8(preStack);
      } else {
        assigns := [];
      }
    }
  }

  // ---- which variable a bump is for -------------------------------------------------------------------------

  /** A memory variable that the offset points to: its declaration starts there; or no memory variable's does,
      and its declaration contains the offset; or none of those either, and its statement does. */
  predicate Points(o: I32, vars: seq<VarDecl>, v: VarDecl) {
    v.memoryResident &&
    if v.declarationOffset == o then true
    else if v.src.ContainsOffset(o) then forall u :: u in vars && u.memoryResident ==> u.declarationOffset != o
    else
      && v.InStatement(o)
      && forall u :: u in vars && u.memoryResident ==> u.declarationOffset != o && !u.src.ContainsOffset(o)
  }

  /** Variable `i` is the first of those. */
  predicate FirstPointed(o: I32, vars: seq<VarDecl>, i: nat)
    requires i < |vars|
  {
    Points(o, vars, vars[i]) && forall j :: 0 <= j < i ==> !Points(o, vars, vars[j])
  }

  lemma PickedIsFirst(o: I32, vars: seq<VarDecl>, i: nat)
    requires i < |vars| && FirstPointed(o, vars, i)
    ensures PickVarForOffset(o, vars) == Some(vars[i])
  {
    assert vars[i] in vars;
    FirstVarIsFirst(vars, (v: VarDecl) => v.memoryResident && v.declarationOffset == o, i);
    FirstVarIsFirst(vars, (v: VarDecl) => v.memoryResident && v.src.ContainsOffset(o), i);
    FirstVarIsFirst(vars, (v: VarDecl) => v.memoryResident && v.InStatement(o), i);
    forall j | 0 <= j < i ensures !Points(o, vars, vars[j]) && vars[j] in vars {
    }
  }

  lemma {:induction false} LatestIsLast(regions: seq<MemRegion>, vars: seq<VarDecl>, i: nat)
    requires i < |vars| && vars[i].memoryResident && !IsRegistered(regions, vars[i].name)
    requires forall j :: i < j < |vars| ==> !(vars[j].memoryResident && !IsRegistered(regions, vars[j].name))
    ensures LatestUnregistered(regions, vars) == Some(vars[i])
    decreases |vars|
  {
    if i < |vars| - 1 {
      LatestIsLast(regions, vars[..|vars| - 1], i);
    }
  }

  /** What a growing pointer registers: a region of the first variable that the source offset points to, unless
      that variable has one already. */
  lemma BumpRegistersPointed(
    regions: seq<MemRegion>, prevFmp: U64, newFmp: U64, o: I32, vars: seq<VarDecl>, i: nat)
    requires i < |vars| && FirstPointed(o, vars, i)
    ensures Bumped(regions, prevFmp, newFmp, Some(o), vars)
            == if prevFmp < newFmp && (forall r :: r in regions ==> r.name != vars[i].name)
               then regions + [MemRegion(vars[i].name, vars[i].typeName, prevFmp, newFmp - prevFmp)]
               else regions
  {
    PickedIsFirst(o, vars, i);
  }

  /** When it points to none, a region of the last visible memory variable that has none; and when there is no
      such variable, nothing. */
  lemma BumpRegistersLatest(
    regions: seq<MemRegion>, prevFmp: U64, newFmp: U64, off: Option<I32>, vars: seq<VarDecl>, i: nat)
    requires off.Some? ==> forall v :: v in vars && v.memoryResident ==> !v.Covers(off.value)
    requires i < |vars| && vars[i].memoryResident && forall r :: r in regions ==> r.name != vars[i].name
    requires forall j :: i < j < |vars| && vars[j].memoryResident ==> exists r :: r in regions && r.name == vars[j].name
    ensures Bumped(regions, prevFmp, newFmp, off, vars)
            == if prevFmp < newFmp
               then regions + [MemRegion(vars[i].name, vars[i].typeName, prevFmp, newFmp - prevFmp)]
               else regions
  {
    LatestIsLast(regions, vars, i);
  }

  lemma BumpRegistersNothing(
    regions: seq<MemRegion>, prevFmp: U64, newFmp: U64, off: Option<I32>, vars: seq<VarDecl>)
    requires off.Some? ==> forall v :: v in vars && v.memoryResident ==> !v.Covers(off.value)
    requires forall v :: v in vars && v.memoryResident ==> exists r :: r in regions && r.name == v.name
    ensures Bumped(regions, prevFmp, newFmp, off, vars) == regions
  {
  }

  // ---- discipline ---------------------------------------------------------------------------------

  /** Regions are nonempty, ascending without overlap, uniquely named, and end at or below `top`. */
  predicate Disciplined(regions: seq<MemRegion>, top: nat) {
    && (forall i :: 0 <= i < |regions| ==> 0 < regions[i].size && regions[i].base + regions[i].size <= top)
    && (forall i, j :: 0 <= i < j < |regions| ==> regions[i].base + regions[i].size <= regions[j].base)
    && (forall i, j :: 0 <= i < j < |regions| ==> regions[i].name != regions[j].name)
  }

  /** Adding a region on top keeps the discipline exactly when it starts at or above the newest one's end. */
  lemma AppendedRegion(regions: seq<MemRegion>, r: MemRegion, top: nat, newTop: nat)
    requires Disciplined(regions, top) && top <= newTop
    requires 0 < r.size && r.base + r.size == newTop && !IsRegistered(regions, r.name)
    ensures Disciplined(regions + [r], newTop)
            <==> (regions == [] || regions[|regions| - 1].base + regions[|regions| - 1].size <= r.base)
  {
    var n, after := |regions|, regions + [r];
    assert forall i :: 0 <= i < n ==> after[i] == regions[i] && regions[i] in regions;
    if n > 0 && regions[n - 1].base + regions[n - 1].size <= r.base {
      forall i | 0 <= i < n ensures regions[i].base + regions[i].size <= r.base {
        if i < n - 1 {
          assert regions[i].base + regions[i].size <= regions[n - 1].base;
        }
      }
    }
    if n > 0 && Disciplined(after, newTop) {
      assert after[n - 1].base + after[n - 1].size <= after[n].base;
    }
  }

  /** A bump that registers a region keeps the discipline exactly when the pointer it remembers
      from the previous processed step is not below the end of the newest region. */
  lemma BumpKeepsDisciplineIff(
    regions: seq<MemRegion>, prevFmp: U64, newFmp: U64, off: Option<I32>, vars: seq<VarDecl>, top: nat)
    requires Disciplined(regions, top) && top <= newFmp
    requires Registers(regions, prevFmp, newFmp, off, vars)
    ensures Disciplined(Bumped(regions, prevFmp, newFmp, off, vars), newFmp)
            <==> (regions == [] || regions[|regions| - 1].base + regions[|regions| - 1].size <= prevFmp)
  {
    var v := Candidate(regions, off, vars).value;
    AppendedRegion(regions, MemRegion(v.name, v.typeName, prevFmp, newFmp - prevFmp), top, newFmp);
  }

  lemma DisciplineWeakens(regions: seq<MemRegion>, top: nat, newTop: nat)
    requires Disciplined(regions, top) && top <= newTop
    ensures Disciplined(regions, newTop)
  {
  }

  /** The pointer word does not decrease into the step: it sees at least what the steps before left. */
  predicate NotBelow(m: Mem, s: Step, top: nat) {
    top <= ObservedFmp(s.memory, m.lastFmp)
  }

  /** The previous processed step already saw the pointer that a registering bump starts from. */
  predicate BumpIsCurrent(m: Mem, s: Step) {
    s.IsBump() && Registers(m.regions, m.lastFmp, Saturated(s.Stored()), s.off, s.vars) ==>
      m.lastFmp == ObservedFmp(s.memory, m.lastFmp)
  }

  /** One step: the pointer does not fall below `top`, and a registering bump starts from it. */
  lemma StepKeepsDiscipline(m: Mem, s: Step, top: nat)
    requires Disciplined(m.regions, top) && NotBelow(m, s, top) && BumpIsCurrent(m, s)
    ensures Disciplined(Next(m, s).regions, FmpAfter(m, s))
  {
    if s.IsBump() && Registers(m.regions, m.lastFmp, Saturated(s.Stored()), s.off, s.vars) {
      BumpKeepsDisciplineIff(m.regions, m.lastFmp, Saturated(s.Stored()), s.off, s.vars, top);
    } else {
      DisciplineWeakens(m.regions, top, FmpAfter(m, s));
    }
  }

  /** The pointer value after a step. */
  function FmpAfter(m: Mem, s: Step): U64 {
    var fmp := ObservedFmp(s.memory, m.lastFmp);
    if s.IsBump() then (if fmp < Saturated(s.Stored()) then Saturated(s.Stored()) else fmp) else fmp
  }

  ghost function After(m: Mem, steps: seq<Step>, i: nat): Mem
    requires i <= |steps|
  {
    if i == 0 then m else Next(After(m, steps, i - 1), steps[i - 1])
  }

  ghost function FmpAt(m: Mem, steps: seq<Step>, i: nat): U64
    requires i <= |steps|
  {
    if i == 0 then m.lastFmp else FmpAfter(After(m, steps, i - 1), steps[i - 1])
  }

  ghost predicate OrderlyAt(m: Mem, steps: seq<Step>, j: nat)
    requires j < |steps|
  {
    NotBelow(After(m, steps, j), steps[j], FmpAt(m, steps, j)) && BumpIsCurrent(After(m, steps, j), steps[j])
  }

  /** Region discipline over whole runs: the pointer never decreases, and bumps start from the one
      the previous processed step saw. */
  lemma {:induction false} RegionsStayDisciplined(m: Mem, steps: seq<Step>, i: nat)
    requires i <= |steps| && Disciplined(m.regions, m.lastFmp)
    requires forall j :: 0 <= j < i ==> OrderlyAt(m, steps, j)
    ensures Disciplined(After(m, steps, i).regions, FmpAt(m, steps, i))
  {
    if i == 0 {
    } else {
      RegionsStayDisciplined(m, steps, i - 1);
      assert OrderlyAt(m, steps, i - 1);
      StepKeepsDiscipline(After(m, steps, i - 1), steps[i - 1], FmpAt(m, steps, i - 1));
    }
  }

  predicate Ascending(regions: seq<MemRegion>) {
    forall i, j :: 0 <= i < j < |regions| ==> regions[i].base + regions[i].size <= regions[j].base
  }

  /** A bump that registers a region remembers a pointer that is not below the newest region's end. */
  predicate StartsAbove(m: Mem, s: Step) {
    s.IsBump() && Registers(m.regions, m.lastFmp, Saturated(s.Stored()), s.off, s.vars) ==>
      m.regions == [] || m.regions[|m.regions| - 1].base + m.regions[|m.regions| - 1].size <= m.lastFmp
  }

  ghost predicate StartsAboveAt(m: Mem, steps: seq<Step>, j: nat)
    requires j < |steps|
  {
    StartsAbove(After(m, steps, j), steps[j])
  }

  /** So do all bumps among the first `i` steps. */
  ghost predicate AllStartAbove(m: Mem, steps: seq<Step>, i: nat)
    requires i <= |steps|
  {
    forall j :: 0 <= j < i ==> StartsAboveAt(m, steps, j)
  }

  lemma AscendingSnoc(regions: seq<MemRegion>, r: MemRegion)
    ensures Ascending(regions + [r])
            <==> Ascending(regions)
                 && (regions == [] || regions[|regions| - 1].base + regions[|regions| - 1].size <= r.base)
  {
    var n, after := |regions|, regions + [r];
    assert forall i :: 0 <= i < n ==> after[i] == regions[i];
    if n > 0 && Ascending(after) {
      assert after[n - 1].base + after[n - 1].size <= after[n].base;
    }
  }

  lemma AscendingStep(m: Mem, s: Step)
    ensures Ascending(Next(m, s).regions) <==> Ascending(m.regions) && StartsAbove(m, s)
  {
    if s.IsBump() && Registers(m.regions, m.lastFmp, Saturated(s.Stored()), s.off, s.vars) {
      var v := Candidate(m.regions, s.off, s.vars).value;
      AscendingSnoc(m.regions, MemRegion(v.name, v.typeName, m.lastFmp, Saturated(s.Stored()) - m.lastFmp));
    }
  }

  lemma {:induction false} AscendsNext(m: Mem, steps: seq<Step>, k: nat, i: nat)
    requires k + 1 == i <= |steps| && (Ascending(After(m, steps, k).regions) <==> AllStartAbove(m, steps, k))
    ensures Ascending(After(m, steps, i).regions) <==> AllStartAbove(m, steps, i)
  {
    AscendingStep(After(m, steps, k), steps[k]);
    AfterNext(m, steps, k, i);
    AllStartAboveNext(m, steps, k, i);
  }

  lemma {:induction false} AllStartAboveNext(m: Mem, steps: seq<Step>, k: nat, i: nat)
    requires k + 1 == i <= |steps|
    ensures AllStartAbove(m, steps, i) <==> AllStartAbove(m, steps, k) && StartsAbove(After(m, steps, k), steps[k])
  {
    assert StartsAboveAt(m, steps, k) <==> StartsAbove(After(m, steps, k), steps[k]);
  }

  lemma {:induction false} AfterNext(m: Mem, steps: seq<Step>, k: nat, i: nat)
    requires k + 1 == i <= |steps|
    ensures After(m, steps, i) == Next(After(m, steps, k), steps[k])
  {
    assert After(m, steps, k + 1) == Next(After(m, steps, k), steps[k]);
  }

  /** For every run: the regions lie in order without overlap exactly when each bump that registered one
      started at or above the end of the region registered before it. */
  lemma {:induction false} RegionsAscendIff(m: Mem, steps: seq<Step>, i: nat)
    requires i <= |steps| && Ascending(m.regions)
    ensures Ascending(After(m, steps, i).regions) <==> AllStartAbove(m, steps, i)
  {
    if i == 0 {
    } else {
      var k := i - 1;
      RegionsAscendIff(m, steps, k);
      AscendsNext(m, steps, k, i);
    }
  }

  /** The low eight bytes of the pointer word in a snapshot that holds it. */
  function PointerIn(memory: seq<byte>): U64
    requires 0x60 <= |memory|
  {
    ObservedFmp(memory, 0)
  }

  /** The latest of the first `i` steps whose snapshot holds the pointer word. */
  function LatestHolding(steps: seq<Step>, i: nat): (r: Option<nat>)
    requires i <= |steps|
    ensures r.Some? ==> r.value < i && 0x60 <= |steps[r.value].memory|
                        && forall j :: r.value < j < i ==> |steps[j].memory| < 0x60
    ensures r.None? ==> forall j :: 0 <= j < i ==> |steps[j].memory| < 0x60
  {
    if i == 0 then None
    else if 0x60 <= |steps[i - 1].memory| then Some(i - 1)
    else LatestHolding(steps, i - 1)
  }

  /** The pointer that the first `i` steps have seen last, or the one the tracker started with. */
  function SeenFmp(m: Mem, steps: seq<Step>, i: nat): U64
    requires i <= |steps|
  {
    var j := LatestHolding(steps, i);
    if j.Some? then PointerIn(steps[j.value].memory) else m.lastFmp
  }

  lemma {:induction false} LastFmpIsSeen(m: Mem, steps: seq<Step>, i: nat)
    requires i <= |steps|
    ensures After(m, steps, i).lastFmp == SeenFmp(m, steps, i)
  {
    if i == 0 {
    } else {
      LastFmpIsSeen(m, steps, i - 1);
      assert After(m, steps, i) == Next(After(m, steps, i - 1), steps[i - 1]);
    }
  }

  /** In every run, the region that a bump registers begins at the pointer that the steps before it saw, so it
      is the memory that the bump allocates exactly when the bump itself sees that pointer unchanged: when
      nothing was allocated since, and the previous processed step was no bump itself. */
  lemma RegionIsAllocationIff(m: Mem, steps: seq<Step>, i: nat)
    requires i < |steps|
    requires var now := After(m, steps, i);
             steps[i].IsBump()
               && Registers(now.regions, now.lastFmp, Saturated(steps[i].Stored()), steps[i].off, steps[i].vars)
    ensures var n, after := |After(m, steps, i).regions|, After(m, steps, i + 1).regions;
            && |after| == n + 1 && after[n].base + after[n].size == Saturated(steps[i].Stored())
            && (after[n].base == SeenFmp(m, steps, i + 1) <==> SeenFmp(m, steps, i) == SeenFmp(m, steps, i + 1))
  {
    LastFmpIsSeen(m, steps, i);
    assert After(m, steps, i + 1) == Next(After(m, steps, i), steps[i]);
  }

  predicate Contains(r: MemRegion, dest: nat, width: nat) {
    r.base <= dest && dest + width <= r.base + r.size
  }

  /** A write is attributed to the one region that contains it, and to none when no region does. */
  predicate RightlyAttributed(regions: seq<MemRegion>, dest: U64, width: nat) {
    && (Attributed(regions, dest, width) == []
       <==> forall i :: 0 <= i < |regions| ==> !Contains(regions[i], dest, width))
    && (forall i :: 0 <= i < |regions| && Contains(regions[i], dest, width) ==>
          Attributed(regions, dest, width) == [MemAssignment(regions[i].name, dest, width)])
  }

  /** In a disciplined tracker every MSTORE8, and every MSTORE whose end does not wrap, is rightly attributed. */
  lemma AttributionUnique(regions: seq<MemRegion>, top: U64, dest: U64, width: nat)
    requires Disciplined(regions, top) && (width == 1 || (width == 32 && dest + 32 < U64_BOUND))
    ensures RightlyAttributed(regions, dest, width)
  {
    forall i | 0 <= i < |regions| ensures Takes(regions[i], dest, width) <==> Contains(regions[i], dest, width) {
      assert regions[i].End() == regions[i].base + regions[i].size;
    }
    forall i, j | 0 <= i < j < |regions| && Takes(regions[i], dest, width) ensures !Takes(regions[j], dest, width) {
      assert regions[i].base + regions[i].size <= regions[j].base;
    }
  }

  /** A step's report, by its operands: MSTORE is about 32 bytes and MSTORE8 about one, at the position on top of
      the stack, saturated to 64 bits; a store to the pointer word is none, and MLOAD reports nothing. */
  lemma ReportOfStore(
    m: Mem, off: Option<I32>, vars: seq<VarDecl>, below: seq<Word>, value: Word, dest: Word, memory: seq<byte>)
    ensures var stack, at: U64 := below + [value, dest], Min(dest, U64_BOUND - 1);
            && Reported(m, Step(0x52, off, vars, stack, memory))
               == (if at == 0x40 then [] else Attributed(m.regions, at, 32))
            && Reported(m, Step(0x53, off, vars, stack, memory)) == Attributed(m.regions, at, 1)
            && Reported(m, Step(0x51, off, vars, stack, memory)) == []
  {
    var stack := below + [value, dest];
    assert stack[|stack| - 1] == dest && stack[|stack| - 2] == value;
  }

  /** What a step does to the regions: only an MSTORE at the pointer word changes them, by the bump from the pointer
      known before to the stored word, saturated to 64 bits. */
  lemma RegionsAfterStore(
    m: Mem, op: byte, off: Option<I32>, vars: seq<VarDecl>, below: seq<Word>, value: Word, dest: Word,
    memory: seq<byte>)
    ensures Next(m, Step(op, off, vars, below + [value, dest], memory)).regions
            == if op == 0x52 && dest == 0x40
               then Bumped(m.regions, m.lastFmp, Min(value, U64_BOUND - 1), off, vars) else m.regions
  {
    var stack := below + [value, dest];
    assert stack[|stack| - 1] == dest && stack[|stack| - 2] == value;
  }

  /** The region lies above the write's start, or ends below the wrapped end of the write. */
  predicate ClearOfWrap(r: MemRegion, dest: U64) {
    dest < r.base || r.base + r.size < dest + 32 - U64_BOUND
  }

  /** For every MSTORE: it is rightly attributed exactly when its end does not wrap around 64 bits, or no
      region is in the way of the wrapped end. */
  lemma AttributionRightIff(regions: seq<MemRegion>, top: U64, dest: U64)
    requires Disciplined(regions, top)
    ensures RightlyAttributed(regions, dest, 32)
            <==> (dest + 32 < U64_BOUND || forall i :: 0 <= i < |regions| ==> ClearOfWrap(regions[i], dest))
  {
    if dest + 32 < U64_BOUND {
      AttributionUnique(regions, top, dest, 32);
    } else {
      forall i | 0 <= i < |regions|
        ensures !Contains(regions[i], dest, 32) && (Takes(regions[i], dest, 32) <==> !ClearOfWrap(regions[i], dest))
      {
        assert regions[i].End() == regions[i].base + regions[i].size;
      }
    }
  }

  /** Two bumps in a row without a processed step between them: the second starts from the stale
      pointer, so its region overlaps the first. */
  lemma StaleBumpOverlaps(a: VarDecl, b: VarDecl, low: seq<byte>)
    requires a.memoryResident && b.memoryResident && a.name != b.name
    requires a.declarationOffset == 100 && b.declarationOffset == 200 && !a.Covers(200)
    requires |low| == 0x40
    ensures var first := Step(OP_MSTORE, Some(100), [a, b], [0xc0, 0x40], low + BytesOf(0x80, 32));
            var second := Step(OP_MSTORE, Some(200), [a, b], [0x100, 0x40], low + BytesOf(0xc0, 32));
            After(FRESH, [first, second], 2).regions
            == [MemRegion(a.name, a.typeName, 0x80, 0x40), MemRegion(b.name, b.typeName, 0x80, 0x80)]
  {
    var first := Step(OP_MSTORE, Some(100), [a, b], [0xc0, 0x40], low + BytesOf(0x80, 32));
    var second := Step(OP_MSTORE, Some(200), [a, b], [0x100, 0x40], low + BytesOf(0xc0, 32));
    FmpWordRead(low, 0x80);
    var m1 := Next(FRESH, first);
    assert FirstVar([a, b], (v: VarDecl) => v.memoryResident && v.declarationOffset == 100) == Some(a);
    assert m1 == Mem([MemRegion(a.name, a.typeName, 0x80, 0x40)], 0x80);
    assert FirstVar([a, b], (v: VarDecl) => v.memoryResident && v.declarationOffset == 200) == Some(b);
    assert Next(m1, second).regions == m1.regions + [MemRegion(b.name, b.typeName, 0x80, 0x80)];
    assert After(FRESH, [first, second], 1) == m1;
  }

  lemma {:induction false} FmpWordRead(low: seq<byte>, fmp: U64)
    requires |low| == 0x40
    ensures ObservedFmp(low + BytesOf(fmp, 32), 0) == fmp
    ensures forall cached :: ObservedFmp(low + BytesOf(fmp, 32), cached) == fmp
  {
    PowersOf256();
    BytesOfSmall(fmp, 32, 24);
    BytesOfValue(fmp, 8);
    var memory := low + BytesOf(fmp, 32);
    assert memory[0x58..0x60] == BytesOf(fmp, 8);
  }

  // ---- reading back ---------------------------------------------------------------------------------

  /** 32 bytes at `offset`, zero beyond the snapshot. */
  function ZeroExtended(memory: seq<byte>, offset: nat): (r: seq<byte>)
    ensures |r| == 32
  {
    seq(32, i requires 0 <= i => if offset + i < |memory| then memory[offset + i] else 0)
  }

  method ReadWord(memory: seq<byte>, offset: U64) returns (r: Option<nat>)
    requires |memory| < U64_BOUND
    ensures r == if memory == [] && offset != 0 then None else Some(BigEndian(ZeroExtended(memory, offset)))
  {
    if memory == [] && offset != 0 {
      return None;
    }
    var buf := new byte[32](_ => 0);
    var end := if offset + 32 < U64_BOUND then offset + 32 else U64_BOUND - 1;
    var availEnd := if end < |memory| then end else |memory|;
    if |memory| <= offset {
      assert ZeroExtended(memory, offset) == Zeros(32);
      ZeroValue(32);
      return Some(0);
    }
    for i := 0 to availEnd - offset
      invariant forall j :: 0 <= j < i ==> buf[j] == memory[offset + j]
      invariant forall j :: i <= j < 32 ==> buf[j] == 0
    {
      buf[i] := memory[offset + i];
    }
    assert buf[..] == ZeroExtended(memory, offset);
    return Some(BigEndian(buf[..]));
  }

  lemma {:induction false} ZeroValue(n: nat)
    ensures BigEndian(Zeros(n)) == 0
  {
    if n == 0 {
    } else {
      ZeroValue(n - 1);
      assert Zeros(n)[..n - 1] == Zeros(n - 1);
    }
  }

  /** The most recently registered region of that name. */
  function Region(regions: seq<MemRegion>, name: string): (r: Option<MemRegion>)
    ensures r.Some? <==> IsRegistered(regions, name)
    ensures r.Some? ==> r.value in regions && r.value.name == name
  {
    if regions == [] then None
    else if regions[|regions| - 1].name == name then
      assert regions[|regions| - 1] in regions;
      Some(regions[|regions| - 1])
    else
      assert forall r :: r in regions <==> r in regions[..|regions| - 1] || r == regions[|regions| - 1];
      Region(regions[..|regions| - 1], name)
  }

  /** `get_field_value`: the word at a relative offset; the bound check is a `usize` sum. */
  function FieldValue(regions: seq<MemRegion>, name: string, fieldOffset: U64, memory: seq<byte>): Option<nat> {
    var r := Region(regions, name);
    if r.None? || r.value.size < SumU64(fieldOffset, 32) then None
    else
      var at := SumU64(r.value.base, fieldOffset);
      if memory == [] && at != 0 then None else Some(BigEndian(ZeroExtended(memory, at)))
  }

  /** What MSTORE does to memory: grown with zeros to whole words, then overwritten. */
  function Mstored(memory: seq<byte>, dest: nat, value: Word): seq<byte> {
    var size := if |memory| < dest + 32 then (dest + 63) / 32 * 32 else |memory|;
    var grown := memory + Zeros(size - |memory|);
    grown[..dest] + BytesOf(value, 32) + grown[dest + 32..]
  }

  /** The lookup finds the last region of a name. */
  lemma {:induction false} LatestRegion(regions: seq<MemRegion>, i: nat)
    requires i < |regions| && forall j :: i < j < |regions| ==> regions[j].name != regions[i].name
    ensures Region(regions, regions[i].name) == Some(regions[i])
  {
    if i == |regions| - 1 {
    } else {
      LatestRegion(regions[..|regions| - 1], i);
    }
  }

  lemma MstoredReadsBack(memory: seq<byte>, dest: nat, value: Word)
    ensures Mstored(memory, dest, value) != []
    ensures BigEndian(ZeroExtended(Mstored(memory, dest, value), dest)) == value
  {
    assert ZeroExtended(Mstored(memory, dest, value), dest) == BytesOf(value, 32);
    PowersOf256();
    BytesOfValue(value, 32);
  }

  /** A field write reads back: when a 32-byte write is attributed to region `i`, asking for that
      field of that variable in the memory after the write yields the stored value. */
  lemma AttributedFieldReadsBack(regions: seq<MemRegion>, top: U64, dest: U64, value: Word, memory: seq<byte>, i: nat)
    requires Disciplined(regions, top) && dest + 32 < U64_BOUND
    requires i < |regions| && Attributed(regions, dest, 32) == [MemAssignment(regions[i].name, dest, 32)]
    ensures regions[i].base <= dest
    ensures FieldValue(regions, regions[i].name, dest - regions[i].base, Mstored(memory, dest, value)) == Some(value)
  {
    var taker := FirstTaker(regions, dest, 32).value;
    assert taker == i;
    assert regions[i].End() == regions[i].base + regions[i].size;
    LatestRegion(regions, i);
    MstoredReadsBack(memory, dest, value);
  }

  /** A field is shown exactly when its word lies inside the variable's region and there is a snapshot; an empty
      one shows the word at zero only. */
  lemma FieldShownIff(regions: seq<MemRegion>, i: nat, fieldOffset: U64, memory: seq<byte>)
    requires i < |regions| && forall j :: i < j < |regions| ==> regions[j].name != regions[i].name
    requires fieldOffset + 32 < U64_BOUND && regions[i].base + regions[i].size < U64_BOUND
    ensures FieldValue(regions, regions[i].name, fieldOffset, memory)
            == if fieldOffset + 32 <= regions[i].size && (memory == [] ==> regions[i].base + fieldOffset == 0)
               then Some(BigEndian(ZeroExtended(memory, regions[i].base + fieldOffset))) else None
  {
    LatestRegion(regions, i);
  }

  /** A write whose end wraps around 64 bits passes the test of a region it does not touch. */
  lemma WrappedWriteMisattributed()
    ensures var r := MemRegion("s", "struct S memory", 0x80, 0x40);
            var dest := U64_BOUND - 1;
            && Disciplined([r], 0xc0) && !ClearOfWrap(r, dest)
            && Attributed([r], dest, 32) == [MemAssignment("s", dest, 32)] && !RightlyAttributed([r], dest, 32)
  {
    assert Takes(MemRegion("s", "struct S memory", 0x80, 0x40), U64_BOUND - 1, 32);
  }
}
