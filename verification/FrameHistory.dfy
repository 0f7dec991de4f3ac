/** Non-interference of frames: what the multi-contract loop holds for an open frame is what that
    frame's own steps alone would have left, and so the single-frame theorems hold in recordings. */
module FrameHistory {
  import opened Basics
  import opened StructLog
  import opened StackTracker
  import opened StorageLayout
  import opened ContractRegistry
  import opened FrameRecorder
  import opened FrameTheorems
  import opened TraceStacks
  import CallStream
  import MemoryTracker
  import MappingNames
  import StorageState
  import RevertDecode
  import Bytes

  /** Everything recorded for one frame. */
  datatype Frame = Frame(slots: Slots, memory: MemoryTracker.Mem, names: Names, storage: StorageState.State)

  const NEW_FRAME := Frame([], MemoryTracker.FRESH, map[], StorageState.EMPTY)

  predicate HasFrame(st: State, e: nat) {
    e < |st.trackers| && e < |st.memories| && e < |st.variables| && e < |st.slotValues| && e < |st.mappingNames|
  }

  function FrameAt(st: State, e: nat): Frame
    requires HasFrame(st, e)
  {
    Frame(st.trackers[e], st.memories[e], st.mappingNames[e], StorageState.State(st.variables[e], st.slotValues[e]))
  }

  /** Step `k` on a frame in isolation. */
  function Stepped(config: Config, logs: seq<Log>, view: View, f: Frame, k: nat): Frame
    requires k < |logs|
  {
    SteppedIn(config, logs[k], view, view.site(logs, k), f)
  }

  function SteppedIn(config: Config, log: Log, view: View, site: Site, f: Frame): Frame {
    var names := NamesAfter(f.names, config, view.layout, log);
    Frame(JumpSlots(CallStream.OpcodeSlots(f.slots, log, site), log, site), MemoryAfter(f.memory, log, site),
          names, StorageAfter(f.storage, names, view.layout, log))
  }

  /** A frame that executes just these steps, from its start. */
  function Alone(config: Config, logs: seq<Log>, view: View, steps: seq<nat>): Frame
    requires Within(steps, |logs|)
  {
    if steps == [] then NEW_FRAME
    else
      var n := |steps| - 1;
      InitWithin(steps, |logs|);
      Stepped(config, logs, view, Alone(config, logs, view, steps[..n]), steps[n])
  }

  // ---- one step of the loop ------------------------------------------------------------------------------

  lemma SameOuterFrame(a: State, b: State, d: nat, e: nat)
    requires SameOuter(a, b, d) && e < d
    ensures HasFrame(a, e) && HasFrame(b, e) && FrameAt(a, e) == FrameAt(b, e)
  {
    SameElement(a.trackers, b.trackers, d, e);
    SameElement(a.memories, b.memories, d, e);
    SameElement(a.variables, b.variables, d, e);
    SameElement(a.slotValues, b.slotValues, d, e);
    SameElement(a.mappingNames, b.mappingNames, d, e);
  }

  lemma SameElement<T>(a: seq<T>, b: seq<T>, d: nat, e: nat)
    requires SamePrefix(a, b, d) && e < d
    ensures a[e] == b[e]
  {
    assert a[..d][e] == b[..d][e];
  }

  /** The frame that a step finds: the continuing one, or a new one. */
  function Found(logs: seq<Log>, st: State, k: nat): Frame
    requires k < |logs| && (k > 0 && 1 <= logs[k].depth <= logs[k - 1].depth ==> HasFrame(st, logs[k].depth - 1))
  {
    if k > 0 && 1 <= logs[k].depth <= logs[k - 1].depth then FrameAt(st, logs[k].depth - 1) else NEW_FRAME
  }

  lemma RaisedIsNew(st: State, prev: Option<Log>, step: nat)
    requires InStep(st, st.prevDepth)
    ensures var r := Resized(st, prev, st.prevDepth + 1, step);
            HasFrame(r, st.prevDepth) && FrameAt(r, st.prevDepth) == NEW_FRAME
  {
  }

  lemma InitialIsNew(config: Config, prev: Option<Log>)
    ensures var r := Resized(Initial(config), prev, 1, 0);
            HasFrame(r, 0) && FrameAt(r, 0) == NEW_FRAME
  {
  }

  /** The depth change keeps the open frames and finds the running one. */
  lemma FoundAfterResize(config: Config, logs: seq<Log>, states: seq<State>, k: nat)
    requires DepthTrace(logs) && IsRun(config, logs, states) && k < |logs|
    ensures var st, d := states[k], logs[k].depth;
            var r := Resized(st, Previous(logs, k), d, k);
            && (k > 0 && d <= logs[k - 1].depth ==> HasFrame(st, d - 1))
            && HasFrame(r, d - 1) && FrameAt(r, d - 1) == Found(logs, st, k)
            && (k > 0 ==> SameOuter(r, st, d - 1))
  {
    AllStacksInLockstep(config, logs, states, k);
    var st, d := states[k], logs[k].depth;
    if k == 0 {
      InitialIsNew(config, None);
    } else if d > st.prevDepth {
      RaisedIsNew(st, Previous(logs, k), k);
      ResizedKeepsOuter(st, Previous(logs, k), d, k, d - 1);
    } else {
      ResizedKeepsOuter(st, Previous(logs, k), d, k, d);
      SameOuterFrame(Resized(st, Previous(logs, k), d, k), st, d, d - 1);
      ResizedKeepsOuter(st, Previous(logs, k), d, k, d - 1);
    }
  }

  lemma InsideFrame(config: Config, st: State, log: Log, view: View, site: Site)
    requires Sized(st, log.depth) && HasFrame(st, log.depth - 1)
    ensures var now, e := Inside(config, st, log, view, site), log.depth - 1;
            HasFrame(now, e) && FrameAt(now, e) == SteppedIn(config, log, view, site, FrameAt(st, e))
  {
  }

  lemma RunningFrame(config: Config, st: State, logs: seq<Log>, k: nat)
    requires k < |logs| && Sized(st, logs[k].depth) && HasFrame(st, logs[k].depth - 1)
    ensures var now, e, view :=
            InFrame(config, st, logs, k), logs[k].depth - 1, FrameView(config, st.frames[|st.frames| - 1]);
            HasFrame(now, e) && FrameAt(now, e) == Stepped(config, logs, view, FrameAt(st, e), k)
  {
    var view := FrameView(config, st.frames[|st.frames| - 1]);
    InsideFrame(config, st, logs[k], view, view.site(logs, k));
  }

  lemma OuterFrames(config: Config, st: State, logs: seq<Log>, k: nat)
    requires k < |logs| && Sized(st, logs[k].depth)
    ensures SameOuter(InFrame(config, st, logs, k), st, logs[k].depth - 1)
  {
    var view := FrameView(config, st.frames[|st.frames| - 1]);
    InsideKeepsOuter(config, st, logs[k], view, view.site(logs, k));
  }

  lemma StepInFrame(config: Config, logs: seq<Log>, states: seq<State>, k: nat)
    requires DepthTrace(logs) && IsRun(config, logs, states) && k < |logs|
    ensures var resized, d := Resized(states[k], Previous(logs, k), logs[k].depth, k), logs[k].depth;
            && Sized(resized, d) && states[k + 1] == InFrame(config, resized, logs, k)
            && |states[k + 1].frames| == d && states[k + 1].frames == resized.frames
  {
    assert StepAt(config, logs, states, k);
    ResizedIsSized(states[k], Previous(logs, k), logs[k].depth, k);
    AllStacksInLockstep(config, logs, states, k + 1);
  }

  /** One step of the loop, frame by frame: the running frame makes the step... */
  lemma RunningSteps(config: Config, logs: seq<Log>, states: seq<State>, k: nat)
    requires DepthTrace(logs) && IsRun(config, logs, states) && k < |logs|
    ensures k > 0 && logs[k].depth <= logs[k - 1].depth ==> HasFrame(states[k], logs[k].depth - 1)
    ensures var now, e := states[k + 1], logs[k].depth - 1;
            && e < |now.frames| && HasFrame(now, e)
            && FrameAt(now, e) == Stepped(config, logs, FrameView(config, now.frames[e]), Found(logs, states[k], k), k)
  {
    StepInFrame(config, logs, states, k);
    FoundAfterResize(config, logs, states, k);
    RunningFrame(config, Resized(states[k], Previous(logs, k), logs[k].depth, k), logs, k);
  }

  /** ...and the outer ones stay. */
  lemma OutersKept(config: Config, logs: seq<Log>, states: seq<State>, k: nat)
    requires DepthTrace(logs) && IsRun(config, logs, states) && 0 < k < |logs|
    ensures SameOuter(states[k + 1], states[k], logs[k].depth - 1)
  {
    var resized, outer := Resized(states[k], Previous(logs, k), logs[k].depth, k), logs[k].depth - 1;
    assert SameOuter(resized, states[k], outer) by { FoundAfterResize(config, logs, states, k); }
    assert SameOuter(states[k + 1], resized, outer) by {
      StepInFrame(config, logs, states, k);
      OuterFrames(config, resized, logs, k);
    }
    ShorterPrefix(states[k + 1], resized, states[k], outer, outer);
  }

  // ---- whole recordings ----------------------------------------------------------------------------------------

  /** Frame `e` holds what its own steps alone leave. */
  predicate RunsAlone(config: Config, logs: seq<Log>, st: State, i: nat, e: nat)
    requires DepthTrace(logs) && i <= |logs|
  {
    && e < PreviousDepth(logs, i) && e < |st.frames| && HasFrame(st, e)
    && var steps := OwnSteps(logs, i)[e];
       assert Within(steps, i);
       FrameAt(st, e) == Alone(config, logs, FrameView(config, st.frames[e]), steps)
  }

  /** A step's frame context is the one the frame was entered with. */
  lemma FrameContexts(config: Config, logs: seq<Log>, states: seq<State>, k: nat, e: nat)
    requires DepthTrace(logs) && IsRun(config, logs, states) && 0 < k < |logs| && e < logs[k].depth
             && e < logs[k - 1].depth
    ensures e < |states[k].frames| && e < |states[k + 1].frames| && states[k + 1].frames[e] == states[k].frames[e]
  {
    FramesStep(config, logs, states, k);
    assert |states[k].frames| == logs[k - 1].depth by { AllStacksInLockstep(config, logs, states, k); }
  }

  lemma {:induction false} AloneStep(config: Config, logs: seq<Log>, view: View, steps: seq<nat>, k: nat)
    requires Within(steps, |logs|) && k < |logs|
    ensures Within(steps + [k], |logs|)
    ensures Alone(config, logs, view, steps + [k]) == Stepped(config, logs, view, Alone(config, logs, view, steps), k)
  {
    assert (steps + [k])[..|steps|] == steps;
  }

  lemma RunningAlone(config: Config, logs: seq<Log>, states: seq<State>, k: nat)
    requires DepthTrace(logs) && IsRun(config, logs, states) && k < |logs|
    requires var e := logs[k].depth - 1; k > 0 && e < logs[k - 1].depth ==> RunsAlone(config, logs, states[k], k, e)
    ensures RunsAlone(config, logs, states[k + 1], k + 1, logs[k].depth - 1)
  {
    var e := logs[k].depth - 1;
    RunningSteps(config, logs, states, k);
    var view := FrameView(config, states[k + 1].frames[e]);
    var continuing := k > 0 && e < logs[k - 1].depth;
    var before := if continuing then OwnSteps(logs, k)[e] else [];
    assert Within(before, k);
    AloneStep(config, logs, view, before, k);
    assert OwnSteps(logs, k + 1)[e] == before + [k];
    if continuing {
      FrameContexts(config, logs, states, k, e);
    }
  }

  lemma OuterAlone(config: Config, logs: seq<Log>, states: seq<State>, k: nat, e: nat)
    requires DepthTrace(logs) && IsRun(config, logs, states) && 0 < k < |logs| && e < logs[k].depth - 1
    requires RunsAlone(config, logs, states[k], k, e)
    ensures RunsAlone(config, logs, states[k + 1], k + 1, e)
  {
    OutersKept(config, logs, states, k);
    SameOuterFrame(states[k + 1], states[k], logs[k].depth - 1, e);
    FrameContexts(config, logs, states, k, e);
    assert OwnSteps(logs, k + 1)[e] == OwnSteps(logs, k)[e];
  }

  /** Non-interference: after any number of steps, every open frame's tracker, memory tracker and
      caches are exactly those of its own steps run in isolation, whatever sub-calls came between. */
  lemma {:induction false} FramesRunAlone(config: Config, logs: seq<Log>, states: seq<State>, i: nat, e: nat)
    requires DepthTrace(logs) && IsRun(config, logs, states) && 0 < i <= |logs| && e < logs[i - 1].depth
    ensures RunsAlone(config, logs, states[i], i, e)
    decreases i
  {
    var k := i - 1;
    if k > 0 && e < logs[k - 1].depth {
      FramesRunAlone(config, logs, states, k, e);
    }
    if e == logs[k].depth - 1 {
      RunningAlone(config, logs, states, k);
    } else {
      OuterAlone(config, logs, states, k, e);
    }
  }

  // ---- single-frame theorems in recordings ----------------------------------------------------------------------

  /** What a step means for the storage caches. */
  function StorageOp(log: Log): Option<StorageState.Op> {
    var stack := log.StackOrEmpty();
    if log.op == Some(OP_KECCAK256) && log.stack.Some? then
      var hashed := MappingNames.KeccakOperands(stack, RevertDecode.Snapshot(log.memory));
      if hashed.Some? then Some(StorageState.Hashed(hashed.value.0, hashed.value.1)) else None
    else if log.op == Some(OP_SSTORE) && 2 <= |stack|
    then Some(StorageState.Write(stack[|stack| - 1], stack[|stack| - 2]))
    else None
  }

  function StorageOps(logs: seq<Log>, steps: seq<nat>): seq<StorageState.Op>
    requires Within(steps, |logs|)
  {
    if steps == [] then []
    else
      var n := |steps| - 1;
      InitWithin(steps, |logs|);
      var op := StorageOp(logs[steps[n]]);
      StorageOps(logs, steps[..n]) + if op.Some? then [op.value] else []
  }

  lemma {:induction false} RunSnoc(
    layout: Layout, hash: MappingNames.Hash, ops: seq<StorageState.Op>, op: StorageState.Op)
    ensures var (names, st) := StorageState.Run(layout, hash, ops);
            StorageState.Run(layout, hash, ops + [op])
            == match op
               case Hashed(key, base) => (MappingNames.Recorded(layout, hash, names, key, base), st)
               case Write(slot, value) => (names, StorageState.Stored(Some(layout), names, st, slot, value))
  {
    assert (ops + [op])[..|ops|] == ops;
  }

  /** A frame's storage caches are those of its hashes and writes. */
  lemma {:induction false} StorageAlone(config: Config, logs: seq<Log>, view: View, steps: seq<nat>)
    requires Within(steps, |logs|) && view.layout.Some?
    ensures var f := Alone(config, logs, view, steps);
            (f.names, f.storage) == StorageState.Run(view.layout.value, config.hash, StorageOps(logs, steps))
  {
    if steps == [] {
    } else {
      var n := |steps| - 1;
      InitWithin(steps, |logs|);
      StorageAlone(config, logs, view, steps[..n]);
      var op := StorageOp(logs[steps[n]]);
      if op.Some? {
        RunSnoc(view.layout.value, config.hash, StorageOps(logs, steps[..n]), op.value);
      } else {
        assert StorageOps(logs, steps) == StorageOps(logs, steps[..n]);
      }
    }
  }

  lemma RunningNames(config: Config, logs: seq<Log>, states: seq<State>, k: nat)
    requires DepthTrace(logs) && IsRun(config, logs, states) && k < |logs|
    ensures k > 0 && logs[k].depth <= logs[k - 1].depth ==> HasFrame(states[k], logs[k].depth - 1)
    ensures var now, e := states[k + 1], logs[k].depth - 1;
            && |now.frames| == e + 1 && e < |now.mappingNames|
            && now.mappingNames[e]
               == NamesAfter(Found(logs, states[k], k).names, config, FrameView(config, now.frames[e]).layout, logs[k])
  {
    RunningSteps(config, logs, states, k);
    StepInFrame(config, logs, states, k);
  }

  /** The log is a KECCAK256 over a key and a base slot that lie side by side in the dumped memory. */
  predicate HashesKey(
    log: Log, below: seq<Word>, before: seq<byte>, key: MappingNames.Key, base: Word, behind: seq<byte>, prefixed: bool)
  {
    var mem := before + key + Bytes.BytesOf(base, 32) + behind;
    && log.op == Some(0x20) && |before| < U256_BOUND && log.stack == Some(below + [64, |before|])
    && |mem| % 32 == 0 && log.memory == Some(RevertDecode.Dump(mem, prefixed))
  }

  lemma {:induction false} HashedNames(
    config: Config, names: Names, after: Names, layout: Layout, log: Log, below: seq<Word>, before: seq<byte>,
    key: MappingNames.Key, base: Word, behind: seq<byte>, prefixed: bool)
    requires HashesKey(log, below, before, key, base, behind, prefixed)
    requires after == NamesAfter(names, config, Some(layout), log)
    ensures after == MappingNames.Named(layout, names, key, base, config.hash(key + Bytes.BytesOf(base, 32)))
  {
    RevertDecode.DumpRoundTrip(before + key + Bytes.BytesOf(base, 32) + behind, prefixed);
    MappingNames.HashNamesSlot(layout, config.hash, names, below, before, key, base, behind);
  }

  /** In every recording such a step names the slot that the EVM computes, in the cache of the running frame. */
  lemma {:induction false} RecordedHashNamesSlot(
    config: Config, logs: seq<Log>, states: seq<State>, k: nat, e: nat, layout: Layout, below: seq<Word>,
    before: seq<byte>, key: MappingNames.Key, base: Word, behind: seq<byte>, prefixed: bool)
    requires DepthTrace(logs) && IsRun(config, logs, states) && k < |logs| && e + 1 == logs[k].depth
    requires HashesKey(logs[k], below, before, key, base, behind, prefixed)
    requires e < |states[k + 1].frames| && FrameView(config, states[k + 1].frames[e]).layout == Some(layout)
    ensures k > 0 && logs[k].depth <= logs[k - 1].depth ==> HasFrame(states[k], e)
    ensures e < |states[k + 1].mappingNames|
    ensures states[k + 1].mappingNames[e]
            == MappingNames.Named(layout, Found(logs, states[k], k).names, key, base,
                                  config.hash(key + Bytes.BytesOf(base, 32)))
  {
    RunningNames(config, logs, states, k);
    HashedNames(config, Found(logs, states[k], k).names, states[k + 1].mappingNames[e], layout, logs[k], below, before,
                key, base, behind, prefixed);
  }

  /** The hypotheses of the carry-forward theorem for one frame's hashes and writes, in any order. */
  ghost predicate Regular(layout: Layout, hash: MappingNames.Hash, seen: MappingNames.Inputs, ops: seq<StorageState.Op>)
  {
    && WellFormed(layout) && MappingNames.CollisionFree(layout, hash, seen)
       && MappingNames.AllSeen(seen, StorageState.HashesOf(ops))
    && StorageState.CacheFits(layout, StorageState.Run(layout, hash, ops).0)
  }

  /** Carry-forward in recordings: each open frame's slot index and compounds agree with the last writes of
      that frame's own SSTOREs, its names tell all slots apart, and its other variables agree exactly when
      the mapping slots it wrote had been hashed in time. */
  lemma {:induction false} RecordedStorageAgrees(
    config: Config, logs: seq<Log>, states: seq<State>, i: nat, e: nat, layout: Layout, seen: MappingNames.Inputs)
    requires DepthTrace(logs) && IsRun(config, logs, states) && 0 < i <= |logs| && e < logs[i - 1].depth
    requires e < |states[i].frames| && FrameView(config, states[i].frames[e]).layout == Some(layout)
    requires Within(OwnSteps(logs, i)[e], |logs|)
             && Regular(layout, config.hash, seen, StorageOps(logs, OwnSteps(logs, i)[e]))
    ensures HasFrame(states[i], e)
    ensures var f, writes := FrameAt(states[i], e), StorageState.WritesOf(StorageOps(logs, OwnSteps(logs, i)[e]));
            && StorageState.SlotsAgree(f.storage, writes)
            && StorageState.CompoundsAgree(layout, f.storage, writes)
            && (StorageState.PlainAgree(layout, f.names, f.storage, writes)
                <==> StorageState.HashedInTime(layout, config.hash, StorageOps(logs, OwnSteps(logs, i)[e])))
            && forall s: Word, t: Word :: SlotName(Some(layout), f.names, s) == SlotName(Some(layout), f.names, t) ==>
               s == t
  {
    FramesRunAlone(config, logs, states, i, e);
    StorageAlone(config, logs, FrameView(config, states[i].frames[e]), OwnSteps(logs, i)[e]);
    StorageState.RunAgrees(layout, config.hash, seen, StorageOps(logs, OwnSteps(logs, i)[e]));
  }

  /** The memory-tracker steps of a frame. */
  function MemoryOps(logs: seq<Log>, view: View, steps: seq<nat>): seq<MemoryTracker.Step>
    requires Within(steps, |logs|)
  {
    if steps == [] then []
    else
      var n := |steps| - 1;
      InitWithin(steps, |logs|);
      var log, site := logs[steps[n]], view.site(logs, steps[n]);
      MemoryOps(logs, view, steps[..n]) +
      if log.op.Some? && 0x51 <= log.op.value <= 0x53 && site.located && site.inFunction
      then [MemoryTracker.Step(log.op.value, site.offset, site.vars, log.StackOrEmpty(),
                               RevertDecode.Snapshot(log.memory))]
      else []
  }

  lemma {:induction false} AfterPrefix(
    m: MemoryTracker.Mem, steps: seq<MemoryTracker.Step>, more: seq<MemoryTracker.Step>, n: nat)
    requires n <= |steps|
    ensures MemoryTracker.After(m, steps + more, n) == MemoryTracker.After(m, steps, n)
  {
    if n == 0 {
    } else {
      AfterPrefix(m, steps, more, n - 1);
    }
  }

  lemma {:induction false} MemoryAlone(config: Config, logs: seq<Log>, view: View, steps: seq<nat>)
    requires Within(steps, |logs|)
    ensures var ops := MemoryOps(logs, view, steps);
            Alone(config, logs, view, steps).memory == MemoryTracker.After(MemoryTracker.FRESH, ops, |ops|)
  {
    if steps == [] {
    } else {
      var n := |steps| - 1;
      InitWithin(steps, |logs|);
      MemoryAlone(config, logs, view, steps[..n]);
      var before, ops := MemoryOps(logs, view, steps[..n]), MemoryOps(logs, view, steps);
      assert ops == before + ops[|before|..];
      AfterPrefix(MemoryTracker.FRESH, before, ops[|before|..], |before|);
    }
  }

  ghost predicate Orderly(ops: seq<MemoryTracker.Step>) {
    forall j :: 0 <= j < |ops| ==> MemoryTracker.OrderlyAt(MemoryTracker.FRESH, ops, j)
  }

  /** Region order in recordings: an open frame's regions lie in order without overlap exactly when each
      of its own registering bumps started at or above the end of the region before. */
  lemma {:induction false} RecordedRegionsAscendIff(
    config: Config, logs: seq<Log>, states: seq<State>, i: nat, e: nat)
    requires DepthTrace(logs) && IsRun(config, logs, states) && 0 < i <= |logs| && e < logs[i - 1].depth
    requires e < |states[i].frames| && Within(OwnSteps(logs, i)[e], |logs|)
    ensures e < |states[i].memories|
    ensures var ops := MemoryOps(logs, FrameView(config, states[i].frames[e]), OwnSteps(logs, i)[e]);
            MemoryTracker.Ascending(states[i].memories[e].regions)
            <==> MemoryTracker.AllStartAbove(MemoryTracker.FRESH, ops, |ops|)
  {
    FramesRunAlone(config, logs, states, i, e);
    var view, steps := FrameView(config, states[i].frames[e]), OwnSteps(logs, i)[e];
    MemoryAlone(config, logs, view, steps);
    var ops := MemoryOps(logs, view, steps);
    MemoryTracker.RegionsAscendIff(MemoryTracker.FRESH, ops, |ops|);
  }

  /** Region discipline in recordings: each open frame's regions are disjoint, ascending, uniquely named
      and end below the pointer, when that frame's own steps are orderly. */
  lemma {:induction false} RecordedRegionsDisciplined(
    config: Config, logs: seq<Log>, states: seq<State>, i: nat, e: nat)
    requires DepthTrace(logs) && IsRun(config, logs, states) && 0 < i <= |logs| && e < logs[i - 1].depth
    requires e < |states[i].frames| && Within(OwnSteps(logs, i)[e], |logs|)
    requires Orderly(MemoryOps(logs, FrameView(config, states[i].frames[e]), OwnSteps(logs, i)[e]))
    ensures var ops := MemoryOps(logs, FrameView(config, states[i].frames[e]), OwnSteps(logs, i)[e]);
            && e < |states[i].memories|
            && MemoryTracker.Disciplined(states[i].memories[e].regions,
                                          MemoryTracker.FmpAt(MemoryTracker.FRESH, ops, |ops|))
  {
    FramesRunAlone(config, logs, states, i, e);
    var view, steps := FrameView(config, states[i].frames[e]), OwnSteps(logs, i)[e];
    MemoryAlone(config, logs, view, steps);
    var ops := MemoryOps(logs, view, steps);
    MemoryTracker.RegionsStayDisciplined(MemoryTracker.FRESH, ops, |ops|);
  }
}
