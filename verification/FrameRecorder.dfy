/** The multi-contract recording loop (src/recorder.rs, record_from_structlog_multi_contract): one
    tracker, cache and frame context per call depth, and the call tree. */
module FrameRecorder {
  import opened Basics
  import opened StructLog
  import opened StackTracker
  import opened ArgStaging
  import opened StorageLayout
  import opened ContractRegistry
  import MemoryTracker
  import MappingNames
  import StorageState
  import CallTree
  import RevertDecode
  import CallStream

  datatype FrameContext = FrameContext(address: Address, isDelegate: bool, delegateProxy: Option<Address>)

  type Names = map<Word, string>

  /** The loop's variables; `calls` lists the call-tree operations performed so far. */
  datatype State = State(
    prevDepth: nat,
    frames: seq<FrameContext>,
    calls: seq<CallTree.Event>,
    trackers: seq<Slots>,
    memories: seq<MemoryTracker.Mem>,
    variables: seq<map<string, StorageState.Value>>,
    slotValues: seq<map<U64, Word>>,
    mappingNames: seq<Names>,
    events: seq<Event>)

  /** What stays fixed during a recording. */
  datatype Config = Config(registry: Entries, entry: Address, hash: MappingNames.Hash)

  function Initial(config: Config): State {
    State(1, [FrameContext(config.entry, false, None)], [], [], [], [map[]], [map[]], [map[]], [])
  }

  // ---- entering and leaving frames ------------------------------------------------------------------

  /** The callee address operand: the low 160 bits of the second stack item. */
  function TargetOperand(log: Log): Address {
    if log.stack.Some? && 2 <= |log.stack.value| then log.stack.value[|log.stack.value| - 2] % U160_BOUND else 0
  }

  function Entry(prev: Option<Log>, frames: seq<FrameContext>): (FrameContext, CallTree.CallType) {
    var op := if prev.Some? then prev.value.op else None;
    if op == Some(OP_CALL) || op == Some(OP_CALLCODE)
    then (FrameContext(TargetOperand(prev.value), false, None), CallTree.Call)
    else if op == Some(OP_DELEGATECALL) then
      var proxy := if frames == [] then 0 else frames[|frames| - 1].address;
      (FrameContext(TargetOperand(prev.value), true, Some(proxy)), CallTree.DelegateCall)
    else if op == Some(OP_STATICCALL) then (FrameContext(TargetOperand(prev.value), false, None), CallTree.StaticCall)
    else if op == Some(OP_CREATE) then (FrameContext(0, false, None), CallTree.Create)
    else if op == Some(OP_CREATE2) then (FrameContext(0, false, None), CallTree.Create2)
    else (FrameContext(0, false, None), CallTree.Call)
  }

  /** `n` pops that never take the last element. */
  function Lowered<T>(s: seq<T>, n: nat): (r: seq<T>)
    ensures |r| == (if |s| == 0 then 0 else Max(1, |s| - n)) && r <= s
  {
    if |s| == 0 then s else s[..Max(1, |s| - n)]
  }

  function Exits(n: nat, step: nat): (r: seq<CallTree.Event>)
    ensures |r| == n
  {
    seq(n, _ => CallTree.Exit(step))
  }

  /** All per-depth stacks after the depth change of step `step`. */
  function Resized(st: State, prev: Option<Log>, depth: nat, step: nat): State {
    if depth > st.prevDepth then Raised(st, prev, depth, step) else Fallen(st, depth, step)
  }

  /** Frames left until `depth`; the first step of all leaves none and creates the first trackers. */
  function Fallen(st: State, depth: nat, step: nat): State
    requires depth <= st.prevDepth
  {
    var left := Left(st, st.prevDepth - depth, step);
    left.(trackers := Grown(left.trackers, depth, []), memories := Grown(left.memories, depth, MemoryTracker.FRESH))
  }

  /** A frame entered. */
  function Raised(st: State, prev: Option<Log>, depth: nat, step: nat): State {
    var (frame, callType) := Entry(prev, st.frames);
    State(st.prevDepth, st.frames + [frame], st.calls + [CallTree.Enter(frame.address, callType, step)],
          Grown(st.trackers, depth, []), Grown(st.memories, depth, MemoryTracker.FRESH),
          Grown(st.variables, depth, map[]), Grown(st.slotValues, depth, map[]), Grown(st.mappingNames, depth, map[]),
          st.events + [RegisterCall])
  }

  /** `n` frames left. */
  function Left(st: State, n: nat, step: nat): State {
    State(st.prevDepth, Lowered(st.frames, n), st.calls + Exits(n, step),
          Shrunk(st.trackers, n), Shrunk(st.memories, n),
          Lowered(st.variables, n), Lowered(st.slotValues, n), Lowered(st.mappingNames, n),
          st.events + CallStream.Returns(n))
  }

  lemma LeftNothing(st: State, step: nat)
    ensures Left(st, 0, step) == st
  {
  }

  lemma LoweredTwice<T>(s: seq<T>, k: nat)
    ensures Lowered(Lowered(s, k), 1) == Lowered(s, k + 1)
    ensures Shrunk(Shrunk(s, k), 1) == Shrunk(s, k + 1)
  {
  }

  lemma LeftMore(st: State, k: nat, step: nat)
    ensures Lowered(Lowered(st.frames, k), 1) == Lowered(st.frames, k + 1)
    ensures Shrunk(Shrunk(st.trackers, k), 1) == Shrunk(st.trackers, k + 1)
            && Shrunk(Shrunk(st.memories, k), 1) == Shrunk(st.memories, k + 1)
    ensures Lowered(Lowered(st.variables, k), 1) == Lowered(st.variables, k + 1)
    ensures Lowered(Lowered(st.slotValues, k), 1) == Lowered(st.slotValues, k + 1)
    ensures Lowered(Lowered(st.mappingNames, k), 1) == Lowered(st.mappingNames, k + 1)
    ensures st.calls + Exits(k, step) + [CallTree.Exit(step)] == st.calls + Exits(k + 1, step)
    ensures st.events + CallStream.Returns(k) + [RegisterReturn] == st.events + CallStream.Returns(k + 1)
  {
    LoweredTwice(st.frames, k);
    LoweredTwice(st.trackers, k);
    LoweredTwice(st.memories, k);
    LoweredTwice(st.variables, k);
    LoweredTwice(st.slotValues, k);
    LoweredTwice(st.mappingNames, k);
    assert Exits(k, step) + [CallTree.Exit(step)] == Exits(k + 1, step);
    assert CallStream.Returns(k) + [RegisterReturn] == CallStream.Returns(k + 1);
  }

  // ---- the artifacts a frame is recorded with ---------------------------------------------------------

  const NOTHING := View(None, (logs, i) => NOWHERE)

  /** Code facts and storage layout for the innermost frame. */
  function FrameView(config: Config, frame: FrameContext): View {
    if frame.isDelegate then
      if frame.delegateProxy.None? then NOTHING
      else
        var view := config.registry.GetDelegatecall(frame.address, frame.delegateProxy.value);
        if view.Some? then view.value else NOTHING
    else
      var own, initial := config.registry.Get(frame.address), config.registry.Get(config.entry);
      if own.Some? then View(own.value.layout, own.value.site)
      else if initial.Some? then View(initial.value.layout, initial.value.site)
      else NOTHING
  }

  // ---- what a step does inside its frame -----------------------------------------------------------------

  /** No call is absorbed here: every located internal call seeds and every return resets. */
  function JumpSlots(s: Slots, log: Log, site: Site): Slots {
    if !site.located then s
    else match site.jump
      case Into => StagedSlots(site.target, log.stack, 1)
      case OutOf => []
      case Regular => s
  }

  function JumpEvents(log: Log, site: Site): seq<Event> {
    if !site.located then []
    else match site.jump
      case Into => CallStream.StagedEvents(site, log) + [RegisterCall]
      case OutOf => [RegisterReturn]
      case Regular => []
  }

  /** The tracker of the step's frame after its opcode and its jump, the others as they were. */
  function TrackersAfter(trackers: seq<Slots>, log: Log, site: Site): (r: seq<Slots>)
    requires 1 <= log.depth <= |trackers|
    ensures |r| == |trackers|
  {
    var k := log.depth - 1;
    trackers[k := JumpSlots(CallStream.OpcodeSlots(trackers[k], log, site), log, site)]
  }

  /** The memory tracker sees MLOAD, MSTORE and MSTORE8 inside known functions. */
  function MemoryAfter(m: MemoryTracker.Mem, log: Log, site: Site): MemoryTracker.Mem {
    if log.op.Some? && 0x51 <= log.op.value <= 0x53 && site.located && site.inFunction
    then MemoryTracker.Next(m,
      MemoryTracker.Step(log.op.value, site.offset, site.vars, log.StackOrEmpty(), RevertDecode.Snapshot(log.memory)))
    else m
  }

  function NamesAfter(names: Names, config: Config, layout: Option<Layout>, log: Log): Names {
    if log.op == Some(OP_KECCAK256) && log.stack.Some? && layout.Some? then
      MappingNames.Handled(layout.value, config.hash, names, log.stack.value, RevertDecode.Snapshot(log.memory))
    else names
  }

  function StorageAfter(st: StorageState.State, names: Names, layout: Option<Layout>, log: Log): StorageState.State {
    if log.op == Some(OP_SSTORE) && 2 <= |log.StackOrEmpty()| then
      var stack := log.StackOrEmpty();
      StorageState.Stored(layout, names, st, stack[|stack| - 1], stack[|stack| - 2])
    else st
  }

  /** Every per-depth stack has an element for the current depth. */
  predicate Sized(st: State, depth: nat) {
    && 1 <= depth <= |st.trackers| && depth <= |st.memories|
    && depth <= |st.variables| && depth <= |st.slotValues| && depth <= |st.mappingNames|
    && st.frames != []
  }

  function Inside(config: Config, st: State, log: Log, view: View, site: Site): State
    requires Sized(st, log.depth)
  {
    var k := log.depth - 1;
    var names := NamesAfter(st.mappingNames[k], config, view.layout, log);
    var storage := StorageAfter(StorageState.State(st.variables[k], st.slotValues[k]), names, view.layout, log);
    st.(prevDepth := log.depth,
        trackers := TrackersAfter(st.trackers, log, site),
        memories := st.memories[k := MemoryAfter(st.memories[k], log, site)],
        mappingNames := st.mappingNames[k := names],
        variables := st.variables[k := storage.variables],
        slotValues := st.slotValues[k := storage.slots],
        events := st.events + JumpEvents(log, site))
  }

  /** The storage stacks are never shorter than the depth, so their elements can be addressed by it. */
  predicate Deep(st: State) {
    && st.prevDepth >= 1 && st.frames != []
    && |st.variables| >= st.prevDepth && |st.slotValues| >= st.prevDepth && |st.mappingNames| >= st.prevDepth
  }

  lemma ResizedIsSized(st: State, prev: Option<Log>, depth: nat, step: nat)
    requires 1 <= depth && Deep(st)
    ensures Sized(Resized(st, prev, depth, step), depth)
    ensures Deep(Resized(st, prev, depth, step).(prevDepth := depth))
  {
  }

  /** A step in the innermost frame, with that frame's artifacts. */
  function InFrame(config: Config, st: State, logs: seq<Log>, i: nat): State
    requires i < |logs| && Sized(st, logs[i].depth)
  {
    var view := FrameView(config, st.frames[|st.frames| - 1]);
    Inside(config, st, logs[i], view, view.site(logs, i))
  }

  function Next(config: Config, st: State, logs: seq<Log>, i: nat): State
    requires i < |logs| && 1 <= logs[i].depth && Deep(st)
  {
    ResizedIsSized(st, Previous(logs, i), logs[i].depth, i);
    InFrame(config, Resized(st, Previous(logs, i), logs[i].depth, i), logs, i)
  }

  predicate Traces(logs: seq<Log>) {
    forall i :: 0 <= i < |logs| ==> 1 <= logs[i].depth
  }

  /** The state after the first `i` steps. */
  function After(config: Config, logs: seq<Log>, i: nat): (st: State)
    requires Traces(logs) && i <= |logs|
    ensures Deep(st)
  {
    if i == 0 then Initial(config) else Next(config, After(config, logs, i - 1), logs, i - 1)
  }

  // ---- runs as sequences of states ------------------------------------------------------------------------

  ghost predicate StepAt(config: Config, logs: seq<Log>, states: seq<State>, i: nat)
    requires i < |logs| && |states| == |logs| + 1
  {
    1 <= logs[i].depth && Deep(states[i]) && states[i + 1] == Next(config, states[i], logs, i)
  }

  /** `states[i]` is the state before step i. */
  ghost predicate IsRun(config: Config, logs: seq<Log>, states: seq<State>) {
    && |states| == |logs| + 1 && states[0] == Initial(config)
    && forall i :: 0 <= i < |logs| ==> StepAt(config, logs, states, i)
  }

  function Table<T>(f: nat --> T, n: nat): (r: seq<T>)
    requires forall i: nat :: i < n ==> f.requires(i)
    ensures |r| == n && forall i: nat :: i < n ==> r[i] == f(i)
  {
    seq(n, i requires 0 <= i < n => f(i))
  }

  ghost predicate Reached(config: Config, logs: seq<Log>, states: seq<State>, i: nat)
    requires Traces(logs) && i <= |logs| && |states| == |logs| + 1
  {
    states[i] == After(config, logs, i)
  }

  lemma StepOf(config: Config, logs: seq<Log>, states: seq<State>, i: nat)
    requires Traces(logs) && i < |logs| && |states| == |logs| + 1
    requires Reached(config, logs, states, i) && Reached(config, logs, states, i + 1)
    ensures StepAt(config, logs, states, i)
  {
  }

  /** The states that the loop goes through are a run. */
  lemma RunOf(config: Config, logs: seq<Log>) returns (states: seq<State>)
    requires Traces(logs)
    ensures IsRun(config, logs, states)
    ensures forall i :: 0 <= i <= |logs| ==> Reached(config, logs, states, i)
  {
    states := Table((i: nat) requires i <= |logs| => After(config, logs, i), |logs| + 1);
    forall i | 0 <= i <= |logs| ensures Reached(config, logs, states, i) {
    }
    assert Reached(config, logs, states, 0);
    forall i | 0 <= i < |logs| ensures StepAt(config, logs, states, i) {
      assert Reached(config, logs, states, i) && Reached(config, logs, states, i + 1);
      StepOf(config, logs, states, i);
    }
  }

  // ---- the loop ------------------------------------------------------------------------------------------

  class Recorder {
    var prevDepth: nat
    var frameStack: seq<FrameContext>
    var stackTrackers: seq<Slots>
    var memoryTrackers: seq<MemoryTracker.Mem>
    var storageStates: seq<map<string, StorageState.Value>>
    var slotValuesPerFrame: seq<map<U64, Word>>
    var mappingSlotNamesPerFrame: seq<Names>
    var events: seq<Event>
    const callTree: CallTree.CallTree
    ghost var calls: seq<CallTree.Event>

    ghost function Current(): State
      reads this
    {
      State(prevDepth, frameStack, calls, stackTrackers, memoryTrackers, storageStates,
            slotValuesPerFrame, mappingSlotNamesPerFrame, events)
    }

    /** The call tree is the one built by the recorded operations. */
    ghost predicate Valid(config: Config)
      reads this, callTree
    {
      callTree.Valid() && callTree.State() == CallTree.Built(config.entry, calls)
    }

    constructor (config: Config)
      ensures Current() == Initial(config) && Valid(config) && fresh(callTree)
    {
      prevDepth, frameStack := 1, [FrameContext(config.entry, false, None)];
      stackTrackers, memoryTrackers := [], [];
      storageStates, slotValuesPerFrame, mappingSlotNamesPerFrame := [map[]], [map[]], [map[]];
      events, calls := [], [];
      callTree := new CallTree.CallTree(config.entry);
    }

    method SizeTrackers(depth: nat)
      modifies this`stackTrackers, this`memoryTrackers
      ensures stackTrackers == Grown(old(stackTrackers), depth, [])
      ensures memoryTrackers == Grown(old(memoryTrackers), depth, MemoryTracker.FRESH)
    {
      stackTrackers := Grow(stackTrackers, depth, []);
      memoryTrackers := Grow(memoryTrackers, depth, MemoryTracker.FRESH);
    }

    method EnterTree(config: Config, address: Address, callType: CallTree.CallType, step: nat)
      requires Valid(config)
      modifies this`calls, callTree
      ensures Valid(config) && calls == old(calls) + [CallTree.Enter(address, callType, step)]
    {
      callTree.EnterCall(address, callType, step);
      BuiltEnter(config.entry, calls, address, callType, step);
      calls := calls + [CallTree.Enter(address, callType, step)];
    }

    method ExitTree(config: Config, step: nat)
      requires Valid(config)
      modifies this`calls, callTree
      ensures Valid(config) && calls == old(calls) + [CallTree.Exit(step)]
    {
      callTree.ExitCall(step);
      BuiltExit(config.entry, calls, step);
      calls := calls + [CallTree.Exit(step)];
    }

    method EnterFrame(config: Config, prev: Option<Log>, depth: nat, step: nat)
      requires Valid(config)
      modifies this, callTree
      ensures Current() == Raised(old(Current()), prev, depth, step) && Valid(config)
    {
      var (frame, callType) := Entry(prev, frameStack);
      EnterTree(config, frame.address, callType, step);
      frameStack := frameStack + [frame];
      events := events + [RegisterCall];
      SizeTrackers(depth);
      storageStates := Grow(storageStates, depth, map[]);
      slotValuesPerFrame := Grow(slotValuesPerFrame, depth, map[]);
      mappingSlotNamesPerFrame := Grow(mappingSlotNamesPerFrame, depth, map[]);
    }

    /** The storage caches of the first frame are never popped. */
    method PopStorage()
      modifies this`storageStates, this`slotValuesPerFrame, this`mappingSlotNamesPerFrame
      ensures storageStates == Lowered(old(storageStates), 1)
              && slotValuesPerFrame == Lowered(old(slotValuesPerFrame), 1)
      ensures mappingSlotNamesPerFrame == Lowered(old(mappingSlotNamesPerFrame), 1)
    {
      if |storageStates| > 1 {
        storageStates := storageStates[..|storageStates| - 1];
      }
      if |slotValuesPerFrame| > 1 {
        slotValuesPerFrame := slotValuesPerFrame[..|slotValuesPerFrame| - 1];
      }
      if |mappingSlotNamesPerFrame| > 1 {
        mappingSlotNamesPerFrame := mappingSlotNamesPerFrame[..|mappingSlotNamesPerFrame| - 1];
      }
    }

    /** One frame's worth of pops. */
    method LeaveFrame(config: Config, step: nat)
      requires Valid(config)
      modifies this, callTree
      ensures Valid(config) && prevDepth == old(prevDepth)
      ensures frameStack == Lowered(old(frameStack), 1) && calls == old(calls) + [CallTree.Exit(step)]
      ensures stackTrackers == Shrunk(old(stackTrackers), 1) && memoryTrackers == Shrunk(old(memoryTrackers), 1)
      ensures storageStates == Lowered(old(storageStates), 1)
              && slotValuesPerFrame == Lowered(old(slotValuesPerFrame), 1)
      ensures mappingSlotNamesPerFrame == Lowered(old(mappingSlotNamesPerFrame), 1)
      ensures events == old(events) + [RegisterReturn]
    {
      events := events + [RegisterReturn];
      stackTrackers := Shrunk(stackTrackers, 1);
      memoryTrackers := Shrunk(memoryTrackers, 1);
      PopStorage();
      ExitTree(config, step);
      if |frameStack| > 1 {
        frameStack := frameStack[..|frameStack| - 1];
      }
    }

    method LeaveFrames(config: Config, depth: nat, step: nat)
      requires depth <= prevDepth && Valid(config)
      modifies this, callTree
      ensures Current() == Left(old(Current()), old(prevDepth) - depth, step) && Valid(config)
    {
      var depthDiff := prevDepth - depth;
      ghost var before := Current();
      LeftNothing(before, step);
      for k := 0 to depthDiff
        invariant Valid(config) && Current() == Left(before, k, step)
      {
        LeaveFrame(config, step);
        LeftMore(before, k, step);
      }
    }

    method FallTo(config: Config, depth: nat, step: nat)
      requires depth <= prevDepth && Valid(config)
      modifies this, callTree
      ensures Current() == Fallen(old(Current()), depth, step) && Valid(config)
    {
      LeaveFrames(config, depth, step);
      SizeTrackers(depth);
    }

    /** The KECCAK256 and SSTORE handlers on the caches of frame `idx`. */
    method RecordStorage(config: Config, log: Log, layout: Option<Layout>, idx: nat)
      requires idx < |storageStates| && idx < |slotValuesPerFrame| && idx < |mappingSlotNamesPerFrame|
      modifies this`mappingSlotNamesPerFrame, this`storageStates, this`slotValuesPerFrame
      ensures var names := NamesAfter(old(mappingSlotNamesPerFrame)[idx], config, layout, log);
              var storage := StorageAfter(StorageState.State(old(storageStates)[idx], old(slotValuesPerFrame)[idx]),
                names, layout, log);
              && mappingSlotNamesPerFrame == old(mappingSlotNamesPerFrame)[idx := names]
              && storageStates == old(storageStates)[idx := storage.variables]
              && slotValuesPerFrame == old(slotValuesPerFrame)[idx := storage.slots]
    {
      var names := NamesAfter(mappingSlotNamesPerFrame[idx], config, layout, log);
      mappingSlotNamesPerFrame := mappingSlotNamesPerFrame[idx := names];
      var storage := StorageState.State(storageStates[idx], slotValuesPerFrame[idx]);
      if log.op == Some(OP_SSTORE) {
        storage := StorageState.HandleSstore(layout, names, storage, log.StackOrEmpty());
      }
      storageStates := storageStates[idx := storage.variables];
      slotValuesPerFrame := slotValuesPerFrame[idx := storage.slots];
    }

    /** The opcode on the trackers of frame `idx`. */
    method RecordOpcode(log: Log, site: Site, idx: nat)
      requires idx < |stackTrackers| && idx < |memoryTrackers|
      modifies this`stackTrackers, this`memoryTrackers
      ensures stackTrackers
              == old(stackTrackers)[idx := CallStream.OpcodeSlots(old(stackTrackers)[idx], log, site)]
      ensures memoryTrackers == old(memoryTrackers)[idx := MemoryAfter(old(memoryTrackers)[idx], log, site)]
    {
      if log.op.Some? {
        var tracker := new StackTracker();
        tracker.slots := stackTrackers[idx];
        var _ := tracker.ProcessStep(log.op.value, site.offset, site.vars);
        stackTrackers := stackTrackers[idx := tracker.slots];
        if 0x51 <= log.op.value <= 0x53 && site.located && site.inFunction {
          var memory := new MemoryTracker.MemoryTracker();
          memory.regions, memory.lastFmp := memoryTrackers[idx].regions, memoryTrackers[idx].lastFmp;
          var _ := memory.ProcessStep(log.op.value, site.offset, site.vars, log.StackOrEmpty(),
                                      RevertDecode.Snapshot(log.memory));
          memoryTrackers := memoryTrackers[idx := memory.State()];
        }
      }
    }

    /** The jump marker on the tracker of frame `idx`. */
    method RecordJump(log: Log, site: Site, idx: nat)
      requires idx < |stackTrackers|
      modifies this`stackTrackers, this`events
      ensures stackTrackers == old(stackTrackers)[idx := JumpSlots(old(stackTrackers)[idx], log, site)]
      ensures events == old(events) + JumpEvents(log, site)
    {
      if site.located {
        var tracker := new StackTracker();
        tracker.slots := stackTrackers[idx];
        match site.jump {
          case Into =>
            var args := StageInternalCallArgs(tracker, site.target, log.stack, 1);
            events := events + CallStream.ArgEvents(args) + [RegisterCall];
          case OutOf =>
            events := events + [RegisterReturn];
            tracker.Reset();
          case Regular =>
        }
        stackTrackers := stackTrackers[idx := tracker.slots];
      }
    }

    /** The opcode and the jump marker on the trackers of frame `idx`. */
    method RecordTrackers(log: Log, site: Site, idx: nat)
      requires idx < |stackTrackers| && idx < |memoryTrackers|
      modifies this`stackTrackers, this`memoryTrackers, this`events
      ensures stackTrackers
              == old(stackTrackers)[idx :=
                 JumpSlots(CallStream.OpcodeSlots(old(stackTrackers)[idx], log, site), log, site)]
      ensures memoryTrackers == old(memoryTrackers)[idx := MemoryAfter(old(memoryTrackers)[idx], log, site)]
      ensures events == old(events) + JumpEvents(log, site)
    {
      RecordOpcode(log, site, idx);
      RecordJump(log, site, idx);
    }

    /** The step's effects on the trackers and caches of its frame. */
    method RecordInside(config: Config, log: Log, view: View, site: Site)
      requires Sized(Current(), log.depth)
      modifies this`prevDepth, this`stackTrackers, this`memoryTrackers, this`events,
               this`mappingSlotNamesPerFrame, this`storageStates, this`slotValuesPerFrame
      ensures Current() == Inside(config, old(Current()), log, view, site)
    {
      var idx := log.depth - 1;
      RecordTrackers(log, site, idx);
      RecordStorage(config, log, view.layout, idx);
      prevDepth := log.depth;
    }

    method RecordInFrame(config: Config, logs: seq<Log>, i: nat)
      requires i < |logs| && Sized(Current(), logs[i].depth)
      modifies this`prevDepth, this`stackTrackers, this`memoryTrackers, this`events,
               this`mappingSlotNamesPerFrame, this`storageStates, this`slotValuesPerFrame
      ensures Current() == InFrame(config, old(Current()), logs, i)
    {
      var view := FrameView(config, frameStack[|frameStack| - 1]);
      RecordInside(config, logs[i], view, view.site(logs, i));
    }

    method ChangeDepth(config: Config, prev: Option<Log>, depth: nat, step: nat)
      requires Valid(config)
      modifies this, callTree
      ensures Current() == Resized(old(Current()), prev, depth, step) && Valid(config)
    {
      if depth > prevDepth {
        EnterFrame(config, prev, depth, step);
      } else {
        FallTo(config, depth, step);
      }
    }

    /** One iteration of the loop. */
    method Step(config: Config, logs: seq<Log>, i: nat)
      requires i < |logs| && 1 <= logs[i].depth && Deep(Current()) && Valid(config)
      modifies this, callTree
      ensures Current() == Next(config, old(Current()), logs, i) && Valid(config)
    {
      ghost var before := Current();
      var prev := Previous(logs, i);
      ChangeDepth(config, prev, logs[i].depth, i);
      ResizedIsSized(before, prev, logs[i].depth, i);
      RecordInFrame(config, logs, i);
    }

    method RecordMultiContract(config: Config, logs: seq<Log>)
      requires Traces(logs) && Current() == Initial(config) && Valid(config)
      modifies this, callTree
      ensures Current() == After(config, logs, |logs|) && Valid(config)
    {
      for i := 0 to |logs|
        invariant Valid(config) && Current() == After(config, logs, i)
      {
        Step(config, logs, i);
      }
    }
  }

  method Grow<T>(s: seq<T>, n: nat, x: T) returns (r: seq<T>)
    ensures r == Grown(s, n, x)
  {
    r := s;
    while |r| < n
      invariant Grown(r, n, x) == Grown(s, n, x)
    {
      r := r + [x];
    }
  }

  lemma {:induction false} BuiltEnter(
    root: Address, calls: seq<CallTree.Event>, address: Address, callType: CallTree.CallType, step: nat)
    ensures var t := CallTree.Built(root, calls);
            CallTree.Built(root, calls + [CallTree.Enter(address, callType, step)])
              == CallTree.Entered(t, address, callType, step)
  {
    assert (calls + [CallTree.Enter(address, callType, step)])[..|calls|] == calls;
  }

  lemma {:induction false} BuiltExit(root: Address, calls: seq<CallTree.Event>, step: nat)
    ensures CallTree.Built(root, calls + [CallTree.Exit(step)]) == CallTree.Exited(CallTree.Built(root, calls), step)
  {
    assert (calls + [CallTree.Exit(step)])[..|calls|] == calls;
  }
}
