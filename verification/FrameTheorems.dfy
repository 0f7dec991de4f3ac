/** Theorems about whole multi-contract recordings: the per-depth stacks stay in lockstep and
    isolate frames, and the call tree is the trace's. */
module FrameTheorems {
  import opened Basics
  import opened StructLog
  import opened StackTracker
  import opened ContractRegistry
  import opened FrameRecorder
  import MemoryTracker
  import CallTree

  // ---- what one step does, piece by piece ---------------------------------------------------------------

  /** The tracker stack after a depth change. */
  function TrackersBefore(st: State, depth: nat): (r: seq<Slots>)
    ensures depth <= |r|
  {
    Grown(Shrunk(st.trackers, Max(0, st.prevDepth - depth)), depth, [])
  }

  function FramesAfter(st: State, prev: Option<Log>, depth: nat): (r: seq<FrameContext>)
    requires st.frames != []
    ensures r != []
  {
    if depth > st.prevDepth then st.frames + [Entry(prev, st.frames).0] else Lowered(st.frames, st.prevDepth - depth)
  }

  /** The source facts of step `i`, in a run: those of the frame it executes in. */
  function SiteAt(config: Config, logs: seq<Log>, after: State, i: nat): Site
    requires after.frames != []
  {
    FrameView(config, after.frames[|after.frames| - 1]).site(logs, i)
  }

  lemma FramesAt(config: Config, logs: seq<Log>, states: seq<State>, i: nat)
    requires i < |logs| && |states| == |logs| + 1 && StepAt(config, logs, states, i)
    ensures 1 <= logs[i].depth && states[i].frames != [] && states[i + 1].frames != []
    ensures states[i + 1].prevDepth == logs[i].depth
    ensures states[i + 1].frames == FramesAfter(states[i], Previous(logs, i), logs[i].depth)
  {
  }

  const MESSAGE_CALLS: set<byte> := {OP_CALL, OP_CALLCODE, OP_DELEGATECALL, OP_STATICCALL}

  /** Item `n` of an operand stack, counted from its top. */
  function Operand(stack: seq<Word>, n: nat): Word
    requires n < |stack|
  {
    stack[|stack| - 1 - n]
  }

  /** The account that a message call runs: the low 160 bits of its address operand, which lies below the gas
      (Appendix H.2 of the Ethereum Yellow Paper). */
  function Callee(log: Log): Address {
    var stack := log.StackOrEmpty();
    if |stack| < 2 then 0 else Operand(stack, 1) % U160_BOUND
  }

  /** The node that a rise after the log `prev` adds to the call tree: a message call enters the account
      on its stack, a creation and anything else an unknown one. */
  function EntryEvent(prev: Option<Log>, step: nat): CallTree.Event {
    var op := if prev.Some? && prev.value.op.Some? then prev.value.op.value else 0;
    var address :=
      if op in MESSAGE_CALLS then Callee(prev.value) else 0;
    var callType :=
      if op == OP_DELEGATECALL then CallTree.DelegateCall
      else if op == OP_STATICCALL then CallTree.StaticCall
      else if op == OP_CREATE then CallTree.Create
      else if op == OP_CREATE2 then CallTree.Create2
      else CallTree.Call;
    CallTree.Enter(address, callType, step)
  }

  lemma CalleeOperand(log: Log, below: seq<Word>, address: Address, high: nat, gas: Word)
    requires address + high * U160_BOUND < U256_BOUND && log.stack == Some(below + [address + high * U160_BOUND, gas])
    ensures Callee(log) == address && TargetOperand(log) == address
  {
    var word: Word := address + high * U160_BOUND;
    var stack := below + [word, gas];
    assert stack[|stack| - 2] == word && stack[|stack| - 1] == gas;
    assert word % U160_BOUND == address;
  }

  /** The kind of tree node that an entering opcode makes. */
  function CallKind(op: byte): CallTree.CallType {
    match op
    case 0xf4 => CallTree.DelegateCall
    case 0xfa => CallTree.StaticCall
    case 0xf0 => CallTree.Create
    case 0xf5 => CallTree.Create2
    case _ => CallTree.Call
  }

  /** The log is a CALL, CALLCODE, DELEGATECALL or STATICCALL of `address`, whatever lies deeper on its stack and
      in the upper bits of the operand. */
  predicate CallsAccount(log: Log, below: seq<Word>, address: Address, high: nat, gas: Word) {
    && log.op.Some? && log.op.value in {0xf1, 0xf2, 0xf4, 0xfa}
    && address + high * U160_BOUND < U256_BOUND && log.stack == Some(below + [address + high * U160_BOUND, gas])
  }

  /** How a message call is recorded: the frame and the tree node carry the address that lies below the gas, the
      node its kind, and a DELEGATECALL's frame the address of the caller beside it. */
  lemma EnteredCall(
    log: Log, frames: seq<FrameContext>, step: nat, below: seq<Word>, address: Address, high: nat, gas: Word)
    requires frames != [] && CallsAccount(log, below, address, high, gas)
    ensures Entry(Some(log), frames).0
            == if log.op == Some(0xf4) then FrameContext(address, true, Some(frames[|frames| - 1].address))
               else FrameContext(address, false, None)
    ensures EntryEvent(Some(log), step) == CallTree.Enter(address, CallKind(log.op.value), step)
  {
    CalleeOperand(log, below, address, high, gas);
  }

  /** A creation enters an unknown account. */
  lemma EnteredCreation(log: Log, frames: seq<FrameContext>, step: nat)
    requires log.op == Some(0xf0) || log.op == Some(0xf5)
    ensures Entry(Some(log), frames).0 == FrameContext(0, false, None)
    ensures EntryEvent(Some(log), step) == CallTree.Enter(0, CallKind(log.op.value), step)
  {
  }

  lemma CallsAt(config: Config, logs: seq<Log>, states: seq<State>, i: nat)
    requires i < |logs| && |states| == |logs| + 1 && StepAt(config, logs, states, i)
    ensures states[i + 1].calls
            == states[i].calls + (if logs[i].depth > states[i].prevDepth then [EntryEvent(Previous(logs, i), i)]
                                  else Exits(states[i].prevDepth - logs[i].depth, i))
  {
  }

  lemma ResizedTrackers(st: State, prev: Option<Log>, depth: nat, step: nat)
    requires st.frames != []
    ensures Resized(st, prev, depth, step).trackers == TrackersBefore(st, depth)
    ensures Resized(st, prev, depth, step).frames == FramesAfter(st, prev, depth)
  {
  }

  lemma InsideTrackers(config: Config, st: State, log: Log, view: View, site: Site)
    requires Sized(st, log.depth)
    ensures Inside(config, st, log, view, site).frames == st.frames
    ensures Inside(config, st, log, view, site).trackers == TrackersAfter(st.trackers, log, site)
  {
  }

  lemma InFrameTrackers(config: Config, st: State, logs: seq<Log>, i: nat)
    requires i < |logs| && Sized(st, logs[i].depth)
    ensures InFrame(config, st, logs, i).frames == st.frames
    ensures InFrame(config, st, logs, i).trackers == TrackersAfter(st.trackers, logs[i], SiteAt(config, logs, st, i))
  {
    var view := FrameView(config, st.frames[|st.frames| - 1]);
    InsideTrackers(config, st, logs[i], view, view.site(logs, i));
  }

  lemma TrackersAt(config: Config, logs: seq<Log>, states: seq<State>, i: nat)
    requires i < |logs| && |states| == |logs| + 1 && StepAt(config, logs, states, i)
    ensures 1 <= logs[i].depth && states[i + 1].frames != []
    ensures states[i + 1].trackers
            == TrackersAfter(TrackersBefore(states[i], logs[i].depth), logs[i], SiteAt(config, logs, states[i + 1], i))
  {
    var resized := Resized(states[i], Previous(logs, i), logs[i].depth, i);
    ResizedTrackers(states[i], Previous(logs, i), logs[i].depth, i);
    InFrameTrackers(config, resized, logs, i);
    assert states[i + 1] == InFrame(config, resized, logs, i);
  }

  /** The other per-depth stacks change only at the depth of the step. */
  lemma CachesAt(config: Config, logs: seq<Log>, states: seq<State>, i: nat)
    requires i < |logs| && |states| == |logs| + 1 && StepAt(config, logs, states, i)
    ensures var resized, now := Resized(states[i], Previous(logs, i), logs[i].depth, i), states[i + 1];
            && |now.memories| == |resized.memories| && |now.variables| == |resized.variables|
            && |now.slotValues| == |resized.slotValues| && |now.mappingNames| == |resized.mappingNames|
            && SameOuter(now, resized, logs[i].depth - 1)
  {
    var resized := Resized(states[i], Previous(logs, i), logs[i].depth, i);
    ResizedIsSized(states[i], Previous(logs, i), logs[i].depth, i);
    var view := FrameView(config, resized.frames[|resized.frames| - 1]);
    InsideKeepsOuter(config, resized, logs[i], view, view.site(logs, i));
  }

  /** Everything recorded for the `d` outer frames is the same in both states. */
  predicate SameOuter(a: State, b: State, d: nat) {
    && SamePrefix(a.trackers, b.trackers, d) && SamePrefix(a.memories, b.memories, d)
    && SamePrefix(a.variables, b.variables, d) && SamePrefix(a.slotValues, b.slotValues, d)
    && SamePrefix(a.mappingNames, b.mappingNames, d)
  }

  predicate SamePrefix<T(==)>(a: seq<T>, b: seq<T>, d: nat) {
    d <= |a| && d <= |b| && a[..d] == b[..d]
  }

  lemma InsideKeepsOuter(config: Config, st: State, log: Log, view: View, site: Site)
    requires Sized(st, log.depth)
    ensures var now := Inside(config, st, log, view, site);
            && SameOuter(now, st, log.depth - 1)
            && |now.memories| == |st.memories| && |now.variables| == |st.variables|
            && |now.slotValues| == |st.slotValues| && |now.mappingNames| == |st.mappingNames|
  {
  }

  // ---- lockstep ---------------------------------------------------------------------------------------

  /** The frame stack, the call-tree path and all storage caches are as deep as the trace. */
  predicate StorageInStep(st: State, depth: nat) {
    && st.prevDepth == depth && |st.frames| == depth && CallTree.OpenFrames(st.calls) + 1 == depth
    && |st.variables| == depth && |st.slotValues| == depth && |st.mappingNames| == depth
  }

  predicate InStep(st: State, depth: nat) {
    StorageInStep(st, depth) && |st.trackers| == depth && |st.memories| == depth
  }

  lemma ResizedInStep(st: State, prev: Option<Log>, depth: nat, step: nat)
    requires 1 <= depth <= st.prevDepth + 1 && StorageInStep(st, st.prevDepth)
    requires InStep(st, st.prevDepth) || (st.trackers == [] && st.memories == [] && depth == st.prevDepth == 1)
    ensures var r := Resized(st, prev, depth, step);
            |r.memories| == depth && |r.variables| == depth && |r.slotValues| == depth && |r.mappingNames| == depth
    ensures |TrackersBefore(st, depth)| == depth && |FramesAfter(st, prev, depth)| == depth
  {
  }

  lemma CallsInStep(config: Config, logs: seq<Log>, states: seq<State>, i: nat)
    requires i < |logs| && |states| == |logs| + 1 && StepAt(config, logs, states, i)
    requires CallTree.OpenFrames(states[i].calls) + 1 == states[i].prevDepth && logs[i].depth <= states[i].prevDepth + 1
    ensures CallTree.OpenFrames(states[i + 1].calls) + 1 == logs[i].depth
  {
    CallsAt(config, logs, states, i);
    if logs[i].depth > states[i].prevDepth {
      assert states[i + 1].calls[..|states[i].calls|] == states[i].calls;
    } else {
      CallTree.ExitsClose(states[i].calls, Exits(states[i].prevDepth - logs[i].depth, i));
    }
  }

  /** What holds after `i` steps; the first step itself creates the first trackers. */
  predicate Lockstep(st: State, logs: seq<Log>, i: nat)
    requires i <= |logs|
  {
    && StorageInStep(st, PreviousDepth(logs, i))
    && if i == 0 then st.trackers == [] && st.memories == [] else InStep(st, PreviousDepth(logs, i))
  }

  lemma StepInLockstep(config: Config, logs: seq<Log>, states: seq<State>, k: nat)
    requires DepthTrace(logs) && IsRun(config, logs, states) && k < |logs| && Lockstep(states[k], logs, k)
    ensures Lockstep(states[k + 1], logs, k + 1)
  {
    assert StepAt(config, logs, states, k);
    ResizedInStep(states[k], Previous(logs, k), logs[k].depth, k);
    assert states[k + 1].prevDepth == logs[k].depth && |states[k + 1].frames| == logs[k].depth by {
      FramesAt(config, logs, states, k);
    }
    assert |states[k + 1].trackers| == logs[k].depth by { TrackersAt(config, logs, states, k); }
    assert CallTree.OpenFrames(states[k + 1].calls) + 1 == logs[k].depth by { CallsInStep(config, logs, states, k); }
    CachesAt(config, logs, states, k);
  }

  /** Lockstep: after every step, all per-depth stacks have the length of the current depth. */
  lemma {:induction false} AllStacksInLockstep(config: Config, logs: seq<Log>, states: seq<State>, i: nat)
    requires DepthTrace(logs) && IsRun(config, logs, states) && i <= |logs|
    ensures Lockstep(states[i], logs, i)
  {
    if i == 0 {
    } else {
      AllStacksInLockstep(config, logs, states, i - 1);
      StepInLockstep(config, logs, states, i - 1);
    }
  }

  /** A rise enters what the log before it calls, a fall exits one frame per level. */
  function DepthEvents(logs: seq<Log>, k: nat): seq<CallTree.Event>
    requires k < |logs|
  {
    var before := PreviousDepth(logs, k);
    if logs[k].depth > before then [EntryEvent(Previous(logs, k), k)] else Exits(before - logs[k].depth, k)
  }

  /** The entries and exits of the trace. */
  function TreeEvents(logs: seq<Log>, i: nat): seq<CallTree.Event>
    requires i <= |logs|
  {
    if i == 0 then [] else TreeEvents(logs, i - 1) + DepthEvents(logs, i - 1)
  }

  /** The operations are those of the trace, and none of them is an exit at the root. */
  predicate TracesCalls(calls: seq<CallTree.Event>, logs: seq<Log>, i: nat)
    requires i <= |logs|
  {
    calls == TreeEvents(logs, i) && CallTree.Effective(calls) == calls
  }

  lemma {:induction false} EffectiveEvents(calls: seq<CallTree.Event>, logs: seq<Log>, k: nat)
    requires DepthTrace(logs) && k < |logs| && CallTree.OpenFrames(calls) + 1 == PreviousDepth(logs, k)
    requires CallTree.Effective(calls) == calls
    ensures CallTree.Effective(calls + DepthEvents(logs, k)) == calls + DepthEvents(logs, k)
  {
    var before := PreviousDepth(logs, k);
    if logs[k].depth > before {
      CallTree.EffectiveSnoc(calls, EntryEvent(Previous(logs, k), k));
    } else {
      CallTree.ExitsClose(calls, Exits(before - logs[k].depth, k));
    }
  }

  lemma {:induction false} TreeEventsNext(logs: seq<Log>, k: nat, i: nat)
    requires k + 1 == i <= |logs|
    ensures TreeEvents(logs, i) == TreeEvents(logs, k) + DepthEvents(logs, k)
  {
    assert TreeEvents(logs, k + 1) == TreeEvents(logs, k) + DepthEvents(logs, k);
  }

  lemma {:induction false} EffectiveStep(
    calls: seq<CallTree.Event>, now: seq<CallTree.Event>, logs: seq<Log>, k: nat, i: nat)
    requires DepthTrace(logs) && k + 1 == i <= |logs| && CallTree.OpenFrames(calls) + 1 == PreviousDepth(logs, k)
    requires TracesCalls(calls, logs, k) && now == calls + DepthEvents(logs, k)
    ensures TracesCalls(now, logs, i)
  {
    EffectiveEvents(calls, logs, k);
    TreeEventsNext(logs, k, i);
  }

  lemma CallsStep(config: Config, logs: seq<Log>, states: seq<State>, k: nat, i: nat)
    requires DepthTrace(logs) && IsRun(config, logs, states) && k + 1 == i <= |logs|
    ensures states[i].calls == states[k].calls + DepthEvents(logs, k)
    ensures CallTree.OpenFrames(states[k].calls) + 1 == PreviousDepth(logs, k)
  {
    assert states[k].prevDepth == PreviousDepth(logs, k)
      && CallTree.OpenFrames(states[k].calls) + 1 == PreviousDepth(logs, k) by {
      AllStacksInLockstep(config, logs, states, k);
    }
    assert StepAt(config, logs, states, k);
    CallsAt(config, logs, states, k);
    assert states[k + 1] == states[i];
  }

  lemma {:induction false} RecordedCalls(config: Config, logs: seq<Log>, states: seq<State>, i: nat)
    requires DepthTrace(logs) && IsRun(config, logs, states) && i <= |logs|
    ensures TracesCalls(states[i].calls, logs, i)
  {
    if i == 0 {
      assert states[0].calls == [];
    } else {
      var k := i - 1;
      RecordedCalls(config, logs, states, k);
      CallsStep(config, logs, states, k, i);
      EffectiveStep(states[k].calls, states[i].calls, logs, k, i);
    }
  }

  /** The recorder's call tree is the tree of the trace: its path is as long as the trace is deep, its
      preorder reading gives back the entries and exits of the logs, with the accounts and kinds of the
      calls that made them, and its step ranges nest. */
  lemma {:induction false} RecordedTree(config: Config, logs: seq<Log>, states: seq<State>, i: nat, q: seq<nat>)
    requires DepthTrace(logs) && IsRun(config, logs, states) && 0 < i <= |logs|
    requires CallTree.ValidPath(CallTree.Built(config.entry, states[i].calls).root, q)
    ensures var t := CallTree.Built(config.entry, states[i].calls);
            && |t.path| + 1 == logs[i - 1].depth
            && CallTree.History(t.root, t.path) == TreeEvents(logs, i)
            && (CallTree.At(t.root, q).endStep == 0 <==> q <= t.path)
            && (CallTree.At(t.root, q).endStep != 0 ==> CallTree.Nested(CallTree.At(t.root, q)))
  {
    AllStacksInLockstep(config, logs, states, i);
    TreeStepsIncrease(config, logs, states, i);
    RecordedCalls(config, logs, states, i);
    var t := CallTree.Built(config.entry, states[i].calls);
    CallTree.FaithfulHistory(config.entry, states[i].calls);
    CallTree.StepRangesNest(config.entry, states[i].calls, q);
    CallTree.BuiltNested(config.entry, states[i].calls);
    CallTree.ClosedIffOffSpine(t.root, t.path, CallTree.Now(states[i].calls), q);
  }

  lemma AppendedSteps(calls: seq<CallTree.Event>, more: seq<CallTree.Event>, step: nat)
    requires CallTree.Increasing(calls) && CallTree.Now(calls) <= step
    requires forall k :: 0 <= k < |more| ==> more[k].step == step
    requires more != [] ==> 1 <= step
    ensures CallTree.Increasing(calls + more) && CallTree.Now(calls + more) <= step
  {
    var all := calls + more;
    forall k | 0 <= k < |all| ensures all[k].step <= step && 1 <= all[k].step && (k < |calls| ==> all[k] == calls[k]) {
      if k < |calls| {
        assert calls[k].step <= CallTree.Now(calls);
      } else {
        assert all[k] == more[k - |calls|];
      }
    }
  }

  lemma TreeStep(config: Config, logs: seq<Log>, states: seq<State>, k: nat)
    requires DepthTrace(logs) && IsRun(config, logs, states) && k < |logs|
    requires CallTree.Increasing(states[k].calls) && CallTree.Now(states[k].calls) <= Max(0, k - 1)
    ensures CallTree.Increasing(states[k + 1].calls) && CallTree.Now(states[k + 1].calls) <= k
  {
    AllStacksInLockstep(config, logs, states, k);
    assert StepAt(config, logs, states, k);
    CallsAt(config, logs, states, k);
    if logs[k].depth > states[k].prevDepth {
      AppendedSteps(states[k].calls, [EntryEvent(Previous(logs, k), k)], k);
    } else {
      AppendedSteps(states[k].calls, Exits(states[k].prevDepth - logs[k].depth, k), k);
    }
  }

  /** The step arguments that reach the call tree start at 1 and never decrease. */
  lemma {:induction false} TreeStepsIncrease(config: Config, logs: seq<Log>, states: seq<State>, i: nat)
    requires DepthTrace(logs) && IsRun(config, logs, states) && i <= |logs|
    ensures CallTree.Increasing(states[i].calls) && CallTree.Now(states[i].calls) <= Max(0, i - 1)
  {
    if i == 0 {
    } else {
      TreeStepsIncrease(config, logs, states, i - 1);
      TreeStep(config, logs, states, i - 1);
    }
  }

  lemma FramesStep(config: Config, logs: seq<Log>, states: seq<State>, k: nat)
    requires DepthTrace(logs) && IsRun(config, logs, states) && k < |logs|
    ensures var frames, d := states[k].frames, logs[k].depth;
            && frames != [] && (d > |frames| ==> k > 0)
            && states[k + 1].frames == if d > |frames| then frames + [Entry(Previous(logs, k), frames).0]
               else frames[..d]
  {
    assert states[k].prevDepth == |states[k].frames| && (k == 0 ==> |states[k].frames| == 1) by {
      AllStacksInLockstep(config, logs, states, k);
    }
    FramesAt(config, logs, states, k);
  }

  /** In every recording a rise after a message call opens a frame and a tree node for the account that the call
      names. */
  lemma RecordedEntry(
    config: Config, logs: seq<Log>, states: seq<State>, k: nat, below: seq<Word>, address: Address, high: nat,
    gas: Word)
    requires DepthTrace(logs) && IsRun(config, logs, states) && 0 < k < |logs| && logs[k].depth > logs[k - 1].depth
    requires CallsAccount(logs[k - 1], below, address, high, gas)
    ensures var frames, op := states[k].frames, logs[k - 1].op.value;
            && frames != []
            && states[k + 1].frames
               == frames + [FrameContext(address, op == 0xf4,
                                         if op == 0xf4 then Some(frames[|frames| - 1].address) else None)]
            && states[k + 1].calls == states[k].calls + [CallTree.Enter(address, CallKind(op), k)]
  {
    AllStacksInLockstep(config, logs, states, k);
    FramesStep(config, logs, states, k);
    CallsStep(config, logs, states, k, k + 1);
    EnteredCall(logs[k - 1], states[k].frames, k, below, address, high, gas);
  }

  // ---- isolation ----------------------------------------------------------------------------------------

  lemma {:induction false} ResizedPrefix<T>(s: seq<T>, n: nat, depth: nat, x: T, d: nat)
    requires d <= |s| - n && n <= |s|
    ensures SamePrefix(Grown(Shrunk(s, n), depth, x), s, d)
  {
    assert Shrunk(s, n) <= Grown(Shrunk(s, n), depth, x);
    assert Grown(Shrunk(s, n), depth, x)[..d] == Shrunk(s, n)[..d];
  }

  lemma {:induction false} GrownPrefix<T>(s: seq<T>, depth: nat, x: T, d: nat)
    requires d <= |s|
    ensures SamePrefix(Grown(s, depth, x), s, d)
  {
    assert Grown(s, depth, x)[..d] == s[..d];
  }

  lemma LoweredPrefix<T>(s: seq<T>, n: nat, d: nat)
    requires d <= |s| - n
    ensures SamePrefix(Lowered(s, n), s, d)
  {
  }

  lemma ResizedKeepsOuter(st: State, prev: Option<Log>, depth: nat, step: nat, d: nat)
    requires InStep(st, st.prevDepth) && d <= depth && d <= st.prevDepth
    ensures SameOuter(Resized(st, prev, depth, step), st, d)
  {
    if depth > st.prevDepth {
      GrownPrefix(st.trackers, depth, [], d);
      GrownPrefix(st.memories, depth, MemoryTracker.FRESH, d);
      GrownPrefix(st.variables, depth, map[], d);
      GrownPrefix(st.slotValues, depth, map[], d);
      GrownPrefix(st.mappingNames, depth, map[], d);
    } else {
      var n := st.prevDepth - depth;
      ResizedPrefix(st.trackers, n, depth, [], d);
      ResizedPrefix(st.memories, n, depth, MemoryTracker.FRESH, d);
      LoweredPrefix(st.variables, n, d);
      LoweredPrefix(st.slotValues, n, d);
      LoweredPrefix(st.mappingNames, n, d);
    }
  }

  lemma ShorterPrefix(a: State, b: State, c: State, long: nat, d: nat)
    requires SameOuter(a, b, long) && SameOuter(b, c, d) && d <= long
    ensures SameOuter(a, c, d)
  {
    PrefixChain(a.trackers, b.trackers, c.trackers, long, d);
    PrefixChain(a.memories, b.memories, c.memories, long, d);
    PrefixChain(a.variables, b.variables, c.variables, long, d);
    PrefixChain(a.slotValues, b.slotValues, c.slotValues, long, d);
    PrefixChain(a.mappingNames, b.mappingNames, c.mappingNames, long, d);
  }

  lemma PrefixChain<T>(a: seq<T>, b: seq<T>, c: seq<T>, long: nat, d: nat)
    requires SamePrefix(a, b, long) && SamePrefix(b, c, d) && d <= long
    ensures SamePrefix(a, c, d)
  {
    assert a[..d] == a[..long][..d] && b[..d] == b[..long][..d];
  }

  lemma StepKeepsOuter(config: Config, logs: seq<Log>, states: seq<State>, k: nat, j: nat, d: nat)
    requires DepthTrace(logs) && IsRun(config, logs, states) && 0 < k && k + 1 == j <= |logs|
    requires d < logs[k].depth && d <= logs[k - 1].depth
    ensures SameOuter(states[j], states[k], d)
  {
    var resized := Resized(states[k], Previous(logs, k), logs[k].depth, k);
    AllStacksInLockstep(config, logs, states, k);
    assert StepAt(config, logs, states, k);
    CachesAt(config, logs, states, k);
    ResizedKeepsOuter(states[k], Previous(logs, k), logs[k].depth, k, d);
    ShorterPrefix(states[j], resized, states[k], logs[k].depth - 1, d);
  }

  /** Isolation: while the steps from `i` to `j` run at depths above d, the trackers and caches of the
      d outer frames are unchanged. */
  lemma {:induction false} SubCallKeepsOuter(config: Config, logs: seq<Log>, states: seq<State>, i: nat, j: nat, d: nat)
    requires DepthTrace(logs) && IsRun(config, logs, states) && 0 < i <= j <= |logs| && d <= logs[i - 1].depth
    requires forall k :: i <= k < j ==> d < logs[k].depth
    ensures SameOuter(states[j], states[i], d)
    decreases j
  {
    AllStacksInLockstep(config, logs, states, i);
    if i == j {
    } else {
      var k := j - 1;
      SubCallKeepsOuter(config, logs, states, i, k, d);
      StepKeepsOuter(config, logs, states, k, j, d);
      ShorterPrefix(states[j], states[k], states[i], d, d);
    }
  }

  /** A caller resumes with what it had: when the trace is back at its depth, the step there starts from
      the tracker, memory tracker and caches that the caller's last step left. */
  lemma CallerResumes(config: Config, logs: seq<Log>, states: seq<State>, i: nat, j: nat)
    requires DepthTrace(logs) && IsRun(config, logs, states) && 0 < i < j < |logs|
    requires logs[j].depth == logs[i - 1].depth && forall k :: i <= k < j ==> logs[i - 1].depth < logs[k].depth
    ensures SameOuter(Resized(states[j], Previous(logs, j), logs[j].depth, j), states[i], logs[j].depth)
  {
    var d := logs[j].depth;
    SubCallKeepsOuter(config, logs, states, i, j, d);
    AllStacksInLockstep(config, logs, states, j);
    ResizedKeepsOuter(states[j], Previous(logs, j), d, j, d);
    ShorterPrefix(Resized(states[j], Previous(logs, j), d, j), states[j], states[i], d, d);
  }

  /** A new frame starts fresh. */
  lemma NewFrameIsFresh(config: Config, logs: seq<Log>, states: seq<State>, i: nat)
    requires DepthTrace(logs) && IsRun(config, logs, states) && 0 < i < |logs| && logs[i].depth == logs[i - 1].depth + 1
    ensures var r := Resized(states[i], Previous(logs, i), logs[i].depth, i);
            var k := logs[i].depth - 1;
            && |r.trackers| == |r.memories| == |r.variables| == |r.slotValues| == |r.mappingNames| == k + 1
            && r.trackers[k] == [] && r.memories[k] == MemoryTracker.FRESH
            && r.variables[k] == map[] && r.slotValues[k] == map[] && r.mappingNames[k] == map[]
  {
    AllStacksInLockstep(config, logs, states, i);
  }
}
