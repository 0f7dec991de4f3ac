/** The operand stacks of nested frames along a trace, and a tracker for each: what both recording
    loops keep of them. */
module TraceStacks {
  import opened Basics
  import opened StructLog
  import opened EvmStack
  import opened StackTracker
  import opened ArgStaging
  import opened StackSimulation

  // ---- the EVM's side ---------------------------------------------------------------------------------

  /** The open frames after `i` steps, each by the number of its latest step, outermost first. */
  function Latest(logs: seq<Log>, i: nat): (r: seq<nat>)
    requires DepthTrace(logs) && i <= |logs|
    ensures |r| == (if i == 0 then 0 else logs[i - 1].depth)
    ensures forall e :: 0 <= e < |r| ==> r[e] < i && logs[r[e]].depth == e + 1
  {
    if i == 0 then []
    else
      var before, d := Latest(logs, i - 1), logs[i - 1].depth;
      before[..d - 1] + [i - 1]
  }

  predicate Within(steps: seq<nat>, n: nat) {
    forall k :: k in steps ==> k < n
  }

  lemma InitWithin(steps: seq<nat>, n: nat)
    requires steps != [] && Within(steps, n)
    ensures steps[|steps| - 1] < n && Within(steps[..|steps| - 1], n)
  {
    var init := steps[..|steps| - 1];
    assert steps[|steps| - 1] in steps;
    forall k | k in init ensures k < n {
      var j :| 0 <= j < |init| && init[j] == k;
      assert steps[j] in steps;
    }
  }

  /** The steps that each open frame has executed, outermost first, after `i` steps. */
  function OwnSteps(logs: seq<Log>, i: nat): (r: seq<seq<nat>>)
    requires DepthTrace(logs) && i <= |logs|
    ensures |r| == PreviousDepth(logs, i)
    ensures forall e :: 0 <= e < |r| ==> Within(r[e], i)
  {
    if i == 0 then [[]]
    else
      var before, d := OwnSteps(logs, i - 1), logs[i - 1].depth;
      var running := if d > |before| then [] else before[d - 1];
      before[..d - 1] + [running + [i - 1]]
  }

  lemma {:induction false} OwnStepsNext(logs: seq<Log>, k: nat, i: nat)
    requires DepthTrace(logs) && k + 1 == i <= |logs|
    ensures var d, before := logs[k].depth - 1, OwnSteps(logs, k);
            OwnSteps(logs, i) == before[..d] + [(if d < |before| then before[d] else []) + [k]]
  {
  }

  /** How the EVM drives the operand stacks of nested frames: a frame begins with an empty stack, and
      its next step, possibly after whole sub-calls, sees the result of its previous opcode. A frame's
      last step may be anything: a return, a revert, INVALID, an unknown opcode or a stack underflow. */
  ghost predicate EvmTrace(logs: seq<Log>) {
    DepthTrace(logs) && forall i :: 0 <= i < |logs| ==> EvmStep(logs, i)
  }

  ghost predicate EvmStep(logs: seq<Log>, i: nat)
    requires DepthTrace(logs) && i < |logs|
  {
    if logs[i].depth > |Latest(logs, i)| then logs[i].stack == Some([])
    else Continues(logs[Latest(logs, i)[logs[i].depth - 1]], logs[i])
  }

  /** A frame's next step sees what its latest opcode left. */
  ghost predicate Continues(last: Log, log: Log) {
    && last.op.Some? && last.stack.Some? && log.stack.Some?
    && Executes(last.op.value, last.stack.value, log.stack.value)
  }

  /** The opcode finds its operands. */
  predicate HasOperands(log: Log) {
    log.op.Some? && log.stack.Some? && Removed(log.op.value) <= |log.stack.value|
  }

  /** The stack length a frame's latest opcode leaves. */
  function LengthAfter(log: Log): int {
    if log.op.Some? && log.stack.Some? then |log.stack.value| - Removed(log.op.value) + Added(log.op.value) else 0
  }

  lemma ContinuesLength(last: Log, log: Log)
    requires Continues(last, log)
    ensures HasOperands(last) && |log.stack.value| == LengthAfter(last)
  {
  }

  lemma StepSees(logs: seq<Log>, i: nat)
    requires EvmTrace(logs) && i < |logs|
    ensures logs[i].stack.Some?
    ensures |logs[i].stack.value| == if logs[i].depth > |Latest(logs, i)| then 0
            else LengthAfter(logs[Latest(logs, i)[logs[i].depth - 1]])
    ensures logs[i].depth <= |Latest(logs, i)| ==> HasOperands(logs[Latest(logs, i)[logs[i].depth - 1]])
  {
    assert EvmStep(logs, i);
    if logs[i].depth <= |Latest(logs, i)| {
      ContinuesLength(logs[Latest(logs, i)[logs[i].depth - 1]], logs[i]);
    }
  }

  // ---- a loop's step as an abstract step ----------------------------------------------------------------

  /** What follows the opcode: an internal call seeds when its arguments are staged and its callee and
      stack are known, any other internal call or return resets. */
  function JumpAfter(log: Log, site: Site, staged: bool): After {
    if !site.located || site.jump.Regular? then Keep
    else if site.jump.Into? && staged && site.target.Some? && log.stack.Some? then Seed(Names(site.target.value))
    else Reset
  }

  /** A step of the trace as a step of an abstract run. */
  function TraceStep(log: Log, site: Site, staged: bool): Step
    requires log.op.Some?
  {
    Step(log.op.value, site.offset, site.vars, JumpAfter(log, site, staged))
  }

  // ---- trackers against stacks --------------------------------------------------------------------------

  /** Whether a step leaves its tracker exact: an internal return resets it, an internal call that is staged
      for a resolved callee synchronises it again, and every other step leaves it as it was. */
  predicate StaysExact(exact: bool, site: Site, staged: bool) {
    if !site.located then exact
    else match site.jump
      case Into => staged && site.target.Some?
      case OutOf => false
      case Regular => exact
  }

  /** Along an EVM trace, one open frame: its tracker against the operand stack that its latest opcode
      leaves, unless that opcode lacks an operand and so ends the frame. */
  ghost predicate FrameTracked(s: Slots, latest: Log, exact: bool) {
    HasOperands(latest) ==> |s| <= LengthAfter(latest) && (exact ==> |s| == LengthAfter(latest))
  }

  /** A step on a tracker that is at most, or exactly, as deep as the stack the step sees. */
  lemma StepTracked(s: Slots, log: Log, site: Site, staged: bool, exact: bool)
    requires log.op.Some? && log.stack.Some? && |s| <= |log.stack.value| && (exact ==> |s| == |log.stack.value|)
    requires site.located && site.jump.Into? ==> log.op == Some(0x56)
    ensures FrameTracked(Next(s, TraceStep(log, site, staged), |log.stack.value|), log, StaysExact(exact, site, staged))
  {
    if HasOperands(log) {
      var op := log.op.value;
      var tag := if IsPush(op) then LabelForPush(site.offset, site.vars) else None;
      assert |Processed(s, op, site.offset, site.vars).slots| == |Moved(s, op, tag)|;
    }
  }

  /** The tracker that a step finds: the continuing frame's, or a new frame's empty one. */
  function FoundSlots(trackers: seq<Slots>, depth: nat): Slots
    requires 1 <= depth
  {
    if depth <= |trackers| then trackers[depth - 1] else []
  }

  /** Whether the tracker that step `j` finds is exact: a new frame's is. */
  function FoundExact(logs: seq<Log>, j: nat, exact: seq<bool>): bool
    requires DepthTrace(logs) && j < |logs|
  {
    if logs[j].depth <= |exact| then exact[logs[j].depth - 1] else true
  }

  ghost predicate AllTracked(logs: seq<Log>, i: nat, trackers: seq<Slots>, exact: seq<bool>)
    requires DepthTrace(logs) && i <= |logs|
  {
    && |trackers| == |exact| == |Latest(logs, i)|
    && forall e :: 0 <= e < |trackers| ==> FrameTracked(trackers[e], logs[Latest(logs, i)[e]], exact[e])
  }

  /** The tracker a step starts with, against the stack the step sees. */
  lemma StartsTracked(logs: seq<Log>, i: nat, trackers: seq<Slots>, exact: seq<bool>, s: Slots, flag: bool)
    requires EvmTrace(logs) && i < |logs| && AllTracked(logs, i, trackers, exact)
    requires var k := logs[i].depth - 1; if k < |trackers| then s == trackers[k] && flag == exact[k] else s == []
    ensures logs[i].stack.Some? && |s| <= |logs[i].stack.value| && (flag ==> |s| == |logs[i].stack.value|)
  {
    StepSees(logs, i);
    var k := logs[i].depth - 1;
    if k < |trackers| {
      assert FrameTracked(trackers[k], logs[Latest(logs, i)[k]], exact[k]);
    }
  }

  /** What the step leaves: its own frame's tracker changed, deeper ones dropped. */
  lemma EndsTracked(
    logs: seq<Log>, i: nat, k: nat, trackers: seq<Slots>, exact: seq<bool>, now: seq<Slots>, exact': seq<bool>)
    requires DepthTrace(logs) && i < |logs| && AllTracked(logs, i, trackers, exact) && k + 1 == logs[i].depth
    requires |now| == |exact'| == k + 1 && k <= |trackers| && now[..k] == trackers[..k] && exact'[..k] == exact[..k]
    requires FrameTracked(now[k], logs[i], exact'[k])
    ensures AllTracked(logs, i + 1, now, exact')
  {
    var before, latest := Latest(logs, i), Latest(logs, i + 1);
    assert latest == before[..k] + [i];
    forall e | 0 <= e < |now| ensures FrameTracked(now[e], logs[latest[e]], exact'[e]) {
      if e < k {
        assert latest[e] == before[e] && FrameTracked(trackers[e], logs[before[e]], exact[e]);
        assert now[e] == now[..k][e] == trackers[e] && exact'[e] == exact'[..k][e] == exact[e];
      } else {
        assert e == k && latest[k] == i;
      }
    }
  }
}
