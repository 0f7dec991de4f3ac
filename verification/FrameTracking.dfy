/** Every open frame's tracker keeps up with its EVM stack, through nested sub-calls. */
module FrameTracking {
  import opened Basics
  import opened StructLog
  import opened StackTracker
  import StackSimulation
  import opened TraceStacks
  import opened FrameRecorder
  import opened FrameTheorems
  import CallStream

  /** The multi-contract loop moves a tracker by the abstract step that stages every internal call. */
  lemma MultiContractStep(s: Slots, log: Log, site: Site)
    requires log.op.Some?
    ensures JumpSlots(CallStream.OpcodeSlots(s, log, site), log, site)
            == StackSimulation.Next(s, TraceStep(log, site, true), |log.StackOrEmpty()|)
  {
  }

  /** Internal calls are JUMPs, with the destination on the stack. */
  ghost predicate CallsAreJumps(config: Config, logs: seq<Log>, states: seq<State>)
    requires IsRun(config, logs, states)
  {
    forall i :: 0 <= i < |logs| ==> CallIsJump(config, logs, states, i)
  }

  ghost predicate CallIsJump(config: Config, logs: seq<Log>, states: seq<State>, i: nat)
    requires i < |logs| < |states|
  {
    states[i + 1].frames != [] &&
    var site := SiteAt(config, logs, states[i + 1], i);
    site.located && site.jump.Into? ==> logs[i].op == Some(0x56)
  }

  /** Before step i, the outer trackers and the one of a continuing frame are those of the last state;
      a new frame's is empty. */
  lemma {:induction false} TrackerBeforeStep(config: Config, logs: seq<Log>, states: seq<State>, i: nat)
    requires DepthTrace(logs) && IsRun(config, logs, states) && i < |logs|
    ensures var t, k, before := TrackersBefore(states[i], logs[i].depth), logs[i].depth - 1, |Latest(logs, i)|;
            && |t| == k + 1 && |states[i].trackers| == before && k <= before
            && (forall e :: 0 <= e <= k && e < before ==> t[e] == states[i].trackers[e])
            && (k == before ==> t[k] == [])
  {
    AllStacksInLockstep(config, logs, states, i);
  }

  /** Of each open frame after `i` steps, whether its tracker is exact: from the frame's start or its
      last resolved internal call, until its next internal return or unresolved internal call. */
  ghost function Exact(config: Config, logs: seq<Log>, states: seq<State>, i: nat): (r: seq<bool>)
    requires DepthTrace(logs) && IsRun(config, logs, states) && i <= |logs|
    ensures |r| == |Latest(logs, i)|
  {
    if i == 0 then []
    else
      var before := Exact(config, logs, states, i - 1);
      AllStacksInLockstep(config, logs, states, i);
      before[..logs[i - 1].depth - 1]
        + [StaysExact(FoundExact(logs, i - 1, before), SiteAt(config, logs, states[i], i - 1), true)]
  }

  lemma TrackerStep(config: Config, logs: seq<Log>, states: seq<State>, i: nat)
    requires DepthTrace(logs) && IsRun(config, logs, states) && i < |logs|
    ensures var trackers, now, k, log := states[i].trackers, states[i + 1].trackers, logs[i].depth - 1, logs[i];
            && |now| == k + 1 && k <= |trackers| && now[..k] == trackers[..k] && states[i + 1].frames != []
            && var site := SiteAt(config, logs, states[i + 1], i);
            && now[k] == JumpSlots(CallStream.OpcodeSlots(if k < |trackers| then trackers[k] else [], log, site),
               log, site)
  {
    assert StepAt(config, logs, states, i);
    TrackerBeforeStep(config, logs, states, i);
    TrackersAt(config, logs, states, i);
  }

  /** A step whose opcode is unknown and that makes no internal jump leaves its frame's tracker alone. */
  lemma UnknownOpcodeKeeps(config: Config, logs: seq<Log>, states: seq<State>, k: nat)
    requires DepthTrace(logs) && IsRun(config, logs, states) && k < |logs| && logs[k].op.None?
    requires states[k + 1].frames != [] ==>
               var site := SiteAt(config, logs, states[k + 1], k); !site.located || site.jump.Regular?
    ensures var d := logs[k].depth - 1;
            |states[k + 1].trackers| == d + 1 && states[k + 1].trackers[d] == FoundSlots(states[k].trackers, d + 1)
  {
    TrackerStep(config, logs, states, k);
  }

  /** The running frame's tracker after a step. */
  lemma RunningTracked(config: Config, logs: seq<Log>, states: seq<State>, j: nat, exact: seq<bool>)
    requires EvmTrace(logs) && IsRun(config, logs, states) && CallsAreJumps(config, logs, states) && j < |logs|
    requires AllTracked(logs, j, states[j].trackers, exact)
    ensures var k, now := logs[j].depth - 1, states[j + 1];
            && now.frames != [] && |now.trackers| == k + 1 && k <= |exact|
            && now.trackers[..k] == states[j].trackers[..k]
            && FrameTracked(now.trackers[k], logs[j],
               StaysExact(FoundExact(logs, j, exact), SiteAt(config, logs, now, j), true))
  {
    TrackerStep(config, logs, states, j);
    var trackers, k, site := states[j].trackers, logs[j].depth - 1, SiteAt(config, logs, states[j + 1], j);
    var s := if k < |trackers| then trackers[k] else [];
    StartsTracked(logs, j, trackers, exact, s, FoundExact(logs, j, exact));
    assert EvmStep(logs, j) && CallIsJump(config, logs, states, j);
    if logs[j].op.Some? {
      MultiContractStep(s, logs[j], site);
      StepTracked(s, logs[j], site, true, FoundExact(logs, j, exact));
    }
  }

  lemma ExactStep(config: Config, logs: seq<Log>, states: seq<State>, j: nat)
    requires DepthTrace(logs) && IsRun(config, logs, states) && j < |logs| && states[j + 1].frames != []
    ensures var k, before, now := logs[j].depth - 1, Exact(config, logs, states, j), Exact(config, logs, states, j + 1);
            && |now| == k + 1 && k <= |before| && now[..k] == before[..k]
            && now[k] == StaysExact(FoundExact(logs, j, before), SiteAt(config, logs, states[j + 1], j), true)
  {
  }

  /** Simulation of all frames at once: along every EVM trace, each open frame's tracker is at most as
      deep as that frame's operand stack, through arbitrarily nested sub-calls; and exactly as deep
      from the frame's start or its last resolved internal call until its own next reset, whatever
      other frames do. */
  lemma {:induction false} EveryFrameTracked(config: Config, logs: seq<Log>, states: seq<State>, i: nat)
    requires EvmTrace(logs) && IsRun(config, logs, states) && CallsAreJumps(config, logs, states) && i <= |logs|
    ensures AllTracked(logs, i, states[i].trackers, Exact(config, logs, states, i))
  {
    if i == 0 {
    } else {
      var j := i - 1;
      EveryFrameTracked(config, logs, states, j);
      var exact := Exact(config, logs, states, j);
      RunningTracked(config, logs, states, j, exact);
      ExactStep(config, logs, states, j);
      EndsTracked(logs, j, logs[j].depth - 1, states[j].trackers, exact, states[i].trackers,
        Exact(config, logs, states, i));
    }
  }
}
