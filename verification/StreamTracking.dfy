/** The trackers of the single-contract loop: one per open frame, each driven by its own frame's steps,
    and as deep as that frame's operand stack. */
module StreamTracking {
  import opened Basics
  import opened StructLog
  import opened StackTracker
  import opened CallBrackets
  import opened CallStream
  import opened TraceStacks
  import StackSimulation

  /** The single-contract loop moves a tracker by the abstract step that stages all internal calls but the
      absorbed one. */
  lemma SingleContractStep(s: Slots, log: Log, site: Site, seen: bool)
    requires log.op.Some?
    ensures JumpSlots(OpcodeSlots(s, log, site), seen, log, site)
            == StackSimulation.Next(s, TraceStep(log, site, seen), |log.StackOrEmpty()|)
  {
  }

  // ---- which internal call is absorbed --------------------------------------------------------------------

  predicate IsInto(site: Site) {
    site.located && site.jump.Into?
  }

  /** An internal call has been seen, and absorbed, among the first `i` steps. */
  predicate SeenInto(sites: seq<Site>, i: nat)
    requires i <= |sites|
  {
    exists j :: 0 <= j < i && IsInto(sites[j])
  }

  lemma AfterStep(logs: seq<Log>, sites: seq<Site>, reason: Reason, k: nat, i: nat)
    requires Traces(logs, sites) && k + 1 == i <= |logs|
    ensures var st, now := After(logs, sites, reason, k), After(logs, sites, reason, i);
            && now.absorber == AbsorberAfter(st.absorber, sites[k]) && now.prevDepth == logs[k].depth
            && var sized, d := Resized(st.trackers, st.prevDepth, logs[k].depth), logs[k].depth - 1;
               now.trackers == sized[d := JumpSlots(OpcodeSlots(sized[d], logs[k], sites[k]), st.absorber.seen,
                                                    logs[k], sites[k])]
  {
  }

  lemma SeenNext(sites: seq<Site>, k: nat, i: nat)
    requires k + 1 == i <= |sites|
    ensures SeenInto(sites, i) <==> SeenInto(sites, k) || IsInto(sites[k])
  {
  }

  lemma AbsorberNext(absorber: Absorber, site: Site)
    ensures AbsorberAfter(absorber, site).seen <==> absorber.seen || IsInto(site)
  {
  }

  lemma {:induction false} AbsorberSeen(logs: seq<Log>, sites: seq<Site>, reason: Reason, i: nat)
    requires Traces(logs, sites) && i <= |logs|
    ensures After(logs, sites, reason, i).absorber.seen <==> SeenInto(sites, i)
  {
    if i == 0 {
    } else {
      var k := i - 1;
      AbsorberSeen(logs, sites, reason, k);
      AfterStep(logs, sites, reason, k, i);
      AbsorberNext(After(logs, sites, reason, k).absorber, sites[k]);
      SeenNext(sites, k, i);
    }
  }

  // ---- lockstep and isolation -------------------------------------------------------------------------------

  /** For every trace, there are as many trackers as open frames. */
  lemma {:induction false} TrackersInLockstep(logs: seq<Log>, sites: seq<Site>, reason: Reason, i: nat)
    requires Traces(logs, sites) && i <= |logs|
    ensures var st := After(logs, sites, reason, i);
            st.prevDepth == PreviousDepth(logs, i) && |st.trackers| == if i == 0 then 0 else logs[i - 1].depth
  {
    if i == 0 {
    } else {
      var k := i - 1;
      TrackersInLockstep(logs, sites, reason, k);
      AfterStep(logs, sites, reason, k, i);
    }
  }

  /** The tracker in which a step's locals are looked up: after its opcode, before its jump. */
  function LookupSlots(logs: seq<Log>, sites: seq<Site>, reason: Reason, j: nat): Slots
    requires Traces(logs, sites) && j < |logs|
  {
    OpcodeSlots(FoundSlots(After(logs, sites, reason, j).trackers, logs[j].depth), logs[j], sites[j])
  }

  /** One step: the outer trackers stay, the running frame's makes the step. */
  lemma TrackersStep(logs: seq<Log>, sites: seq<Site>, reason: Reason, k: nat, i: nat)
    requires Traces(logs, sites) && DepthTrace(logs) && k + 1 == i <= |logs|
    ensures var before, now, d := After(logs, sites, reason, k).trackers, After(logs, sites, reason, i).trackers,
                                  logs[k].depth - 1;
            && |now| == d + 1 && d <= |before| && now[..d] == before[..d]
            && now[d] == JumpSlots(LookupSlots(logs, sites, reason, k), SeenInto(sites, k), logs[k], sites[k])
  {
    TrackersInLockstep(logs, sites, reason, k);
    AbsorberSeen(logs, sites, reason, k);
    AfterStep(logs, sites, reason, k, i);
    var st := After(logs, sites, reason, k);
    SizedTrackers(st.trackers, st.prevDepth, logs[k].depth);
  }

  lemma SizedTrackers(trackers: seq<Slots>, prevDepth: nat, depth: nat)
    requires |trackers| == prevDepth || (trackers == [] && prevDepth == 1)
    requires 1 <= depth <= |trackers| + 1
    ensures var sized := Resized(trackers, prevDepth, depth);
            && |sized| == depth && sized[..depth - 1] == trackers[..depth - 1]
            && sized[depth - 1] == FoundSlots(trackers, depth)
  {
  }

  /** A step whose opcode is unknown and that makes no internal jump leaves its frame's tracker alone. */
  lemma UnknownOpcodeKeeps(logs: seq<Log>, sites: seq<Site>, reason: Reason, k: nat, i: nat)
    requires Traces(logs, sites) && DepthTrace(logs) && k + 1 == i <= |logs| && logs[k].op.None?
    requires !sites[k].located || sites[k].jump.Regular?
    ensures var before, now, d := After(logs, sites, reason, k).trackers, After(logs, sites, reason, i).trackers,
                                  logs[k].depth - 1;
            |now| == d + 1 && now[d] == FoundSlots(before, d + 1)
  {
    TrackersStep(logs, sites, reason, k, i);
  }

  /** A frame that executes just these steps, from its start. */
  function SlotsAlone(logs: seq<Log>, sites: seq<Site>, steps: seq<nat>): Slots
    requires |logs| == |sites| && Within(steps, |logs|)
  {
    if steps == [] then []
    else
      var n := |steps| - 1;
      InitWithin(steps, |logs|);
      var k := steps[n];
      JumpSlots(OpcodeSlots(SlotsAlone(logs, sites, steps[..n]), logs[k], sites[k]),
        SeenInto(sites, k), logs[k], sites[k])
  }

  lemma {:induction false} AloneSnoc(logs: seq<Log>, sites: seq<Site>, steps: seq<nat>, k: nat)
    requires |logs| == |sites| && Within(steps, |logs|) && k < |logs|
    ensures Within(steps + [k], |logs|)
    ensures SlotsAlone(logs, sites, steps + [k])
            == JumpSlots(OpcodeSlots(SlotsAlone(logs, sites, steps), logs[k], sites[k]),
               SeenInto(sites, k), logs[k], sites[k])
  {
    assert (steps + [k])[..|steps|] == steps;
  }

  ghost predicate RunsAlone(logs: seq<Log>, sites: seq<Site>, trackers: seq<Slots>, i: nat, e: nat)
    requires Traces(logs, sites) && DepthTrace(logs) && i <= |logs|
  {
    && e < PreviousDepth(logs, i) && e < |trackers|
    && var steps := OwnSteps(logs, i)[e];
       assert Within(steps, i);
       trackers[e] == SlotsAlone(logs, sites, steps)
  }

  lemma RunningAlone(
    logs: seq<Log>, sites: seq<Site>, before: seq<Slots>, now: seq<Slots>, k: nat, i: nat, e: nat)
    requires Traces(logs, sites) && DepthTrace(logs) && k + 1 == i <= |logs| && e + 1 == logs[k].depth
    requires |before| == if k == 0 then 0 else PreviousDepth(logs, k)
    requires e < |before| ==> RunsAlone(logs, sites, before, k, e)
    requires |now| == e + 1
    requires now[e] == JumpSlots(OpcodeSlots(FoundSlots(before, e + 1), logs[k], sites[k]), SeenInto(sites, k),
                                 logs[k], sites[k])
    ensures RunsAlone(logs, sites, now, i, e)
  {
    var own := if e < PreviousDepth(logs, k) then OwnSteps(logs, k)[e] else [];
    assert Within(own, k);
    assert SlotsAlone(logs, sites, own) == FoundSlots(before, e + 1);
    AloneSnoc(logs, sites, own, k);
    OwnStepsNext(logs, k, i);
    assert OwnSteps(logs, i)[e] == own + [k];
  }

  lemma OuterAlone(
    logs: seq<Log>, sites: seq<Site>, before: seq<Slots>, now: seq<Slots>, k: nat, i: nat, e: nat)
    requires Traces(logs, sites) && DepthTrace(logs) && k + 1 == i <= |logs| && e + 1 < logs[k].depth
    requires RunsAlone(logs, sites, before, k, e) && e < |now| && now[e] == before[e]
    ensures RunsAlone(logs, sites, now, i, e)
  {
    OwnStepsNext(logs, k, i);
    assert OwnSteps(logs, i)[e] == OwnSteps(logs, k)[e];
  }

  /** Isolation: after any number of steps, every open frame's tracker is exactly that of its own steps run
      alone, whatever sub-calls came between; so a caller resumes with the tracker it left, and a new
      frame starts empty. Only which internal call is absorbed depends on other frames. */
  lemma {:induction false} TrackersRunAlone(logs: seq<Log>, sites: seq<Site>, reason: Reason, i: nat, e: nat)
    requires Traces(logs, sites) && DepthTrace(logs) && 0 < i <= |logs| && e < logs[i - 1].depth
    ensures RunsAlone(logs, sites, After(logs, sites, reason, i).trackers, i, e)
    decreases i
  {
    var k := i - 1;
    var before, now, d := After(logs, sites, reason, k).trackers, After(logs, sites, reason, i).trackers,
                          logs[k].depth - 1;
    TrackersInLockstep(logs, sites, reason, k);
    TrackersStep(logs, sites, reason, k, i);
    if e < |before| {
      TrackersRunAlone(logs, sites, reason, k, e);
    }
    if e == d {
      RunningAlone(logs, sites, before, now, k, i, e);
    } else {
      assert now[e] == now[..d][e] == before[..d][e];
      OuterAlone(logs, sites, before, now, k, i, e);
    }
  }

  // ---- depth ----------------------------------------------------------------------------------------------

  /** Internal calls are JUMPs. */
  predicate CallsAreJumps(logs: seq<Log>, sites: seq<Site>) {
    forall i :: 0 <= i < |logs| && i < |sites| ==> CallIsJump(logs[i], sites[i])
  }

  predicate CallIsJump(log: Log, site: Site) {
    IsInto(site) ==> log.op == Some(0x56)
  }

  /** Of each open frame after `i` steps, whether its tracker is exact: from the frame's start or its last
      resolved internal call, until its next internal return, unresolved call, or the absorbed call. */
  function Exact(logs: seq<Log>, sites: seq<Site>, i: nat): (r: seq<bool>)
    requires Traces(logs, sites) && DepthTrace(logs) && i <= |logs|
    ensures |r| == |Latest(logs, i)|
  {
    if i == 0 then []
    else
      ExactAfter(logs, sites, i - 1, Exact(logs, sites, i - 1))
  }

  /** The flags after step `k`. */
  function ExactAfter(logs: seq<Log>, sites: seq<Site>, k: nat, before: seq<bool>): (r: seq<bool>)
    requires DepthTrace(logs) && k < |logs| == |sites| && |before| == |Latest(logs, k)|
    ensures |r| == logs[k].depth
  {
    before[..logs[k].depth - 1] + [StaysExact(FoundExact(logs, k, before), sites[k], SeenInto(sites, k))]
  }

  lemma ExactStep(logs: seq<Log>, sites: seq<Site>, k: nat, i: nat)
    requires Traces(logs, sites) && DepthTrace(logs) && k + 1 == i <= |logs|
    ensures var d, before, now := logs[k].depth - 1, Exact(logs, sites, k), Exact(logs, sites, i);
            && |now| == d + 1 && d <= |before| && now[..d] == before[..d]
            && now[d] == StaysExact(FoundExact(logs, k, before), sites[k], SeenInto(sites, k))
  {
    ExactUnfolds(logs, sites, k, i);
    ExactParts(logs, sites, k, Exact(logs, sites, k));
  }

  lemma {:induction false} ExactUnfolds(logs: seq<Log>, sites: seq<Site>, k: nat, i: nat)
    requires Traces(logs, sites) && DepthTrace(logs) && k + 1 == i <= |logs|
    ensures Exact(logs, sites, i) == ExactAfter(logs, sites, k, Exact(logs, sites, k))
  {
    assert Exact(logs, sites, k + 1) == ExactAfter(logs, sites, k, Exact(logs, sites, k));
  }

  lemma ExactParts(logs: seq<Log>, sites: seq<Site>, k: nat, before: seq<bool>)
    requires DepthTrace(logs) && k < |logs| == |sites| && |before| == |Latest(logs, k)|
    ensures var d, now := logs[k].depth - 1, ExactAfter(logs, sites, k, before);
            && |now| == d + 1 && d <= |before| && now[..d] == before[..d]
            && now[d] == StaysExact(FoundExact(logs, k, before), sites[k], SeenInto(sites, k))
  {
  }

  /** The tracker that a step finds, against the stack the step sees. */
  lemma FoundTracked(logs: seq<Log>, k: nat, trackers: seq<Slots>, exact: seq<bool>)
    requires EvmTrace(logs) && k < |logs| && AllTracked(logs, k, trackers, exact)
    ensures logs[k].stack.Some?
    ensures var s := FoundSlots(trackers, logs[k].depth);
            |s| <= |logs[k].stack.value| && (FoundExact(logs, k, exact) ==> |s| == |logs[k].stack.value|)
  {
    StartsTracked(logs, k, trackers, exact, FoundSlots(trackers, logs[k].depth), FoundExact(logs, k, exact));
  }

  /** Simulation of all frames in the single-contract loop: along every EVM trace, each open frame's tracker
      is at most as deep as that frame's operand stack, and exactly as deep while it is exact. */
  lemma {:induction false} EveryFrameTracked(logs: seq<Log>, sites: seq<Site>, reason: Reason, i: nat)
    requires EvmTrace(logs) && Traces(logs, sites) && CallsAreJumps(logs, sites) && i <= |logs|
    ensures AllTracked(logs, i, After(logs, sites, reason, i).trackers, Exact(logs, sites, i))
  {
    if i == 0 {
    } else {
      var k := i - 1;
      EveryFrameTracked(logs, sites, reason, k);
      var before, exact := After(logs, sites, reason, k).trackers, Exact(logs, sites, k);
      FoundTracked(logs, k, before, exact);
      TrackersStep(logs, sites, reason, k, i);
      ExactStep(logs, sites, k, i);
      assert CallIsJump(logs[k], sites[k]);
      var s := FoundSlots(before, logs[k].depth);
      if logs[k].op.Some? {
        SingleContractStep(s, logs[k], sites[k], SeenInto(sites, k));
        StepTracked(s, logs[k], sites[k], SeenInto(sites, k), FoundExact(logs, k, exact));
      }
      EndsTracked(logs, k, logs[k].depth - 1, before, exact, After(logs, sites, reason, i).trackers,
                  Exact(logs, sites, i));
    }
  }
}
