/** A local keeps its value inside its frame, whatever sub-calls come between, and what the two loops
    show of it. */
module FrameValues {
  import opened Basics
  import opened EvmStack
  import opened StructLog
  import opened StackTracker
  import opened StackSimulation
  import opened LocalLookup
  import opened TraceStacks
  import opened OwnRuns
  import opened ContractRegistry
  import CallStream
  import StreamTracking
  import FrameRecorder
  import FrameTracking
  import FrameHistory
  import RecordedLookups

  // ---- the multi-contract loop ----------------------------------------------------------------------------

  function ViewFacts(logs: seq<Log>, view: View): (r: seq<Fact>)
    ensures |r| == |logs|
  {
    seq(|logs|, k requires 0 <= k < |logs| => Fact(view.site(logs, k), true))
  }

  /** The run of open frame `e` after `i` steps of a recording. */
  ghost function RecordedRun(
    config: FrameRecorder.Config, logs: seq<Log>, frames: seq<FrameRecorder.FrameContext>, i: nat, e: nat,
    post: seq<Word>): (r: Run)
    requires EvmTrace(logs) && i <= |logs| && e < PreviousDepth(logs, i) && e < |frames|
    requires Leads(logs, StepsOf(logs, i, e), post)
    ensures r.Valid()
  {
    OwnRun(logs, ViewFacts(logs, FrameRecorder.FrameView(config, frames[e])), StepsOf(logs, i, e), post)
  }

  lemma {:induction false} AloneNext(
    config: FrameRecorder.Config, logs: seq<Log>, view: View, steps: seq<nat>, m: nat, n: nat)
    requires Within(steps, |logs|) && m + 1 == n <= |steps| && steps[m] < |logs| && logs[steps[m]].op.Some?
    ensures Within(steps[..m], |logs|) && Within(steps[..n], |logs|)
    ensures var log, site := logs[steps[m]], view.site(logs, steps[m]);
            FrameHistory.Alone(config, logs, view, steps[..n]).slots
            == Next(FrameHistory.Alone(config, logs, view, steps[..m]).slots, TraceStep(log, site, true),
                    |log.StackOrEmpty()|)
  {
    WithinPrefix(steps, m, |logs|);
    var k, before := steps[m], FrameHistory.Alone(config, logs, view, steps[..m]);
    FrameHistory.AloneStep(config, logs, view, steps[..m], k);
    assert steps[..n] == steps[..m] + [k];
    FrameTracking.MultiContractStep(before.slots, logs[k], view.site(logs, k));
  }

  lemma {:induction false} AloneReplays(
    config: FrameRecorder.Config, logs: seq<Log>, view: View, steps: seq<nat>, n: nat, post: seq<Word>)
    requires Within(steps, |logs|) && OneStack(logs, steps) && Leads(logs, steps, post) && n <= |steps|
    ensures Within(steps[..n], |logs|)
    ensures FrameHistory.Alone(config, logs, view, steps[..n]).slots
            == OwnRun(logs, ViewFacts(logs, view), steps, post).Labels(n)
    decreases n
  {
    WithinPrefix(steps, n, |logs|);
    if n == 0 {
    } else {
      var m := n - 1;
      AloneReplays(config, logs, view, steps, m, post);
      OwnRunNext(logs, ViewFacts(logs, view), steps, post, m, n,
        FrameHistory.Alone(config, logs, view, steps[..m]).slots);
      AloneNext(config, logs, view, steps, m, n);
    }
  }

  /** In every recording of an EVM trace, an open frame's tracker is what the abstract run of that frame's
      own steps leaves, from an empty tracker: whatever holds of runs holds of recordings. */
  lemma RecordedTrackerReplays(
    config: FrameRecorder.Config, logs: seq<Log>, states: seq<FrameRecorder.State>, i: nat, e: nat, post: seq<Word>)
    requires EvmTrace(logs) && FrameRecorder.IsRun(config, logs, states) && 0 < i <= |logs| && e < logs[i - 1].depth
    requires Leads(logs, StepsOf(logs, i, e), post)
    ensures e < |states[i].frames| && e < |states[i].trackers|
    ensures var run := RecordedRun(config, logs, states[i].frames, i, e, post);
            states[i].trackers[e] == run.Labels(|run.steps|)
  {
    FrameHistory.FramesRunAlone(config, logs, states, i, e);
    var steps := StepsOf(logs, i, e);
    AloneReplays(config, logs, FrameRecorder.FrameView(config, states[i].frames[e]), steps, |steps|, post);
    assert steps[..|steps|] == steps;
  }

  /** Value coherence in recordings: from any of an open frame's steps at which every slot of `name` holds
      `w`, the frame's tracker answers `w` on the stack its latest opcode left until the last copy is gone
      and nothing afterwards, as long as the frame's own steps neither reset the tracker nor assign the
      name; sub-calls in between, and what they do to their trackers, do not matter. */
  lemma RecordedValuesSurvive(
    config: FrameRecorder.Config, logs: seq<Log>, states: seq<FrameRecorder.State>, i: nat, e: nat, lo: nat,
    post: seq<Word>, name: string, w: Word)
    requires EvmTrace(logs) && FrameRecorder.IsRun(config, logs, states) && 0 < i <= |logs| && e < logs[i - 1].depth
    requires e < |states[i].frames| && Leads(logs, StepsOf(logs, i, e), post)
    requires RecordedRun(config, logs, states[i].frames, i, e, post).Settled(lo, name, w)
    ensures e < |states[i].trackers|
    ensures VariableValue(states[i].trackers[e], name, post)
            == if HasLabel(states[i].trackers[e], name) then Some(w) else None
  {
    RecordedTrackerReplays(config, logs, states, i, e, post);
    RecordedRun(config, logs, states[i].frames, i, e, post).SettledLookup(lo, name, w);
  }

  lemma RecordedRunEnds(
    config: FrameRecorder.Config, logs: seq<Log>, frames: seq<FrameRecorder.FrameContext>, i: nat, e: nat,
    post: seq<Word>)
    requires EvmTrace(logs) && 0 < i <= |logs| && e + 1 == logs[i - 1].depth && e < |frames|
    requires Leads(logs, StepsOf(logs, i, e), post)
    ensures var site := FrameRecorder.FrameView(config, frames[e]).site(logs, i - 1);
            RecordedRun(config, logs, frames, i, e, post).EndsWith(logs[i - 1], Fact(site, true), post)
  {
    EndsWithLatest(logs, ViewFacts(logs, FrameRecorder.FrameView(config, frames[e])), i, e, post);
  }

  /** The last step has the name's word shown on the stack before it exactly under the condition on its
      opcode. */
  ghost predicate ShownIffReadable(run: Run, name: string, w: Word)
    requires run.Valid() && run.steps != []
  {
    var n := |run.steps| - 1;
    var s, step, pre, post := run.Labels(n), run.steps[n], run.stacks[n], run.stacks[n + 1];
    && Executes(step.op, pre, post) && |s| == |pre|
    && (VariableValue(run.Labels(n + 1), name, pre) == Some(w)
        <==> ReadableBefore(s, step.op, step.off, step.vars, pre, post, name))
  }

  lemma ShownAlone(run: Run, tracker: Slots, lo: nat, name: string, w: Word)
    requires run.Valid() && run.Settled(lo, name, w) && lo < |run.steps|
    requires tracker == run.Labels(|run.steps|) && HasLabel(tracker, name)
    ensures ShownIffReadable(run, name, w)
  {
    var n := |run.steps| - 1;
    var step := run.steps[n];
    assert StepExecutes(run.steps, run.stacks, n) && Undisturbed([], run.steps, run.stacks, n, name);
    CoherentAlongRun([], run.steps, run.stacks, lo, n, name, w);
    run.SettledLookup(lo, name, w);
    LookupBeforeIff(run.Labels(n), step.op, step.off, step.vars, run.stacks[n], run.stacks[n + 1], name);
  }

  /** What the multi-contract loop shows of such a value: at the running frame's latest step, the name's word
      is shown on the stack that the step sees exactly under the condition on its opcode. */
  lemma RecordedValueShown(
    config: FrameRecorder.Config, logs: seq<Log>, states: seq<FrameRecorder.State>, i: nat, e: nat, lo: nat,
    post: seq<Word>, name: string, w: Word)
    requires EvmTrace(logs) && FrameRecorder.IsRun(config, logs, states) && 0 < i <= |logs|
    requires e + 1 == logs[i - 1].depth && e < |states[i].frames| && e < |states[i].trackers|
    requires Leads(logs, StepsOf(logs, i, e), post) && HasLabel(states[i].trackers[e], name)
    requires var run := RecordedRun(config, logs, states[i].frames, i, e, post);
             lo < |run.steps| && run.Settled(lo, name, w)
    ensures var run := RecordedRun(config, logs, states[i].frames, i, e, post);
            var site := FrameRecorder.FrameView(config, states[i].frames[e]).site(logs, i - 1);
            && run.EndsWith(logs[i - 1], Fact(site, true), post)
            && states[i].trackers[e] == run.Labels(|run.steps|)
            && ShownIffReadable(run, name, w)
  {
    RecordedTrackerReplays(config, logs, states, i, e, post);
    RecordedRunEnds(config, logs, states[i].frames, i, e, post);
    ShownAlone(RecordedRun(config, logs, states[i].frames, i, e, post), states[i].trackers[e], lo, name, w);
  }

  // ---- the single-contract loop ---------------------------------------------------------------------------

  function StreamFacts(sites: seq<Site>): (r: seq<Fact>)
    ensures |r| == |sites|
  {
    seq(|sites|, k requires 0 <= k < |sites| => Fact(sites[k], StreamTracking.SeenInto(sites, k)))
  }

  /** The run of open frame `e` after `i` steps. */
  ghost function StreamRun(logs: seq<Log>, sites: seq<Site>, i: nat, e: nat, post: seq<Word>): (r: Run)
    requires EvmTrace(logs) && |sites| == |logs| && i <= |logs| && e < PreviousDepth(logs, i)
    requires Leads(logs, StepsOf(logs, i, e), post)
    ensures r.Valid()
  {
    OwnRun(logs, StreamFacts(sites), StepsOf(logs, i, e), post)
  }

  lemma {:induction false} SlotsAloneNext(logs: seq<Log>, sites: seq<Site>, steps: seq<nat>, m: nat, n: nat)
    requires |sites| == |logs| && Within(steps, |logs|) && m + 1 == n <= |steps|
    requires steps[m] < |logs| && logs[steps[m]].op.Some?
    ensures Within(steps[..m], |logs|) && Within(steps[..n], |logs|)
    ensures var log, site, staged := logs[steps[m]], sites[steps[m]], StreamTracking.SeenInto(sites, steps[m]);
            StreamTracking.SlotsAlone(logs, sites, steps[..n])
            == Next(StreamTracking.SlotsAlone(logs, sites, steps[..m]), TraceStep(log, site, staged),
                    |log.StackOrEmpty()|)
  {
    WithinPrefix(steps, m, |logs|);
    var k, before := steps[m], StreamTracking.SlotsAlone(logs, sites, steps[..m]);
    StreamTracking.AloneSnoc(logs, sites, steps[..m], k);
    assert steps[..n] == steps[..m] + [k];
    StreamTracking.SingleContractStep(before, logs[k], sites[k], StreamTracking.SeenInto(sites, k));
  }

  lemma {:induction false} SlotsAloneReplay(
    logs: seq<Log>, sites: seq<Site>, steps: seq<nat>, n: nat, post: seq<Word>)
    requires |sites| == |logs| && Within(steps, |logs|) && OneStack(logs, steps) && Leads(logs, steps, post)
    requires n <= |steps|
    ensures Within(steps[..n], |logs|)
    ensures StreamTracking.SlotsAlone(logs, sites, steps[..n])
            == OwnRun(logs, StreamFacts(sites), steps, post).Labels(n)
    decreases n
  {
    WithinPrefix(steps, n, |logs|);
    if n == 0 {
    } else {
      var m := n - 1;
      SlotsAloneReplay(logs, sites, steps, m, post);
      OwnRunNext(logs, StreamFacts(sites), steps, post, m, n, StreamTracking.SlotsAlone(logs, sites, steps[..m]));
      SlotsAloneNext(logs, sites, steps, m, n);
    }
  }

  /** The same for the single-contract loop: an open frame's tracker is what the abstract run of that frame's
      own steps leaves, in which all internal calls but the absorbed one are staged. */
  lemma {:induction false} StreamTrackerReplays(
    logs: seq<Log>, sites: seq<Site>, reason: CallStream.Reason, i: nat, e: nat, post: seq<Word>)
    requires EvmTrace(logs) && CallStream.Traces(logs, sites) && 0 < i <= |logs| && e < logs[i - 1].depth
    requires Leads(logs, StepsOf(logs, i, e), post)
    ensures var trackers, run := CallStream.After(logs, sites, reason, i).trackers, StreamRun(logs, sites, i, e, post);
            e < |trackers| && trackers[e] == run.Labels(|run.steps|)
  {
    StreamTracking.TrackersRunAlone(logs, sites, reason, i, e);
    var steps := StepsOf(logs, i, e);
    SlotsAloneReplay(logs, sites, steps, |steps|, post);
    assert steps[..|steps|] == steps;
  }

  /** Value coherence in single-contract recordings. */
  lemma {:induction false} StreamValuesSurvive(
    logs: seq<Log>, sites: seq<Site>, reason: CallStream.Reason, i: nat, e: nat, lo: nat, post: seq<Word>,
    name: string, w: Word)
    requires EvmTrace(logs) && CallStream.Traces(logs, sites) && 0 < i <= |logs| && e < logs[i - 1].depth
    requires Leads(logs, StepsOf(logs, i, e), post)
    requires StreamRun(logs, sites, i, e, post).Settled(lo, name, w)
    ensures var trackers := CallStream.After(logs, sites, reason, i).trackers;
            && e < |trackers|
            && VariableValue(trackers[e], name, post) == if HasLabel(trackers[e], name) then Some(w) else None
  {
    StreamTrackerReplays(logs, sites, reason, i, e, post);
    StreamRun(logs, sites, i, e, post).SettledLookup(lo, name, w);
  }

  /** Without a jump the tracker stays as it was for the lookup. */
  lemma {:induction false} KeptForLookup(
    logs: seq<Log>, sites: seq<Site>, reason: CallStream.Reason, j: nat, i: nat, staged: bool)
    requires EvmTrace(logs) && CallStream.Traces(logs, sites) && j + 1 == i <= |logs|
    requires JumpAfter(logs[j], sites[j], staged).Keep?
    ensures var trackers, e := CallStream.After(logs, sites, reason, i).trackers, logs[j].depth - 1;
            |trackers| == e + 1 && trackers[e] == StreamTracking.LookupSlots(logs, sites, reason, j)
  {
    StreamTracking.TrackersStep(logs, sites, reason, j, i);
  }

  /** The running frame's latest step, which neither resets nor seeds the tracker. */
  lemma StreamSettles(
    logs: seq<Log>, sites: seq<Site>, i: nat, e: nat, lo: nat, post: seq<Word>, name: string, w: Word)
    requires EvmTrace(logs) && |sites| == |logs| && 0 < i <= |logs| && e + 1 == logs[i - 1].depth
    requires Leads(logs, StepsOf(logs, i, e), post)
    requires var run := StreamRun(logs, sites, i, e, post); lo < |run.steps| && run.Settled(lo, name, w)
    ensures JumpAfter(logs[i - 1], sites[i - 1], StreamTracking.SeenInto(sites, i - 1)).Keep?
  {
    LatestKeeps(logs, StreamFacts(sites), i, e, post, lo, name, w);
  }

  /** What the single-contract loop shows of such a value: at the running frame's latest step `j`, the name's
      word is shown exactly when the frame goes on with the next log, or that log is of an outer frame that
      holds the same word at the slot's position. */
  lemma {:induction false} StreamValueShown(
    logs: seq<Log>, sites: seq<Site>, reason: CallStream.Reason, j: nat, e: nat, lo: nat, post: seq<Word>,
    name: string, w: Word)
    requires EvmTrace(logs) && CallStream.Traces(logs, sites) && j + 1 < |logs| && e + 1 == logs[j].depth
    requires Leads(logs, StepsOf(logs, j + 1, e), post)
    requires logs[j + 1].depth == logs[j].depth ==> logs[j + 1].stack == Some(post)
    requires var run := StreamRun(logs, sites, j + 1, e, post); lo < |run.steps| && run.Settled(lo, name, w)
    requires HasLabel(StreamTracking.LookupSlots(logs, sites, reason, j), name)
    ensures logs[j + 1].stack.Some?
    ensures var next, r := logs[j + 1], StreamTracking.LookupSlots(logs, sites, reason, j);
            VariableValue(r, name, next.stack.value) == Some(w)
            <==> (|| next.depth == logs[j].depth
                  || (&& next.depth < logs[j].depth
                      && var p := TopmostSlot(r, name).value; p < |next.stack.value| && next.stack.value[p] == w))
  {
    var i, r := j + 1, StreamTracking.LookupSlots(logs, sites, reason, j);
    StreamSettles(logs, sites, i, e, lo, post, name, w);
    KeptForLookup(logs, sites, reason, j, i, StreamTracking.SeenInto(sites, j));
    StreamValuesSurvive(logs, sites, reason, i, e, lo, post, name, w);
    assert VariableValue(r, name, post) == Some(w);
    StreamRun(logs, sites, i, e, post).SettledLookup(lo, name, w);
    StreamTrackerReplays(logs, sites, reason, i, e, post);
    RecordedLookups.NextStack(logs, j, post);
    LookupAfterIff(r, logs[j], logs[i], post, name);
  }
}
