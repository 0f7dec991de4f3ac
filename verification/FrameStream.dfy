/** The call and return events of the multi-contract loop: the brackets of the trace, none absorbed. */
module FrameStream {
  import opened StructLog
  import opened CallBrackets
  import opened FrameRecorder
  import opened FrameTheorems
  import CallStream
  import RevertBrackets

  /** The source facts of all steps, each those of the frame that the step executes in. */
  ghost function RunSites(config: Config, logs: seq<Log>, states: seq<State>): (r: seq<Site>)
    requires IsRun(config, logs, states)
    ensures |r| == |logs|
  {
    seq(|logs|, i requires 0 <= i < |logs| => SiteOf(config, logs, states, i))
  }

  ghost function SiteOf(config: Config, logs: seq<Log>, states: seq<State>, i: nat): Site
    requires IsRun(config, logs, states) && i < |logs|
  {
    assert StepAt(config, logs, states, i);
    FramesAt(config, logs, states, i);
    SiteAt(config, logs, states[i + 1], i)
  }

  /** Depth changes and jump markers of the first `i` steps as one word. */
  ghost function RunWord(config: Config, logs: seq<Log>, states: seq<State>, i: nat): BracketWord
    requires DepthTrace(logs) && IsRun(config, logs, states) && i <= |logs|
  {
    CallStream.TraceWord(logs, RunSites(config, logs, states), i)
  }

  /** The events of a depth change. */
  function DepthChange(prevDepth: nat, depth: nat): seq<Event> {
    if depth > prevDepth then [RegisterCall] else CallStream.Returns(prevDepth - depth)
  }

  /** What a step adds to the events. */
  lemma EventsAt(config: Config, logs: seq<Log>, states: seq<State>, k: nat)
    requires k < |logs| && |states| == |logs| + 1 && StepAt(config, logs, states, k)
    ensures states[k + 1].frames != []
    ensures states[k + 1].events == states[k].events + DepthChange(states[k].prevDepth, logs[k].depth)
                                    + JumpEvents(logs[k], SiteAt(config, logs, states[k + 1], k))
  {
    assert CallStream.Returns(0) == [];
  }

  lemma EventsStep(config: Config, logs: seq<Log>, states: seq<State>, k: nat, i: nat)
    requires DepthTrace(logs) && IsRun(config, logs, states) && k + 1 == i <= |logs|
    ensures states[i].events == states[k].events + DepthChange(PreviousDepth(logs, k), logs[k].depth)
                                + JumpEvents(logs[k], SiteOf(config, logs, states, k))
  {
    assert StepAt(config, logs, states, k);
    assert states[k].prevDepth == PreviousDepth(logs, k) by { AllStacksInLockstep(config, logs, states, k); }
    EventsAt(config, logs, states, k);
  }

  /** The call and return events of a jump are those that the single-contract loop emits once its
      absorbed call has returned. */
  lemma JumpCalls(log: Log, site: Site)
    ensures var b := CallStream.JumpBracket(site);
            CallsOf(JumpEvents(log, site)) == CallStream.Erased(if b.Some? then [b.value] else [])
  {
    var returned := Absorber(true, 0);
    CallStream.JumpEventsAreBrackets(returned, log, site);
    assert CallStream.JumpEvents(returned, log, site) == JumpEvents(log, site);
  }

  lemma DepthCalls(prevDepth: nat, depth: nat)
    ensures CallsOf(DepthChange(prevDepth, depth)) == CallStream.Erased(CallStream.DepthBrackets(prevDepth, depth))
  {
    if depth > prevDepth {
      assert CallsOf([RegisterCall]) == [RegisterCall];
    } else {
      CallStream.ReturnsAreCalls(prevDepth - depth);
      CallStream.ErasedReturns(prevDepth - depth);
    }
  }

  predicate Streams(events: seq<Event>, logs: seq<Log>, sites: seq<Site>, i: nat)
    requires CallStream.Traces(logs, sites) && i <= |logs|
  {
    CallsOf(events) == CallStream.Erased(CallStream.TraceWord(logs, sites, i))
  }

  lemma {:induction false} StepCalls(events: seq<Event>, w: BracketWord, prevDepth: nat, log: Log, site: Site)
    requires CallsOf(events) == CallStream.Erased(w)
    ensures CallsOf(events + DepthChange(prevDepth, log.depth) + JumpEvents(log, site))
            == CallStream.Erased(w + CallStream.StepBrackets(prevDepth, log, site))
  {
    var more, b := CallStream.DepthBrackets(prevDepth, log.depth), CallStream.JumpBracket(site);
    var last := if b.Some? then [b.value] else [];
    assert w + CallStream.StepBrackets(prevDepth, log, site) == w + more + last;
    DepthCalls(prevDepth, log.depth);
    JumpCalls(log, site);
    CallStream.NextEvents(events, DepthChange(prevDepth, log.depth), JumpEvents(log, site), w, more, last);
  }

  lemma StreamsNext(
    events: seq<Event>, after: seq<Event>, logs: seq<Log>, sites: seq<Site>, k: nat)
    requires CallStream.Traces(logs, sites) && k < |logs| && Streams(events, logs, sites, k)
    requires after == events + DepthChange(PreviousDepth(logs, k), logs[k].depth) + JumpEvents(logs[k], sites[k])
    ensures Streams(after, logs, sites, k + 1)
  {
    StepCalls(events, CallStream.TraceWord(logs, sites, k), PreviousDepth(logs, k), logs[k], sites[k]);
  }

  /** Equal step counts name one word. */
  lemma StreamsSame(events: seq<Event>, logs: seq<Log>, sites: seq<Site>, n: nat, i: nat)
    requires CallStream.Traces(logs, sites) && n == i <= |logs| && Streams(events, logs, sites, n)
    ensures Streams(events, logs, sites, i)
  {
  }

  lemma RecordedEventsNext(config: Config, logs: seq<Log>, states: seq<State>, k: nat, i: nat)
    requires DepthTrace(logs) && IsRun(config, logs, states) && k + 1 == i <= |logs|
    requires Streams(states[k].events, logs, RunSites(config, logs, states), k)
    ensures Streams(states[i].events, logs, RunSites(config, logs, states), i)
  {
    var sites := RunSites(config, logs, states);
    EventsStep(config, logs, states, k, i);
    assert sites[k] == SiteOf(config, logs, states, k);
    StreamsNext(states[k].events, states[i].events, logs, sites, k);
    StreamsSame(states[i].events, logs, sites, k + 1, i);
  }

  /** For every recording, the call and return events are the depth and jump brackets of the trace, in order. */
  lemma {:induction false} RecordedEventsAreBrackets(config: Config, logs: seq<Log>, states: seq<State>, i: nat)
    requires DepthTrace(logs) && IsRun(config, logs, states) && i <= |logs|
    ensures Streams(states[i].events, logs, RunSites(config, logs, states), i)
  {
    var sites := RunSites(config, logs, states);
    if i == 0 {
      assert states[0].events == [] && CallStream.TraceWord(logs, sites, 0) == [];
    } else {
      var k := i - 1;
      RecordedEventsAreBrackets(config, logs, states, k);
      RecordedEventsNext(config, logs, states, k, i);
    }
  }

  /** The writer's call depth: the call and return events never close `<toplevel>` exactly when no prefix of
      the word has more returns than calls. It is enough that internal returns stay inside their frame;
      then the depth is the number of open calls and of calls abandoned by frames that ended. */
  lemma RecordedEventsToplevelIff(config: Config, logs: seq<Log>, states: seq<State>)
    requires DepthTrace(logs) && IsRun(config, logs, states)
    ensures var w, calls := RunWord(config, logs, states, |logs|), CallsOf(states[|logs|].events);
            && (CallStream.NeverClosesToplevel(calls) <==> KeepsToplevelOpen(w))
            && (RevertBrackets.Live(w).Some? ==>
                  && CallStream.NeverClosesToplevel(calls)
                  && CallStream.Balance(calls) == |RevertBrackets.Live(w).value| + RevertBrackets.Abandoned(w))
  {
    var w := RunWord(config, logs, states, |logs|);
    RecordedEventsAreBrackets(config, logs, states, |logs|);
    CallStream.ErasedBalance(w);
    if RevertBrackets.Live(w).Some? {
      forall r | 0 <= r <= |w| ensures Height(w[..r]) >= 0 {
        RevertBrackets.LivePrefix(w, r);
        RevertBrackets.WordHeight(w[..r]);
      }
      RevertBrackets.WordHeight(w);
      CallStream.BalanceIsHeight(w);
    }
  }
}
