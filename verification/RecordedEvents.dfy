/** The events of single steps in both loops: which arguments precede an internal call, and when a caught
    revert is reported. */
module RecordedEvents {
  import opened Basics
  import opened SolidityAst
  import opened StructLog
  import ArgStaging
  import CallBrackets
  import CallStream
  import StreamTracking
  import FrameRecorder
  import FrameStream

  /** The step jumps into a resolved function, with the words for its parameters on the stack right below the
      jump destination. */
  predicate JumpsInto(log: Log, site: Site, target: FunctionDef, below: seq<Word>, values: seq<Word>, dest: Word) {
    && site.located && site.jump.Into? && site.target == Some(target)
    && 0 < |values| == |target.parameters| && log.stack == Some(below + values + [dest])
  }

  /** The events of an internal call: each parameter with its word, in order, and then the call. */
  predicate ArgumentsThenCall(events: seq<Event>, target: FunctionDef, values: seq<Word>)
    requires |values| == |target.parameters|
  {
    && |events| == |values| + 1 && events[|values|] == RegisterCall
    && forall j :: 0 <= j < |values| ==> events[j] == RegisterArg(target.parameters[j].name, values[j])
  }

  lemma StagedThenCall(
    log: Log, site: Site, target: FunctionDef, below: seq<Word>, values: seq<Word>, dest: Word)
    requires JumpsInto(log, site, target, below, values, dest)
    ensures ArgumentsThenCall(CallStream.StagedEvents(site, log) + [RegisterCall], target, values)
  {
    forall j | 0 <= j < |values|
      ensures |CallStream.StagedEvents(site, log)| == |values|
      ensures CallStream.StagedEvents(site, log)[j] == RegisterArg(target.parameters[j].name, values[j])
    {
      ArgStaging.StagedArguments(target, below, values, [dest], j);
    }
  }

  /** No event of the list is an argument. */
  predicate NoArguments(events: seq<Event>) {
    forall e :: e in events ==> !e.RegisterArg?
  }

  lemma {:induction false} ReturnsOnly(n: nat)
    ensures forall e :: e in CallStream.Returns(n) ==> e == RegisterReturn
  {
  }

  // ---- the single-contract loop -----------------------------------------------------------------------

  lemma {:induction false} EventsNext(logs: seq<Log>, sites: seq<Site>, reason: CallStream.Reason, k: nat, i: nat)
    requires CallStream.Traces(logs, sites) && k + 1 == i <= |logs|
    ensures var st := CallStream.After(logs, sites, reason, k);
            CallStream.After(logs, sites, reason, i).events
            == st.events + CallStream.DepthEvents(Previous(logs, k), st.prevDepth, logs[k].depth, reason)
               + CallStream.JumpEvents(st.absorber, logs[k], sites[k])
  {
    assert CallStream.After(logs, sites, reason, k + 1)
      == CallStream.Next(CallStream.After(logs, sites, reason, k), Previous(logs, k), logs[k], sites[k], reason);
  }

  lemma {:induction false} StreamStep(logs: seq<Log>, sites: seq<Site>, reason: CallStream.Reason, k: nat, i: nat)
    requires CallStream.Traces(logs, sites) && k + 1 == i <= |logs|
    ensures var st, now := CallStream.After(logs, sites, reason, k), CallStream.After(logs, sites, reason, i);
            && (st.absorber.seen <==> StreamTracking.SeenInto(sites, k))
            && now.events
               == st.events
                  + CallStream.DepthEvents(Previous(logs, k), PreviousDepth(logs, k), logs[k].depth, reason)
                  + CallStream.JumpEvents(st.absorber, logs[k], sites[k])
  {
    StreamTracking.TrackersInLockstep(logs, sites, reason, k);
    StreamTracking.AbsorberSeen(logs, sites, reason, k);
    EventsNext(logs, sites, reason, k, i);
  }

  lemma JumpTail(
    absorber: CallBrackets.Absorber, log: Log, site: Site, target: FunctionDef, below: seq<Word>, values: seq<Word>,
    dest: Word)
    requires absorber.seen && JumpsInto(log, site, target, below, values, dest)
    ensures ArgumentsThenCall(CallStream.JumpEvents(absorber, log, site), target, values)
  {
    StagedThenCall(log, site, target, below, values, dest);
  }

  /** Argument events of the single-contract loop: every resolved internal call but the absorbed one emits its
      parameters with their words from the stack, in order, right before its call event. */
  lemma StreamArguments(
    logs: seq<Log>, sites: seq<Site>, reason: CallStream.Reason, k: nat, target: FunctionDef,
    below: seq<Word>, values: seq<Word>, dest: Word)
    requires CallStream.Traces(logs, sites) && k < |logs| && StreamTracking.SeenInto(sites, k)
    requires JumpsInto(logs[k], sites[k], target, below, values, dest)
    ensures var before, now :=
            CallStream.After(logs, sites, reason, k).events, CallStream.After(logs, sites, reason, k + 1).events;
            var start := |now| - |values| - 1;
            && |before| <= start && before <= now && ArgumentsThenCall(now[start..], target, values)
            && NoArguments(now[|before|..start])
            && (logs[k].depth == PreviousDepth(logs, k) ==> start == |before|)
  {
    var st := CallStream.After(logs, sites, reason, k);
    var depth := CallStream.DepthEvents(Previous(logs, k), PreviousDepth(logs, k), logs[k].depth, reason);
    var jump := CallStream.JumpEvents(st.absorber, logs[k], sites[k]);
    StreamStep(logs, sites, reason, k, k + 1);
    JumpTail(st.absorber, logs[k], sites[k], target, below, values, dest);
    DepthHasNoArguments(Previous(logs, k), PreviousDepth(logs, k), logs[k].depth, reason);
    var now := st.events + depth + jump;
    assert now[|st.events + depth|..] == jump && now[|st.events|..|st.events + depth|] == depth;
  }

  lemma DepthHasNoArguments(prev: Option<Log>, prevDepth: nat, depth: nat, reason: CallStream.Reason)
    ensures NoArguments(CallStream.DepthEvents(prev, prevDepth, depth, reason))
    ensures prevDepth == depth ==> CallStream.DepthEvents(prev, prevDepth, depth, reason) == []
  {
    if depth < prevDepth {
      ReturnsOnly(prevDepth - depth);
    }
  }

  /** The step is no resolved internal call with its arguments on the stack, or it is the absorbed one. */
  predicate EmitsNoArguments(log: Log, site: Site, seen: bool) {
    || !site.located || !site.jump.Into? || site.target.None? || log.stack.None?
    || site.target.value.parameters == [] || |log.stack.value| < |site.target.value.parameters| + 1 || !seen
  }

  lemma JumpHasNoArguments(absorber: CallBrackets.Absorber, log: Log, site: Site)
    requires EmitsNoArguments(log, site, absorber.seen)
    ensures NoArguments(CallStream.JumpEvents(absorber, log, site))
  {
  }

  lemma JumpHasNoRevert(absorber: CallBrackets.Absorber, log: Log, site: Site)
    ensures forall e :: e in CallStream.JumpEvents(absorber, log, site) ==> !e.RevertCaught?
  {
  }

  lemma DepthCaught(prev: Option<Log>, prevDepth: nat, depth: nat, reason: CallStream.Reason, message: string)
    ensures var events := CallStream.DepthEvents(prev, prevDepth, depth, reason);
            && (RevertCaught(message) in events
                <==> depth < prevDepth && prev.Some? && prev.value.depth == prevDepth && prev.value.op == Some(0xfd)
                     && message == reason(prev.value))
            && (RevertCaught(message) in events ==> events[0] == RevertCaught(message))
  {
    if depth < prevDepth {
      ReturnsOnly(prevDepth - depth);
    }
  }

  /** A caught revert with this message is due at step `k`. */
  predicate Catches(logs: seq<Log>, reason: CallStream.Reason, k: nat, message: string)
    requires k < |logs|
  {
    0 < k && logs[k].depth < logs[k - 1].depth && logs[k - 1].op == Some(0xfd) && message == reason(logs[k - 1])
  }

  /** What a step appends: the events of its depth change, then those of its jump. */
  lemma StreamParts(
    logs: seq<Log>, sites: seq<Site>, reason: CallStream.Reason, k: nat, i: nat, message: string)
    returns (depth: seq<Event>, jump: seq<Event>)
    requires CallStream.Traces(logs, sites) && k + 1 == i <= |logs|
    ensures CallStream.After(logs, sites, reason, i).events
            == CallStream.After(logs, sites, reason, k).events + depth + jump
    ensures NoArguments(depth) && RevertCaught(message) !in jump
    ensures EmitsNoArguments(logs[k], sites[k], StreamTracking.SeenInto(sites, k)) ==> NoArguments(jump)
    ensures RevertCaught(message) in depth <==> Catches(logs, reason, k, message)
    ensures RevertCaught(message) in depth ==> depth[0] == RevertCaught(message)
  {
    var st := CallStream.After(logs, sites, reason, k);
    depth := CallStream.DepthEvents(Previous(logs, k), PreviousDepth(logs, k), logs[k].depth, reason);
    jump := CallStream.JumpEvents(st.absorber, logs[k], sites[k]);
    StreamStep(logs, sites, reason, k, i);
    DepthHasNoArguments(Previous(logs, k), PreviousDepth(logs, k), logs[k].depth, reason);
    DepthCaught(Previous(logs, k), PreviousDepth(logs, k), logs[k].depth, reason, message);
    JumpHasNoRevert(st.absorber, logs[k], sites[k]);
    if EmitsNoArguments(logs[k], sites[k], st.absorber.seen) {
      JumpHasNoArguments(st.absorber, logs[k], sites[k]);
    }
  }

  lemma Appended(before: seq<Event>, depth: seq<Event>, jump: seq<Event>)
    ensures var now := before + depth + jump; before <= now && now[|before|..] == depth + jump
  {
  }

  /** A step that is no resolved internal call, or is the absorbed one, emits no argument. */
  lemma {:induction false} StreamNoArguments(logs: seq<Log>, sites: seq<Site>, reason: CallStream.Reason, k: nat)
    requires CallStream.Traces(logs, sites) && k < |logs|
    requires EmitsNoArguments(logs[k], sites[k], StreamTracking.SeenInto(sites, k))
    ensures var before, now :=
            CallStream.After(logs, sites, reason, k).events, CallStream.After(logs, sites, reason, k + 1).events;
            before <= now && NoArguments(now[|before|..])
  {
    var depth, jump := StreamParts(logs, sites, reason, k, k + 1, "");
    Appended(CallStream.After(logs, sites, reason, k).events, depth, jump);
  }

  /** Caught reverts: one is reported exactly at a step that falls in depth right after a REVERT, before the
      returns, and it is the reason of that REVERT. */
  lemma StreamCaughtIff(
    logs: seq<Log>, sites: seq<Site>, reason: CallStream.Reason, k: nat, message: string)
    requires CallStream.Traces(logs, sites) && k < |logs|
    ensures var before, now :=
            CallStream.After(logs, sites, reason, k).events, CallStream.After(logs, sites, reason, k + 1).events;
            && before <= now
            && (RevertCaught(message) in now[|before|..] <==> Catches(logs, reason, k, message))
            && (RevertCaught(message) in now[|before|..] ==> now[|before|] == RevertCaught(message))
  {
    var depth, jump := StreamParts(logs, sites, reason, k, k + 1, message);
    Appended(CallStream.After(logs, sites, reason, k).events, depth, jump);
  }

  // ---- the multi-contract loop ------------------------------------------------------------------------

  /** Argument events of the multi-contract loop: every resolved internal call emits its parameters with their
      words from the stack, in order, right before its call event. */
  lemma RecordedArguments(
    config: FrameRecorder.Config, logs: seq<Log>, states: seq<FrameRecorder.State>, k: nat, target: FunctionDef,
    below: seq<Word>, values: seq<Word>, dest: Word)
    requires DepthTrace(logs) && FrameRecorder.IsRun(config, logs, states) && k < |logs|
    requires JumpsInto(logs[k], FrameStream.SiteOf(config, logs, states, k), target, below, values, dest)
    ensures var before, now := states[k].events, states[k + 1].events;
            var start := |now| - |values| - 1;
            && |before| <= start && before <= now && ArgumentsThenCall(now[start..], target, values)
            && NoArguments(now[|before|..start])
            && (logs[k].depth == PreviousDepth(logs, k) ==> start == |before|)
  {
    var site, before := FrameStream.SiteOf(config, logs, states, k), states[k].events;
    var depth := FrameStream.DepthChange(PreviousDepth(logs, k), logs[k].depth);
    var jump := FrameRecorder.JumpEvents(logs[k], site);
    FrameStream.EventsStep(config, logs, states, k, k + 1);
    StagedThenCall(logs[k], site, target, below, values, dest);
    ChangeHasNoArguments(PreviousDepth(logs, k), logs[k].depth);
    var now := before + depth + jump;
    assert now[|before + depth|..] == jump && now[|before|..|before + depth|] == depth;
  }

  lemma ChangeHasNoArguments(prevDepth: nat, depth: nat)
    ensures NoArguments(FrameStream.DepthChange(prevDepth, depth))
    ensures prevDepth == depth ==> FrameStream.DepthChange(prevDepth, depth) == []
  {
    if depth <= prevDepth {
      ReturnsOnly(prevDepth - depth);
    }
  }

  lemma JumpHasOnlyCalls(log: Log, site: Site)
    ensures EmitsNoArguments(log, site, true) ==> NoArguments(FrameRecorder.JumpEvents(log, site))
    ensures forall e :: e in FrameRecorder.JumpEvents(log, site) ==> !e.RevertCaught?
  {
  }

  lemma ChangeHasNoRevert(prevDepth: nat, depth: nat)
    ensures forall e :: e in FrameStream.DepthChange(prevDepth, depth) ==> !e.RevertCaught?
  {
    if depth <= prevDepth {
      ReturnsOnly(prevDepth - depth);
    }
  }

  /** Any other step of the multi-contract loop emits no argument, and none reports a caught revert. */
  lemma RecordedNoArguments(
    config: FrameRecorder.Config, logs: seq<Log>, states: seq<FrameRecorder.State>, k: nat)
    requires DepthTrace(logs) && FrameRecorder.IsRun(config, logs, states) && k < |logs|
    ensures var before, now := states[k].events, states[k + 1].events;
            && before <= now && (forall e :: e in now[|before|..] ==> !e.RevertCaught?)
            && (EmitsNoArguments(logs[k], FrameStream.SiteOf(config, logs, states, k), true)
                ==> NoArguments(now[|before|..]))
  {
    var site, before := FrameStream.SiteOf(config, logs, states, k), states[k].events;
    var depth := FrameStream.DepthChange(PreviousDepth(logs, k), logs[k].depth);
    var jump := FrameRecorder.JumpEvents(logs[k], site);
    FrameStream.EventsStep(config, logs, states, k, k + 1);
    ChangeHasNoArguments(PreviousDepth(logs, k), logs[k].depth);
    ChangeHasNoRevert(PreviousDepth(logs, k), logs[k].depth);
    JumpHasOnlyCalls(logs[k], site);
    Appended(before, depth, jump);
  }
}
