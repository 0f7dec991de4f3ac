/** The single-contract recording loop (src/recorder.rs, record_from_structlog): call and return
    events, the absorbed first internal call, argument events and the per-depth trackers. */
module CallStream {
  import opened Basics
  import opened StructLog
  import opened StackTracker
  import opened ArgStaging
  import opened RevertDecode
  import opened CallBrackets
  import RevertBrackets

  type Bytes = seq<byte>

  /** The loop's variables. */
  datatype State = State(prevDepth: nat, absorber: Absorber, trackers: seq<Slots>, events: seq<Event>)

  const START_STATE := State(1, START, [], [])

  /** The readable reason of a REVERT step. */
  type Reason = Log -> string

  function DecodedReason(lossy: Bytes -> string): Reason {
    (log: Log) => DecodeRevert(RevertPayload(log.stack, log.memory), map[], lossy).message
  }

  /** The caught revert of the frame that ended with the previous step. */
  function CaughtRevert(prev: Option<Log>, prevDepth: nat, reason: Reason): seq<Event> {
    if prev.Some? && prev.value.depth == prevDepth && prev.value.op == Some(OP_REVERT)
    then [RevertCaught(reason(prev.value))]
    else []
  }

  function Returns(n: nat): (r: seq<Event>)
    ensures |r| == n && forall k :: 0 <= k < n ==> r[k] == RegisterReturn
  {
    if n == 0 then [] else Returns(n - 1) + [RegisterReturn]
  }

  /** Events of entering or leaving external frames. */
  function DepthEvents(prev: Option<Log>, prevDepth: nat, depth: nat, reason: Reason): seq<Event> {
    if depth > prevDepth then [RegisterCall]
    else if depth < prevDepth then CaughtRevert(prev, prevDepth, reason) + Returns(prevDepth - depth)
    else []
  }

  function Resized(trackers: seq<Slots>, prevDepth: nat, depth: nat): (r: seq<Slots>)
    ensures depth <= |r|
  {
    Grown(if depth < prevDepth then Shrunk(trackers, prevDepth - depth) else trackers, depth, [])
  }

  function ArgEvents(args: seq<Arg>): (r: seq<Event>)
    ensures |r| == |args|
  {
    seq(|args|, i requires 0 <= i < |args| => RegisterArg(args[i].name, args[i].value))
  }

  /** The argument events of an internal call. */
  function StagedEvents(site: Site, log: Log): seq<Event> {
    if site.target.Some? && log.stack.Some? then ArgEvents(Staged(site.target.value, log.stack.value, 1)) else []
  }

  /** The jump marker of a located step, as a bracket. */
  function JumpBracket(site: Site): Option<Bracket> {
    if !site.located then None
    else match site.jump
      case Into => Some(Open(Internal))
      case OutOf => Some(Close(Internal))
      case Regular => None
  }

  /** The tracker after the step's opcode. */
  function OpcodeSlots(s: Slots, log: Log, site: Site): Slots {
    if log.op.Some? then Processed(s, log.op.value, site.offset, site.vars).slots else s
  }

  /** The tracker after its jump: seeded for a resolved callee, otherwise reset. */
  function JumpSlots(s: Slots, seen: bool, log: Log, site: Site): Slots {
    var b := JumpBracket(site);
    if b.None? then s
    else if b == Some(Open(Internal)) && seen then StagedSlots(site.target, log.stack, 1)
    else []
  }

  function AbsorberAfter(absorber: Absorber, site: Site): Absorber {
    var b := JumpBracket(site);
    if b.Some? then Absorb(absorber, b.value).0 else absorber
  }

  function JumpEvents(absorber: Absorber, log: Log, site: Site): seq<Event> {
    var b := JumpBracket(site);
    if b.None? || !Absorb(absorber, b.value).1 then []
    else if b.value.Open? then StagedEvents(site, log) + [RegisterCall]
    else [RegisterReturn]
  }

  function Next(st: State, prev: Option<Log>, log: Log, site: Site, reason: Reason): State
    requires 1 <= log.depth
  {
    var sized := Resized(st.trackers, st.prevDepth, log.depth);
    State(log.depth,
          AbsorberAfter(st.absorber, site),
          sized[log.depth - 1 := JumpSlots(OpcodeSlots(sized[log.depth - 1], log, site), st.absorber.seen, log, site)],
          st.events + DepthEvents(prev, st.prevDepth, log.depth, reason) + JumpEvents(st.absorber, log, site))
  }

  predicate Traces(logs: seq<Log>, sites: seq<Site>) {
    |logs| == |sites| && forall i :: 0 <= i < |logs| ==> 1 <= logs[i].depth
  }

  /** The state after the first `i` steps. */
  function After(logs: seq<Log>, sites: seq<Site>, reason: Reason, i: nat): State
    requires Traces(logs, sites) && i <= |logs|
  {
    if i == 0 then START_STATE
    else Next(After(logs, sites, reason, i - 1), Previous(logs, i - 1), logs[i - 1], sites[i - 1], reason)
  }

  class Recorder {
    var prevDepth: nat
    var firstInternalCallAbsorbed: bool
    var absorbedCallNesting: int
    var stackTrackers: seq<Slots>
    var events: seq<Event>

    function Current(): State
      reads this
    {
      State(prevDepth, Absorber(firstInternalCallAbsorbed, absorbedCallNesting), stackTrackers, events)
    }

    constructor ()
      ensures Current() == START_STATE
    {
      prevDepth, firstInternalCallAbsorbed, absorbedCallNesting := 1, false, 0;
      stackTrackers, events := [], [];
    }

    method SizeTrackers(depth: nat)
      modifies this`stackTrackers
      ensures stackTrackers == Grown(old(stackTrackers), depth, [])
    {
      while |stackTrackers| < depth
        invariant Grown(stackTrackers, depth, []) == Grown(old(stackTrackers), depth, [])
      {
        stackTrackers := stackTrackers + [[]];
      }
    }

    method LeaveFrames(depthDiff: nat)
      modifies this`stackTrackers, this`events
      ensures stackTrackers == Shrunk(old(stackTrackers), depthDiff) && events == old(events) + Returns(depthDiff)
    {
      for k := 0 to depthDiff
        invariant events == old(events) + Returns(k)
        invariant stackTrackers == Shrunk(old(stackTrackers), k)
      {
        events := events + [RegisterReturn];
        stackTrackers := if stackTrackers == [] then [] else stackTrackers[..|stackTrackers| - 1];
      }
    }

    method ChangeDepth(prev: Option<Log>, depth: nat, reason: Reason)
      modifies this`stackTrackers, this`events
      ensures stackTrackers == Resized(old(stackTrackers), prevDepth, depth)
      ensures events == old(events) + DepthEvents(prev, prevDepth, depth, reason)
    {
      if depth > prevDepth {
        events := events + [RegisterCall];
        SizeTrackers(depth);
      } else if depth < prevDepth {
        if prev.Some? && prev.value.depth == prevDepth && prev.value.op == Some(OP_REVERT) {
          events := events + [RevertCaught(reason(prev.value))];
        }
        LeaveFrames(prevDepth - depth);
      }
      SizeTrackers(depth);
    }

    method EmitArgs(args: seq<Arg>)
      modifies this`events
      ensures events == old(events) + ArgEvents(args)
    {
      for i := 0 to |args|
        invariant events == old(events) + ArgEvents(args)[..i]
      {
        events := events + [RegisterArg(args[i].name, args[i].value)];
      }
    }

    /** The jump marker: an internal call or return. */
    method HandleJump(log: Log, site: Site)
      requires 1 <= log.depth <= |stackTrackers| && absorbedCallNesting >= 0
      modifies this`firstInternalCallAbsorbed, this`absorbedCallNesting, this`stackTrackers, this`events
      ensures Absorber(firstInternalCallAbsorbed, absorbedCallNesting)
              == AbsorberAfter(old(Absorber(firstInternalCallAbsorbed, absorbedCallNesting)), site)
      ensures absorbedCallNesting >= 0
      ensures stackTrackers == old(stackTrackers)[log.depth - 1 :=
                JumpSlots(old(stackTrackers)[log.depth - 1], old(firstInternalCallAbsorbed), log, site)]
      ensures events == old(events)
              + JumpEvents(old(Absorber(firstInternalCallAbsorbed, absorbedCallNesting)), log, site)
    {
      var idx := log.depth - 1;
      if site.located {
        match site.jump {
          case Into =>
            if !firstInternalCallAbsorbed {
              firstInternalCallAbsorbed, absorbedCallNesting := true, 1;
              stackTrackers := stackTrackers[idx := []];
            } else {
              if absorbedCallNesting > 0 {
                absorbedCallNesting := absorbedCallNesting + 1;
              }
              var tracker := new StackTracker();
              var args := StageInternalCallArgs(tracker, site.target, log.stack, 1);
              EmitArgs(args);
              stackTrackers := stackTrackers[idx := tracker.slots];
              events := events + [RegisterCall];
            }
          case OutOf =>
            if absorbedCallNesting > 0 {
              absorbedCallNesting := absorbedCallNesting - 1;
              if absorbedCallNesting != 0 {
                events := events + [RegisterReturn];
              }
            } else {
              events := events + [RegisterReturn];
            }
            stackTrackers := stackTrackers[idx := []];
          case Regular =>
        }
      }
    }

    /** One iteration of the loop. */
    method Step(prev: Option<Log>, log: Log, site: Site, reason: Reason)
      requires 1 <= log.depth && absorbedCallNesting >= 0
      modifies this
      ensures Current() == Next(old(Current()), prev, log, site, reason)
      ensures absorbedCallNesting >= 0
    {
      ChangeDepth(prev, log.depth, reason);
      var idx := log.depth - 1;
      if log.op.Some? {
        var tracker := new StackTracker();
        tracker.slots := stackTrackers[idx];
        var _ := tracker.ProcessStep(log.op.value, site.offset, site.vars);
        stackTrackers := stackTrackers[idx := tracker.slots];
      }
      assert stackTrackers[idx] == OpcodeSlots(Resized(old(stackTrackers), old(prevDepth), log.depth)[idx], log, site);
      HandleJump(log, site);
      prevDepth := log.depth;
    }

    method RecordFromStructlog(logs: seq<Log>, sites: seq<Site>, reason: Reason)
      requires Traces(logs, sites) && Current() == START_STATE
      modifies this
      ensures Current() == After(logs, sites, reason, |logs|)
    {
      for i := 0 to |logs|
        invariant absorbedCallNesting >= 0
        invariant Current() == After(logs, sites, reason, i)
      {
        Step(Previous(logs, i), logs[i], sites[i], reason);
      }
    }
  }

  // ---- the stream is the absorbed word -----------------------------------------------------------------

  function Falls(n: nat): (r: BracketWord)
    ensures |r| == n && forall k :: 0 <= k < n ==> r[k] == Close(External)
  {
    if n == 0 then [] else Falls(n - 1) + [Close(External)]
  }

  /** The brackets of a depth change: one call however far it rises, a return for each level it falls. */
  function DepthBrackets(prevDepth: nat, depth: nat): BracketWord {
    if depth > prevDepth then [Open(External)] else Falls(prevDepth - depth)
  }

  function StepBrackets(prevDepth: nat, log: Log, site: Site): BracketWord {
    var b := JumpBracket(site);
    DepthBrackets(prevDepth, log.depth) + if b.Some? then [b.value] else []
  }

  /** Depth changes and jump markers of the first `i` steps as one word. */
  function TraceWord(logs: seq<Log>, sites: seq<Site>, i: nat): BracketWord
    requires Traces(logs, sites) && i <= |logs|
  {
    if i == 0 then []
    else TraceWord(logs, sites, i - 1) + StepBrackets(PreviousDepth(logs, i - 1), logs[i - 1], sites[i - 1])
  }

  function Erased(w: BracketWord): (r: seq<Event>)
    ensures |r| == |w|
  {
    seq(|w|, i requires 0 <= i < |w| => if w[i].Open? then RegisterCall else RegisterReturn)
  }

  lemma {:induction false} ExternalPasses(w: BracketWord, b: Bracket)
    requires b.kind.External?
    ensures Counter(w + [b]) == Counter(w) && Kept(w + [b]) == Kept(w) + [b]
  {
    Snoc(w, b);
  }

  lemma Regrouped<T>(a: seq<T>, b: seq<T>, x: T)
    ensures a + b + [x] == a + (b + [x])
  {
  }

  /** External brackets neither move the counter nor are dropped. */
  lemma {:induction false} ExternalsPass(w: BracketWord, more: BracketWord)
    requires forall b :: b in more ==> b.kind.External?
    ensures Counter(w + more) == Counter(w) && Kept(w + more) == Kept(w) + more
    decreases |more|
  {
    if more == [] {
      assert w + more == w;
    } else {
      var init, b := more[..|more| - 1], more[|more| - 1];
      assert more == init + [b];
      ExternalsPass(w, init);
      ExternalPasses(w + init, b);
      Regrouped(w, init, b);
      Regrouped(Kept(w), init, b);
    }
  }

  lemma {:induction false} ReturnsAreCalls(n: nat)
    ensures CallsOf(Returns(n)) == Returns(n)
  {
    if n == 0 {
    } else {
      ReturnsAreCalls(n - 1);
      assert Returns(n)[..n - 1] == Returns(n - 1);
    }
  }

  lemma {:induction false} ArgsAreNotCalls(args: seq<Arg>)
    ensures CallsOf(ArgEvents(args)) == []
  {
    if args == [] {
    } else {
      ArgsAreNotCalls(args[..|args| - 1]);
      assert ArgEvents(args)[..|args| - 1] == ArgEvents(args[..|args| - 1]);
    }
  }

  lemma {:induction false} ErasedReturns(n: nat)
    ensures Erased(Falls(n)) == Returns(n)
  {
  }

  lemma CaughtIsNoCall(prev: Option<Log>, prevDepth: nat, reason: Reason)
    ensures CallsOf(CaughtRevert(prev, prevDepth, reason)) == []
  {
  }

  lemma {:induction false} FallIsReturns(caught: seq<Event>, n: nat)
    requires CallsOf(caught) == []
    ensures CallsOf(caught + Returns(n)) == Erased(Falls(n))
  {
    CallsOfConcat(caught, Returns(n));
    ReturnsAreCalls(n);
    ErasedReturns(n);
  }

  /** The depth change of a step emits exactly its brackets. */
  lemma DepthEventsAreBrackets(prev: Option<Log>, prevDepth: nat, depth: nat, reason: Reason)
    ensures CallsOf(DepthEvents(prev, prevDepth, depth, reason)) == Erased(DepthBrackets(prevDepth, depth))
  {
    if depth > prevDepth {
      assert CallsOf([RegisterCall]) == [RegisterCall];
    } else if depth < prevDepth {
      CaughtIsNoCall(prev, prevDepth, reason);
      FallIsReturns(CaughtRevert(prev, prevDepth, reason), prevDepth - depth);
    }
  }

  /** The jump of a step emits its bracket unless the bracket is absorbed. */
  lemma JumpEventsAreBrackets(absorber: Absorber, log: Log, site: Site)
    ensures var b := JumpBracket(site);
            CallsOf(JumpEvents(absorber, log, site))
              == if b.Some? && Absorb(absorber, b.value).1 then Erased([b.value]) else []
  {
    var b := JumpBracket(site);
    if b.Some? && Absorb(absorber, b.value).1 {
      if b.value.Open? {
        CallsOfConcat(StagedEvents(site, log), [RegisterCall]);
        if site.target.Some? && log.stack.Some? {
          ArgsAreNotCalls(Staged(site.target.value, log.stack.value, 1));
        }
        assert CallsOf([RegisterCall]) == [RegisterCall];
      } else {
        assert CallsOf([RegisterReturn]) == [RegisterReturn];
      }
    }
  }

  lemma ErasedConcat(a: BracketWord, b: BracketWord)
    ensures Erased(a + b) == Erased(a) + Erased(b)
  {
  }

  /** What the brackets of a step add to the kept word. */
  lemma {:induction false} StepKept(w: BracketWord, prevDepth: nat, log: Log, site: Site)
    ensures var b, w' := JumpBracket(site), w + StepBrackets(prevDepth, log, site);
            && Counter(w') == AbsorberAfter(Counter(w), site)
            && Kept(w') == Kept(w) + DepthBrackets(prevDepth, log.depth)
                           + if b.Some? && Absorb(Counter(w), b.value).1 then [b.value] else []
  {
    var more, b := DepthBrackets(prevDepth, log.depth), JumpBracket(site);
    ExternalsPass(w, more);
    if b.None? {
      assert w + StepBrackets(prevDepth, log, site) == w + more;
    } else {
      assert w + StepBrackets(prevDepth, log, site) == w + more + [b.value];
      Snoc(w + more, b.value);
    }
  }

  lemma {:induction false} NextEvents(
    events: seq<Event>, depthEvents: seq<Event>, jumpEvents: seq<Event>, kept: BracketWord,
    more: BracketWord, last: BracketWord)
    requires CallsOf(events) == Erased(kept) && CallsOf(depthEvents) == Erased(more)
             && CallsOf(jumpEvents) == Erased(last)
    ensures CallsOf(events + depthEvents + jumpEvents) == Erased(kept + more + last)
  {
    CallsOfConcat(events + depthEvents, jumpEvents);
    CallsOfConcat(events, depthEvents);
    ErasedConcat(kept + more, last);
    ErasedConcat(kept, more);
  }

  /** The state has emitted the kept part of `w`. */
  predicate Streams(st: State, w: BracketWord, depth: nat) {
    CallsOf(st.events) == Erased(Kept(w)) && st.absorber == Counter(w) && st.prevDepth == depth
  }

  /** One step appends the brackets it contributes. */
  lemma StreamStep(
    st: State, prev: Option<Log>, log: Log, site: Site, reason: Reason, w: BracketWord, after: State)
    requires 1 <= log.depth && Streams(st, w, st.prevDepth) && after == Next(st, prev, log, site, reason)
    ensures Streams(after, w + StepBrackets(st.prevDepth, log, site), log.depth)
  {
    var b := JumpBracket(site);
    DepthEventsAreBrackets(prev, st.prevDepth, log.depth, reason);
    JumpEventsAreBrackets(st.absorber, log, site);
    StepKept(w, st.prevDepth, log, site);
    NextEvents(st.events, DepthEvents(prev, st.prevDepth, log.depth, reason), JumpEvents(st.absorber, log, site),
               Kept(w), DepthBrackets(st.prevDepth, log.depth),
                 if b.Some? && Absorb(st.absorber, b.value).1 then [b.value] else []);
  }

  predicate StreamsAt(logs: seq<Log>, sites: seq<Site>, reason: Reason, i: nat)
    requires Traces(logs, sites) && i <= |logs|
  {
    Streams(After(logs, sites, reason, i), TraceWord(logs, sites, i), PreviousDepth(logs, i))
  }

  lemma StreamsNext(logs: seq<Log>, sites: seq<Site>, reason: Reason, k: nat)
    requires Traces(logs, sites) && k < |logs| && StreamsAt(logs, sites, reason, k)
    ensures StreamsAt(logs, sites, reason, k + 1)
  {
    StreamStep(After(logs, sites, reason, k), Previous(logs, k), logs[k], sites[k], reason, TraceWord(logs, sites, k),
               After(logs, sites, reason, k + 1));
  }

  /** Equal step counts name one state. */
  lemma StreamsSame(logs: seq<Log>, sites: seq<Site>, reason: Reason, n: nat, i: nat)
    requires Traces(logs, sites) && n == i <= |logs| && StreamsAt(logs, sites, reason, n)
    ensures StreamsAt(logs, sites, reason, i)
  {
  }

  lemma StreamsStart(logs: seq<Log>, sites: seq<Site>, reason: Reason)
    requires Traces(logs, sites)
    ensures StreamsAt(logs, sites, reason, 0)
  {
    assert Erased([]) == [];
  }

  /** For every trace, the call and return events are the brackets of the trace with the absorbed
      ones left out, in order. */
  lemma {:induction false} StreamIsKeptWord(logs: seq<Log>, sites: seq<Site>, reason: Reason, i: nat)
    requires Traces(logs, sites) && i <= |logs|
    ensures Streams(After(logs, sites, reason, i), TraceWord(logs, sites, i), PreviousDepth(logs, i))
  {
    if i == 0 {
      StreamsStart(logs, sites, reason);
    } else {
      var k := i - 1;
      StreamIsKeptWord(logs, sites, reason, k);
      StreamsNext(logs, sites, reason, k);
      StreamsSame(logs, sites, reason, k + 1, i);
    }
  }

  /** The events up to any point have at least as many calls as returns. */
  function Balance(events: seq<Event>): int {
    if events == [] then 0
    else Balance(events[..|events| - 1]) + match events[|events| - 1]
                                           case RegisterCall => 1
                                           case RegisterReturn => -1
                                           case _ => 0
  }

  lemma {:induction false} BalanceIsHeight(w: BracketWord)
    ensures Balance(Erased(w)) == Height(w)
  {
    if w == [] {
    } else {
      BalanceIsHeight(w[..|w| - 1]);
      assert Erased(w)[..|w| - 1] == Erased(w[..|w| - 1]);
    }
  }

  /** No prefix of the events has more returns than calls. */
  ghost predicate NeverClosesToplevel(calls: seq<Event>) {
    forall n :: 0 <= n <= |calls| ==> Balance(calls[..n]) >= 0
  }

  lemma ErasedBalance(w: BracketWord)
    ensures NeverClosesToplevel(Erased(w)) <==> KeepsToplevelOpen(w)
  {
    forall n | 0 <= n <= |w| ensures Balance(Erased(w)[..n]) == Height(w[..n]) {
      assert Erased(w)[..n] == Erased(w[..n]);
      BalanceIsHeight(w[..n]);
    }
  }

  /** For every trace whatever: the events are the brackets of the trace without the first internal call and
      without the first bracket at which the internal calls are back at their number before it. */
  lemma {:induction false} RecordedCallsOfEveryTrace(logs: seq<Log>, sites: seq<Site>, reason: Reason)
    requires Traces(logs, sites)
    ensures var w, calls := TraceWord(logs, sites, |logs|), CallsOf(After(logs, sites, reason, |logs|).events);
            && (FirstInto(w).None? ==> calls == Erased(w))
            && (FirstInto(w).Some? ==>
                  var p := FirstInto(w).value;
                  calls == Erased(if BackAt(w).Some? then WithoutPair(w, p, BackAt(w).value) else Without(w, p)))
  {
    StreamIsKeptWord(logs, sites, reason, |logs|);
    DroppedReturn(TraceWord(logs, sites, |logs|));
  }

  /** The absorbed-call bracket theorem for recorded traces, finished or not. When depth changes and
      jump markers match, the call and return events are that word without its first internal call p
      and the return q matching it, or without p alone while it is open; they match as well, balance
      when the word does, and no prefix of them closes `<toplevel>`. */
  lemma {:induction false} RecordedCallsAreBracketed(logs: seq<Log>, sites: seq<Site>, reason: Reason)
    requires Traces(logs, sites) && Legal(TraceWord(logs, sites, |logs|))
    ensures var w, calls := TraceWord(logs, sites, |logs|), CallsOf(After(logs, sites, reason, |logs|).events);
            && calls == Erased(Kept(w)) && Legal(Kept(w)) && NeverClosesToplevel(calls)
            && (WellBracketed(w) ==> WellBracketed(Kept(w)))
            && (FirstInto(w).None? ==> Kept(w) == w)
            && (FirstInto(w).Some? ==>
                  var p := FirstInto(w).value;
                  || (exists q: nat :: Matches(w, p, q) && Kept(w) == WithoutPair(w, p, q))
                  || ((forall q: nat :: !Matches(w, p, q)) && Kept(w) == Without(w, p) && !WellBracketed(w)))
  {
    StreamIsKeptWord(logs, sites, reason, |logs|);
    AbsorbedBracketTheorem(TraceWord(logs, sites, |logs|));
    ErasedBalance(Kept(TraceWord(logs, sites, |logs|)));
  }

  /** The same with reverting frames, for every trace in which internal returns stay inside their frame.
      The stream is the word without the absorbed call p and its own return q exactly when no frame
      between them ended with an internal call open; otherwise that return is emitted too, and the
      stream is the word without p. In either case `<toplevel>` is never closed. */
  lemma {:induction false} RecordedCallsWithReverts(logs: seq<Log>, sites: seq<Site>, reason: Reason)
    requires Traces(logs, sites) && RevertBrackets.Live(TraceWord(logs, sites, |logs|)).Some?
    ensures var w, calls := TraceWord(logs, sites, |logs|), CallsOf(After(logs, sites, reason, |logs|).events);
            && NeverClosesToplevel(calls)
            && (FirstInto(w).None? ==> calls == Erased(w))
            && (FirstInto(w).Some? ==>
                  var p, q := FirstInto(w).value, RevertBrackets.OwnReturn(w);
                  if q.Some? && RevertBrackets.Abandoned(w[..q.value]) == 0
                  then p < q.value && calls == Erased(WithoutPair(w, p, q.value))
                  else calls == Erased(Without(w, p)))
  {
    var w := TraceWord(logs, sites, |logs|);
    StreamIsKeptWord(logs, sites, reason, |logs|);
    if FirstInto(w).None? {
      RevertBrackets.BeforeFirstInto(w);
    } else {
      RevertBrackets.AbsorptionWithReverts(w);
    }
    RevertBrackets.RevertsKeepToplevelOpen(w);
    ErasedBalance(Kept(w));
  }

  /** The writer's call depth at the end of such a trace: the open calls and the abandoned ones, less the
      absorbed call while it counts as open. */
  lemma {:induction false} RecordedCallDepth(logs: seq<Log>, sites: seq<Site>, reason: Reason)
    requires Traces(logs, sites) && RevertBrackets.Live(TraceWord(logs, sites, |logs|)).Some?
    ensures var w := TraceWord(logs, sites, |logs|);
            Balance(CallsOf(After(logs, sites, reason, |logs|).events))
            == |RevertBrackets.Live(w).value| + RevertBrackets.Abandoned(w) - if AbsorbedOpen(w) then 1 else 0
  {
    var w := TraceWord(logs, sites, |logs|);
    StreamIsKeptWord(logs, sites, reason, |logs|);
    BalanceIsHeight(Kept(w));
    RevertBrackets.StreamHeight(w);
  }

  /** For every trace, reverting frames included: the events never close `<toplevel>` exactly when at
      each point depth and open internal calls leave room for the absorbed call. */
  lemma {:induction false} RecordedToplevelIff(logs: seq<Log>, sites: seq<Site>, reason: Reason)
    requires Traces(logs, sites)
    ensures NeverClosesToplevel(CallsOf(After(logs, sites, reason, |logs|).events))
            <==> LeavesRoom(TraceWord(logs, sites, |logs|))
  {
    StreamIsKeptWord(logs, sites, reason, |logs|);
    ErasedBalance(Kept(TraceWord(logs, sites, |logs|)));
    ToplevelStaysOpenIff(TraceWord(logs, sites, |logs|));
  }

  /** A trace that reverts: the contract's function is called, it calls out, and the frame it enters
      makes an internal call and reverts. */
  predicate RevertsInside(logs: seq<Log>, sites: seq<Site>) {
    && |logs| == |sites| == 4 && (forall i :: 0 <= i < 4 ==> sites[i].located)
    && logs[0].depth == logs[3].depth == 1 && logs[1].depth == logs[2].depth == 2 && logs[2].op == Some(OP_REVERT)
    && sites[0].jump.Into? && sites[1].jump.Into? && sites[2].jump.Regular? && sites[3].jump.OutOf?
  }

  lemma {:induction false} RevertedWord(logs: seq<Log>, sites: seq<Site>)
    requires Traces(logs, sites) && RevertsInside(logs, sites)
    ensures TraceWord(logs, sites, 4)
            == [Open(Internal), Open(External), Open(Internal), Close(External), Close(Internal)]
  {
    assert Falls(0) == [] && Falls(1) == [Close(External)];
    assert TraceWord(logs, sites, 1) == [Open(Internal)];
    assert TraceWord(logs, sites, 2) == [Open(Internal), Open(External), Open(Internal)];
    assert TraceWord(logs, sites, 3) == [Open(Internal), Open(External), Open(Internal)];
  }

  /** On such a trace the return of the absorbed call is emitted, although that call never was. */
  lemma {:induction false} RevertedCallKeepsReturn(logs: seq<Log>, sites: seq<Site>, reason: Reason)
    requires Traces(logs, sites) && RevertsInside(logs, sites)
    ensures CallsOf(After(logs, sites, reason, 4).events)
            == [RegisterCall, RegisterCall, RegisterReturn, RegisterReturn]
    ensures var w := TraceWord(logs, sites, 4);
            FirstInto(w) == Some(0) && RevertBrackets.OwnReturn(w) == Some(4) && RevertBrackets.Abandoned(w[..4]) == 1
  {
    var w := [Open(Internal), Open(External), Open(Internal), Close(External), Close(Internal)];
    assert Erased(Kept(w)) == [RegisterCall, RegisterCall, RegisterReturn, RegisterReturn] by {
      RevertUnbalancesAbsorption();
    }
    assert TraceWord(logs, sites, 4) == w by { RevertedWord(logs, sites); }
    assert CallsOf(After(logs, sites, reason, 4).events) == Erased(Kept(w)) by {
      StreamIsKeptWord(logs, sites, reason, 4);
    }
    RevertBrackets.RevertedOwnReturn();
  }

  lemma {:induction false} ExternalHeightConcat(w: BracketWord, more: BracketWord)
    ensures ExternalHeight(w + more) == ExternalHeight(w) + ExternalHeight(more)
    decreases |more|
  {
    if more == [] {
      assert w + more == w;
    } else {
      ExternalHeightConcat(w, more[..|more| - 1]);
      assert (w + more)[..|w + more| - 1] == w + more[..|more| - 1];
    }
  }

  lemma {:induction false} FallHeight(n: nat)
    ensures ExternalHeight(Falls(n)) == 0 - n
  {
    if n == 0 {
    } else {
      FallHeight(n - 1);
      assert Falls(n)[..n - 1] == Falls(n - 1);
    }
  }

  lemma UnitHeights(prevDepth: nat, log: Log, site: Site)
    requires log.depth <= prevDepth + 1
    ensures ExternalHeight(StepBrackets(prevDepth, log, site)) == log.depth - prevDepth
  {
    var more, b := DepthBrackets(prevDepth, log.depth), JumpBracket(site);
    ExternalHeightConcat(more, if b.Some? then [b.value] else []);
    if log.depth > prevDepth {
      assert more[..0] == [];
      assert ExternalHeight(more) == 1;
    } else {
      FallHeight(prevDepth - log.depth);
    }
    if b.Some? {
      assert [b.value][..0] == [];
    }
  }

  /** From depth 1, each step enters at most one frame, as the EVM does. */
  predicate UnitRises(logs: seq<Log>) {
    forall i :: 0 <= i < |logs| ==> logs[i].depth <= 1 + PreviousDepth(logs, i)
  }

  /** On such traces the external brackets of the word measure the depth. */
  lemma {:induction false} WordMeasuresDepth(logs: seq<Log>, sites: seq<Site>, i: nat)
    requires Traces(logs, sites) && UnitRises(logs) && i <= |logs|
    ensures ExternalHeight(TraceWord(logs, sites, i)) == PreviousDepth(logs, i) - 1
  {
    if i == 0 {
    } else {
      WordMeasuresDepth(logs, sites, i - 1);
      var before := PreviousDepth(logs, i - 1);
      UnitHeights(before, logs[i - 1], sites[i - 1]);
      ExternalHeightConcat(TraceWord(logs, sites, i - 1), StepBrackets(before, logs[i - 1], sites[i - 1]));
    }
  }

  /** A rise by two levels is one call, but falling back is two returns: then `<toplevel>` is closed. */
  lemma DoubleRiseClosesToplevel(log: Log, site: Site)
    requires log.depth == 3 && site.jump.Regular?
    ensures var w := StepBrackets(1, log, site) + StepBrackets(3, log.(depth := 1), site);
            w == [Open(External), Close(External), Close(External)] && !LeavesRoom(w)
  {
    var w := StepBrackets(1, log, site) + StepBrackets(3, log.(depth := 1), site);
    assert Falls(2) == [Close(External), Close(External)];
    assert w == [Open(External), Close(External), Close(External)];
    assert w[..3] == w && w[..2] == [Open(External), Close(External)] && w[..2][..1] == [Open(External)]
      && [Open(External)][..0] == [];
    assert Height([Open(External)]) == 1 && Height([Open(External), Close(External)]) == 0 && Height(w) == -1;
    assert Height(w[..3]) < 0;
  }

  /** Revert decoding reaches the event stream: when the step before a fall in depth reverts with an
      encoded reason in memory, the caught reason is reported before the returns. */
  lemma {:induction false} CaughtReasonIsReported(
    prev: Log, depth: nat, lossy: Bytes -> string, m: Bytes, before: Bytes, behind: Bytes,
                               below: seq<Word>, prefixed: bool)
    requires depth < prev.depth && prev.op == Some(OP_REVERT)
    requires |before + EncodeError(m) + behind| % 32 == 0 && |before + EncodeError(m) + behind| < U64_BOUND
    requires prev.stack == Some(below + [|EncodeError(m)|, |before|])
    requires prev.memory == Some(Dump(before + EncodeError(m) + behind, prefixed))
    ensures DepthEvents(Some(prev), prev.depth, depth, DecodedReason(lossy))
            == [RevertCaught(lossy(m))] + Returns(prev.depth - depth)
  {
    RevertRoundTrip(m, before, behind, below, prefixed, map[], lossy);
    assert DecodedReason(lossy)(prev) == lossy(m);
  }
}
