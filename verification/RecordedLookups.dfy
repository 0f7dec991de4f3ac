/** What the two loops show of local variables in recordings: when is it the value the opcode leaves? */
module RecordedLookups {
  import opened Basics
  import opened EvmStack
  import opened StructLog
  import opened StackTracker
  import opened StackSimulation
  import opened LocalLookup
  import opened TraceStacks
  import CallStream
  import FrameRecorder
  import FrameTheorems
  import FrameTracking
  import StreamTracking

  // ---- the multi-contract loop ------------------------------------------------------------------------

  /** The tracker in which step `j` looks its locals up: after its opcode, before its jump. */
  function LookupSlots(trackers: seq<Slots>, log: Log, site: Site): Slots
    requires 1 <= log.depth
  {
    CallStream.OpcodeSlots(FoundSlots(trackers, log.depth), log, site)
  }

  /** The multi-contract loop, for every recording of an EVM trace, every step whose opcode executes and
      every name: the value shown is the one the opcode leaves exactly under the condition on the opcode,
      the labels before it and the two stacks. A step that finds its tracker exact finds it as deep as its
      stack, any other at most as deep. */
  lemma RecordedLookupBeforeIff(
    config: FrameRecorder.Config, logs: seq<Log>, states: seq<FrameRecorder.State>, j: nat,
      post: seq<Word>, name: string)
    requires EvmTrace(logs) && FrameRecorder.IsRun(config, logs, states)
    requires FrameTracking.CallsAreJumps(config, logs, states)
    requires j < |logs| && logs[j].op.Some? && logs[j].stack.Some?
    requires Executes(logs[j].op.value, logs[j].stack.value, post)
    ensures states[j + 1].frames != []
    ensures var s, site :=
            FoundSlots(states[j].trackers, logs[j].depth), FrameTheorems.SiteAt(config, logs, states[j + 1], j);
            var op, pre, r := logs[j].op.value, logs[j].stack.value, LookupSlots(states[j].trackers, logs[j], site);
            && |s| <= |pre| && |r| <= |post|
            && (FoundExact(logs, j, FrameTracking.Exact(config, logs, states, j)) ==> |s| == |pre|)
            && (VariableValue(r, name, pre) == VariableValue(r, name, post)
                <==> Readable(s, op, site.offset, site.vars, pre, post, name))
  {
    var exact, s := FrameTracking.Exact(config, logs, states, j), FoundSlots(states[j].trackers, logs[j].depth);
    FrameTracking.EveryFrameTracked(config, logs, states, j);
    FrameTracking.TrackerStep(config, logs, states, j);
    StartsTracked(logs, j, states[j].trackers, exact, s, FoundExact(logs, j, exact));
    var site := FrameTheorems.SiteAt(config, logs, states[j + 1], j);
    LookupBeforeAtSlot(s, logs[j].op.value, site.offset, site.vars, logs[j].stack.value, post, name);
  }

  // ---- the single-contract loop -------------------------------------------------------------------------

  /** The stack of the next log in an EVM trace; when it belongs to an outer frame, that frame's words below
      the operands of its call are as they were when it called. */
  lemma NextStack(logs: seq<Log>, j: nat, post: seq<Word>)
    requires EvmTrace(logs) && j + 1 < |logs|
    requires logs[j + 1].depth == logs[j].depth ==> logs[j + 1].stack == Some(post)
    ensures Follows(logs[j], logs[j + 1], post)
    ensures logs[j + 1].depth < logs[j].depth ==>
              var call := logs[Latest(logs, j + 1)[logs[j + 1].depth - 1]];
              && HasOperands(call)
              && forall p :: 0 <= p < |call.stack.value| - Removed(call.op.value) && !IsSwap(call.op.value) ==>
                   p < |logs[j + 1].stack.value| && logs[j + 1].stack.value[p] == call.stack.value[p]
  {
    assert EvmStep(logs, j + 1);
    if logs[j + 1].depth < logs[j].depth {
      var call, after := logs[Latest(logs, j + 1)[logs[j + 1].depth - 1]], logs[j + 1].stack.value;
      OperandsBelow(call.op.value, call.stack.value, after);
    }
  }

  lemma OperandsBelow(op: byte, pre: seq<Word>, post: seq<Word>)
    requires Executes(op, pre, post)
    ensures forall p :: 0 <= p < |pre| - Removed(op) && !IsSwap(op) ==> p < |post| && post[p] == pre[p]
  {
    var kept := |pre| - Removed(op);
    if !IsDup(op) && !IsSwap(op) {
      forall p | 0 <= p < kept ensures post[p] == pre[p] {
        assert post[..kept][p] == pre[..kept][p];
      }
    }
  }

  /** The single-contract loop, for every recording of an EVM trace, every step whose opcode executes and
      every name: the value shown is the one the opcode leaves exactly when the frame goes on with the
      next log, or the name has no slot, or that log is of an outer frame that holds the same word at the
      slot's position. In the last case the word shown is the one that frame held there when it called. */
  lemma {:induction false} RecordedLookupAfterIff(
    logs: seq<Log>, sites: seq<Site>, reason: CallStream.Reason, j: nat, post: seq<Word>, name: string)
    requires EvmTrace(logs) && CallStream.Traces(logs, sites) && StreamTracking.CallsAreJumps(logs, sites)
    requires j + 1 < |logs| && logs[j].op.Some? && logs[j].stack.Some?
    requires Executes(logs[j].op.value, logs[j].stack.value, post)
    requires logs[j + 1].depth == logs[j].depth ==> logs[j + 1].stack == Some(post)
    ensures var next, r := logs[j + 1], StreamTracking.LookupSlots(logs, sites, reason, j);
            && next.stack.Some? && |r| <= |post|
            && (VariableValue(r, name, next.stack.value) == VariableValue(r, name, post)
                <==> (|| next.depth == logs[j].depth
                      || !HasLabel(r, name)
                      || (&& next.depth < logs[j].depth
                          && var p := TopmostSlot(r, name).value;
                             p < |next.stack.value| && next.stack.value[p] == post[p])))
    ensures var next, r := logs[j + 1], StreamTracking.LookupSlots(logs, sites, reason, j);
            next.depth < logs[j].depth && HasLabel(r, name) ==>
              var call, p := logs[Latest(logs, j + 1)[next.depth - 1]], TopmostSlot(r, name).value;
              && HasOperands(call)
              && (p < |call.stack.value| - Removed(call.op.value) && !IsSwap(call.op.value) ==>
                    VariableValue(r, name, next.stack.value) == Some(call.stack.value[p]))
  {
    var trackers, exact := CallStream.After(logs, sites, reason, j).trackers, StreamTracking.Exact(logs, sites, j);
    var s := FoundSlots(trackers, logs[j].depth);
    StreamTracking.EveryFrameTracked(logs, sites, reason, j);
    StreamTracking.FoundTracked(logs, j, trackers, exact);
    StepKeepsDrift(s, logs[j].op.value, sites[j].offset, sites[j].vars, logs[j].stack.value, post);
    NextStack(logs, j, post);
    LookupAfterIff(StreamTracking.LookupSlots(logs, sites, reason, j), logs[j], logs[j + 1], post, name);
  }
}
