/** Which stack a local is read from (src/recorder.rs): both loops move the labels over the opcode
    first. The multi-contract loop then reads the stack before the opcode, the single-contract loop
    the stack of the next log. When do they show what the opcode left? */
module LocalLookup {
  import opened Basics
  import opened SolidityAst
  import opened EvmStack
  import opened StackTracker
  import opened StackSimulation
  import opened StructLog

  /** A lookup answers alike on another stack exactly when the name's topmost slot lies in both
      stacks and holds the same word. */
  lemma {:induction false} SameAnswerIff(r: Slots, name: string, other: seq<Word>, post: seq<Word>)
    requires |r| <= |post|
    ensures VariableValue(r, name, other) == VariableValue(r, name, post)
            <==> var p := TopmostSlot(r, name); p.None? || (p.value < |other| && other[p.value] == post[p.value])
  {
  }

  // ---- the stack before the opcode ------------------------------------------------------------------

  /** The labels after the opcode and before recovery. */
  function MovedLabels(s: Slots, op: byte, off: Option<I32>, vars: seq<VarDecl>): (r: Slots)
    ensures Defined(op) && Removed(op) <= |s| ==> |r| == |s| - Removed(op) + Added(op)
  {
    Moved(s, op, if IsPush(op) then LabelForPush(off, vars) else None)
  }

  /** The label of the top slot after a step that leaves one: that of the last visible variable whose
      statement executes and whose name no slot below carries, otherwise the label the opcode moved there. */
  function TopAfter(s: Slots, op: byte, off: Option<I32>, vars: seq<VarDecl>): Option<string>
    requires MovedLabels(s, op, off, vars) != []
  {
    var moved := MovedLabels(s, op, off, vars);
    var top := |moved| - 1;
    var claimant := if off.Some? then LastClaimant(moved[..top], off.value, vars) else None;
    if claimant.Some? then claimant else moved[top]
  }

  /** When the stack before the opcode shows a name as the stack after it does, by opcode: a PUSH or a
      DUP must not leave the name on top; a SWAP must not carry its topmost slot across a different word;
      and an opcode that computes a word must not leave the name on it, unless the word that lay in its
      place is the same. */
  predicate ReadableBefore(
    s: Slots, op: byte, off: Option<I32>, vars: seq<VarDecl>, pre: seq<Word>, post: seq<Word>, name: string)
    requires Defined(op) && Removed(op) <= |pre| == |s| && |post| == |pre| - Removed(op) + Added(op)
  {
    var top, other := |pre| - 1, |pre| - Removed(op);
    if IsPush(op) || IsDup(op) then TopAfter(s, op, off, vars) != Some(name)
    else if IsSwap(op) then
      TopAfter(s, op, off, vars) == Some(name) || (s[top] == Some(name) && Some(name) !in s[other + 1..top])
      ==> pre[top] == pre[other]
    else if Added(op) == 1 then
      TopAfter(s, op, off, vars) == Some(name) ==> Removed(op) > 0 && pre[other] == post[other]
    else true
  }

  lemma MovedBelowTop(s: Slots, op: byte, tag: Option<string>)
    requires Defined(op) && Removed(op) <= |s|
    ensures var moved, other := Moved(s, op, tag), |s| - Removed(op);
            && |moved| == |s| - Removed(op) + Added(op)
            && forall k :: 0 <= k < |moved| - 1 ==> moved[k] == if IsSwap(op) && k == other then s[|s| - 1] else s[k]
  {
  }

  lemma LabelsThenTop(s: Slots, op: byte, off: Option<I32>, vars: seq<VarDecl>)
    ensures var moved := MovedLabels(s, op, off, vars);
            Processed(s, op, off, vars).slots
            == if moved == [] then [] else moved[..|moved| - 1] + [TopAfter(s, op, off, vars)]
  {
    var moved := MovedLabels(s, op, off, vars);
    if moved != [] {
      assert moved == moved[..|moved| - 1] + [moved[|moved| - 1]];
      if off.Some? {
        RecoveredTop(moved, off.value, vars);
      }
    }
  }

  /** The labels after a step, slot by slot. */
  lemma LabelsAfter(s: Slots, op: byte, off: Option<I32>, vars: seq<VarDecl>)
    requires Defined(op) && Removed(op) <= |s|
    ensures var r, other := Processed(s, op, off, vars).slots, |s| - Removed(op);
            && |r| == |s| - Removed(op) + Added(op) == |MovedLabels(s, op, off, vars)|
            && (r != [] ==> r[|r| - 1] == TopAfter(s, op, off, vars))
            && forall k :: 0 <= k < |r| - 1 ==> r[k] == if IsSwap(op) && k == other then s[|s| - 1] else s[k]
  {
    MovedBelowTop(s, op, if IsPush(op) then LabelForPush(off, vars) else None);
    LabelsThenTop(s, op, off, vars);
  }

  lemma SwapReadable(
    s: Slots, r: Slots, op: byte, off: Option<I32>, vars: seq<VarDecl>, pre: seq<Word>, name: string)
    requires IsSwap(op) && Removed(op) <= |s| == |r| == |pre|
    requires var other, top := |s| - Removed(op), |s| - 1;
             && r[top] == TopAfter(s, op, off, vars)
             && forall k :: 0 <= k < top ==> r[k] == if k == other then s[top] else s[k]
    ensures var post := Swapped(pre, |pre| - 1, |pre| - Removed(op));
            VariableValue(r, name, pre) == VariableValue(r, name, post)
            <==> ReadableBefore(s, op, off, vars, pre, post, name)
  {
    var other, top := |s| - Removed(op), |s| - 1;
    var post := Swapped(pre, top, other);
    SameAnswerIff(r, name, pre, post);
    var between := s[other + 1..top];
    assert forall k :: other < k < top ==> between[k - other - 1] == s[k] == r[k];
    var p := TopmostSlot(r, name);
    if r[top] != Some(name) && s[top] == Some(name) {
      assert r[other] == Some(name);
      if Some(name) in between {
        var j :| 0 <= j < |between| && between[j] == Some(name);
        assert r[other + 1 + j] == Some(name);
      }
      assert p.value == other <==> Some(name) !in between;
    }
  }

  lemma OtherReadable(
    s: Slots, r: Slots, op: byte, off: Option<I32>, vars: seq<VarDecl>, pre: seq<Word>, post: seq<Word>, name: string)
    requires Executes(op, pre, post) && !IsSwap(op) && |s| == |pre| && |r| == |post| == |MovedLabels(s, op, off, vars)|
    requires var top := |r| - 1;
             && (forall k :: 0 <= k < top ==> r[k] == s[k])
             && (r != [] ==> r[top] == TopAfter(s, op, off, vars))
    ensures VariableValue(r, name, pre) == VariableValue(r, name, post)
            <==> ReadableBefore(s, op, off, vars, pre, post, name)
  {
    SameAnswerIff(r, name, pre, post);
    var kept := |pre| - Removed(op);
    if !IsDup(op) {
      assert forall k :: 0 <= k < kept ==> post[k] == post[..kept][k] == pre[..kept][k] == pre[k];
    }
  }

  /** The multi-contract loop's lookup, for every step from a synchronised tracker and every name: it
      shows on the stack before the opcode what the opcode leaves exactly under the opcode's condition. */
  lemma LookupBeforeIff(
    s: Slots, op: byte, off: Option<I32>, vars: seq<VarDecl>, pre: seq<Word>, post: seq<Word>, name: string)
    requires Executes(op, pre, post) && |s| == |pre|
    ensures var r := Processed(s, op, off, vars).slots;
            && |r| == |post|
            && (VariableValue(r, name, pre) == VariableValue(r, name, post)
                <==> ReadableBefore(s, op, off, vars, pre, post, name))
  {
    var r := Processed(s, op, off, vars).slots;
    LabelsAfter(s, op, off, vars);
    if IsSwap(op) {
      SwapReadable(s, r, op, off, vars, pre, name);
    } else {
      OtherReadable(s, r, op, off, vars, pre, post, name);
    }
  }

  /** The opcode leaves at position `p` the word that lay there: nothing lay where a PUSH or DUP puts its
      word, a SWAP exchanges two positions, and other opcodes change only the result's. */
  predicate KeepsWordAt(op: byte, pre: seq<Word>, post: seq<Word>, p: nat)
    requires Defined(op) && Removed(op) <= |pre| && p < |post| == |pre| - Removed(op) + Added(op)
  {
    var top, other := |pre| - 1, |pre| - Removed(op);
    if IsPush(op) || IsDup(op) then p < |pre|
    else if IsSwap(op) then p == top || p == other ==> pre[top] == pre[other]
    else p == other ==> Removed(op) > 0 && pre[other] == post[other]
  }

  lemma WordKept(op: byte, pre: seq<Word>, post: seq<Word>, p: nat)
    requires Executes(op, pre, post) && p < |post|
    ensures KeepsWordAt(op, pre, post, p) <==> p < |pre| && pre[p] == post[p]
  {
    var kept := |pre| - Removed(op);
    if !IsDup(op) && !IsSwap(op) && p < kept {
      assert post[..kept][p] == pre[..kept][p];
    }
  }

  /** The same condition for a tracker that is behind the stack, as after a reset: only a SWAP can exchange
      the word at a labelled position, and an opcode that consumes the whole stack the one under its result. */
  predicate ReadableFromBehind(
    s: Slots, op: byte, off: Option<I32>, vars: seq<VarDecl>, pre: seq<Word>, post: seq<Word>, name: string)
    requires Defined(op) && Removed(op) <= |pre| && |s| < |pre| && |post| == |pre| - Removed(op) + Added(op)
  {
    var top, other := |pre| - 1, |pre| - Removed(op);
    if IsPush(op) || IsDup(op) then true
    else if IsSwap(op) then
      (|| (other + 1 == |s| && TopAfter(s, op, off, vars) == Some(name))
       || (&& other + 1 < |s| && TopAfter(s, op, off, vars) != Some(name)
           && s[other] == Some(name) && Some(name) !in s[other + 1..|s| - 1]))
      ==> pre[top] == pre[other]
    else if Added(op) == 1 && other == 0 then
      TopAfter(s, op, off, vars) == Some(name) ==> pre[0] == post[0]
    else true
  }

  /** The labels that a tracker behind the stack has after a SWAP, above where the exchanged word lies. */
  lemma SwapFromBehind(s: Slots, op: byte, off: Option<I32>, vars: seq<VarDecl>, depth: nat)
    requires IsSwap(op) && Removed(op) <= depth && |s| < depth
    ensures var r, other := Processed(s, op, off, vars).slots, depth - Removed(op);
            && |r| == |s| && (r != [] ==> r[|r| - 1] == TopAfter(s, op, off, vars))
            && forall k :: other <= k < |r| - 1 ==> r[k] == s[k]
  {
    LabelsThenTop(s, op, off, vars);
  }

  lemma {:induction false} SwapReadableFromBehind(
    s: Slots, r: Slots, op: byte, off: Option<I32>, vars: seq<VarDecl>, pre: seq<Word>, post: seq<Word>, name: string)
    requires Executes(op, pre, post) && IsSwap(op) && |r| == |s| < |pre|
    requires r != [] ==> r[|r| - 1] == TopAfter(s, op, off, vars)
    requires forall k :: |pre| - Removed(op) <= k < |r| - 1 ==> r[k] == s[k]
    ensures (HasLabel(r, name) ==> KeepsWordAt(op, pre, post, TopmostSlot(r, name).value))
            <==> ReadableFromBehind(s, op, off, vars, pre, post, name)
  {
    var other := |pre| - Removed(op);
    var p := TopmostSlot(r, name);
    if other + 1 < |s| {
      var above := s[other + 1..|s| - 1];
      assert forall k :: other < k < |s| - 1 ==> above[k - other - 1] == s[k] == r[k];
      assert p == Some(other) <==> r[|r| - 1] != Some(name) && r[other] == Some(name) && Some(name) !in above by {
        if r[|r| - 1] != Some(name) && r[other] == Some(name) {
          if Some(name) in above {
            var j :| 0 <= j < |above| && above[j] == Some(name);
            assert r[other + 1 + j] == Some(name);
          }
        }
      }
    }
  }

  lemma {:induction false} OtherReadableFromBehind(
    s: Slots, r: Slots, op: byte, off: Option<I32>, vars: seq<VarDecl>, pre: seq<Word>, post: seq<Word>, name: string)
    requires Executes(op, pre, post) && !IsSwap(op) && |s| < |pre| && |r| <= |post|
    requires r == Processed(s, op, off, vars).slots
    ensures (HasLabel(r, name) ==> KeepsWordAt(op, pre, post, TopmostSlot(r, name).value))
            <==> ReadableFromBehind(s, op, off, vars, pre, post, name)
  {
    LabelsThenTop(s, op, off, vars);
    var other := |pre| - Removed(op);
    if IsPush(op) || IsDup(op) {
      assert |r| <= |pre|;
    } else if other > 0 || Added(op) == 0 {
      assert |r| <= other;
    } else {
      assert |r| == 1;
    }
  }

  /** The condition for every tracker that is not ahead. */
  predicate Readable(
    s: Slots, op: byte, off: Option<I32>, vars: seq<VarDecl>, pre: seq<Word>, post: seq<Word>, name: string)
    requires Defined(op) && Removed(op) <= |pre| && |s| <= |pre| && |post| == |pre| - Removed(op) + Added(op)
  {
    if |s| == |pre| then ReadableBefore(s, op, off, vars, pre, post, name)
    else ReadableFromBehind(s, op, off, vars, pre, post, name)
  }

  /** From any tracker that is not ahead, one behind after a reset included: the two lookups agree exactly
      under the condition on the opcode, the labels before it and the two stacks. */
  lemma LookupBeforeAtSlot(
    s: Slots, op: byte, off: Option<I32>, vars: seq<VarDecl>, pre: seq<Word>, post: seq<Word>, name: string)
    requires Executes(op, pre, post) && |s| <= |pre|
    ensures var r := Processed(s, op, off, vars).slots;
            && |r| <= |post|
            && (VariableValue(r, name, pre) == VariableValue(r, name, post)
                <==> Readable(s, op, off, vars, pre, post, name))
  {
    var r := Processed(s, op, off, vars).slots;
    StepKeepsDrift(s, op, off, vars, pre, post);
    if |s| == |pre| {
      LookupBeforeIff(s, op, off, vars, pre, post, name);
    } else {
      SameAnswerIff(r, name, pre, post);
      if HasLabel(r, name) {
        WordKept(op, pre, post, TopmostSlot(r, name).value);
      }
      if IsSwap(op) {
        SwapFromBehind(s, op, off, vars, |pre|);
        SwapReadableFromBehind(s, r, op, off, vars, pre, post, name);
      } else {
        OtherReadableFromBehind(s, r, op, off, vars, pre, post, name);
      }
    }
  }

  /** A PUSH that leaves the name on top is never shown. */
  lemma AssignedPushIsMissed(
    s: Slots, op: byte, off: Option<I32>, vars: seq<VarDecl>, pre: seq<Word>, post: seq<Word>, name: string)
    requires Executes(op, pre, post) && |s| == |pre| && IsPush(op) && TopAfter(s, op, off, vars) == Some(name)
    ensures var r := Processed(s, op, off, vars).slots;
            VariableValue(r, name, pre) == None && VariableValue(r, name, post) == Some(post[|pre|])
  {
    LabelsAfter(s, op, off, vars);
    assert TopmostSlot(Processed(s, op, off, vars).slots, name) == Some(|pre|);
  }

  /** A result that recovery names is shown as the operand that lay in its place. */
  lemma AssignedResultReadsOperand(
    s: Slots, op: byte, off: Option<I32>, vars: seq<VarDecl>, pre: seq<Word>, post: seq<Word>, name: string)
    requires Executes(op, pre, post) && |s| == |pre|
    requires !IsPush(op) && !IsDup(op) && !IsSwap(op) && Added(op) == 1 && Removed(op) > 0
    requires TopAfter(s, op, off, vars) == Some(name)
    ensures var r, other := Processed(s, op, off, vars).slots, |pre| - Removed(op);
            VariableValue(r, name, pre) == Some(pre[other]) && VariableValue(r, name, post) == Some(post[other])
  {
    LabelsAfter(s, op, off, vars);
    assert TopmostSlot(Processed(s, op, off, vars).slots, name) == Some(|pre| - Removed(op));
  }

  /** Inputs on which the lookup before the opcode goes wrong. `uint x = 10` is missed at its PUSH1. */
  lemma PushFails(v: VarDecl)
    requires v.declarationOffset == 5
    ensures var r := Processed([], 0x60, Some(5), [v]).slots;
            Executes(0x60, [], [10]) && VariableValue(r, v.name, []) == None
              && VariableValue(r, v.name, [10]) == Some(10)
  {
    assert LabelForPush(Some(5), [v]) == Some(v.name);
    assert MovedLabels([], 0x60, Some(5), [v]) == [Some(v.name)];
    assert TopAfter([], 0x60, Some(5), [v]) == Some(v.name);
    AssignedPushIsMissed([], 0x60, Some(5), [v], [], [10], v.name);
  }

  /** A local is missed at its DUP1, and reads its neighbour at a SWAP1. */
  lemma DupAndSwapFail(name: string)
    ensures var dup := Processed([Some(name)], 0x80, None, []).slots;
            && Executes(0x80, [10], [10, 10])
            && VariableValue(dup, name, [10]) == None && VariableValue(dup, name, [10, 10]) == Some(10)
    ensures var swap := Processed([None, Some(name)], 0x90, None, []).slots;
            && Executes(0x90, [3, 10], [10, 3])
            && VariableValue(swap, name, [3, 10]) == Some(3) && VariableValue(swap, name, [10, 3]) == Some(10)
  {
    assert Moved([Some(name)], 0x80, None) == [Some(name), Some(name)];
    assert Moved([None, Some(name)], 0x90, None) == [Some(name), None];
    assert Swapped([3, 10], 1, 0) == [10, 3];
    assert TopmostSlot([Some(name), Some(name)], name) == Some(1);
    assert TopmostSlot([Some(name), None], name) == Some(0);
  }

  /** `uint sum = a + b` is shown as a. */
  lemma ResultFails(v: VarDecl)
    requires v.InStatement(7)
    ensures var r := Processed([None, None], 0x01, Some(7), [v]).slots;
            && Executes(0x01, [4, 3], [7])
            && VariableValue(r, v.name, [4, 3]) == Some(4) && VariableValue(r, v.name, [7]) == Some(7)
  {
    var s: Slots := [None, None];
    assert MovedLabels(s, 0x01, Some(7), [v]) == [None];
    assert LastClaimant([], 7, [v]) == Some(v.name) by {
      assert [v][0] == v && Claims([], 7, v);
    }
    assert TopAfter(s, 0x01, Some(7), [v]) == Some(v.name) by {
      assert MovedLabels(s, 0x01, Some(7), [v])[..0] == [];
    }
    AssignedResultReadsOperand([None, None], 0x01, Some(7), [v], [4, 3], [7], v.name);
  }

  // ---- the stack of the next log ----------------------------------------------------------------------

  /** The stack the next log shows, for an EVM trace: the one the opcode left when the same frame goes
      on, an empty one when a frame is entered, some outer frame's when the frame has ended. */
  ghost predicate Follows(log: Log, next: Log, post: seq<Word>) {
    && next.stack.Some?
    && (next.depth == log.depth ==> next.stack.value == post)
    && (next.depth > log.depth ==> next.stack.value == [])
  }

  /** The single-contract loop's lookup, for every tracker that is not ahead: it shows what the opcode left
      exactly when the next log is in the same frame, or the name has no slot, or the outer frame
      happens to hold the same word at the slot's position. */
  lemma {:induction false} LookupAfterIff(r: Slots, log: Log, next: Log, post: seq<Word>, name: string)
    requires |r| <= |post| && Follows(log, next, post)
    ensures VariableValue(r, name, next.stack.value) == VariableValue(r, name, post)
            <==> (|| next.depth == log.depth
                  || !HasLabel(r, name)
                  || (&& next.depth < log.depth
                      && var p := TopmostSlot(r, name).value;
                         p < |next.stack.value| && next.stack.value[p] == post[p]))
  {
    SameAnswerIff(r, name, next.stack.value, post);
  }

  /** At a CALL every local disappears for one step; at a RETURN a local reads the caller's stack. */
  lemma LookupAfterFails(log: Log, name: string)
    requires log.depth == 2
    ensures var inner, outer := log.(depth := 3, stack := Some([])), log.(depth := 1, stack := Some([8, 9]));
            && Follows(log, inner, [5]) && VariableValue([Some(name)], name, inner.stack.value) == None
            && Follows(log, outer, [5]) && VariableValue([Some(name)], name, outer.stack.value) == Some(8)
            && VariableValue([Some(name)], name, [5]) == Some(5)
  {
    assert TopmostSlot([Some(name)], name) == Some(0);
  }
}
