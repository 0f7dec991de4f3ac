/** The symbolic stack simulates the EVM's: theorems about a tracker and the concrete
    stack driven by the same run of opcodes. */
module StackSimulation {
  import opened Basics
  import opened SolidityAst
  import opened EvmStack
  import opened StackTracker

  /** What the recorder does to the tracker once a step has been processed: nothing,
      `reset`, or `seed_top_labels` at one item below the stack seen before the opcode. */
  datatype After = Keep | Reset | Seed(labels: seq<string>)

  datatype Step = Step(op: byte, off: Option<I32>, vars: seq<VarDecl>, after: After)

  /** The step reports no assignment to `name`. */
  predicate Leaves(s: Slots, step: Step, name: string) {
    forall a :: a in Processed(s, step.op, step.off, step.vars).assignments ==> a.name != name
  }

  function Next(s: Slots, step: Step, preDepth: nat): Slots {
    match step.after
    case Keep => Processed(s, step.op, step.off, step.vars).slots
    case Reset => []
    case Seed(labels) => Seeded(Max(0, preDepth - 1), labels)
  }

  ghost predicate Execution(steps: seq<Step>, stacks: seq<seq<Word>>) {
    |stacks| == |steps| + 1 && forall i :: 0 <= i < |steps| ==> StepExecutes(steps, stacks, i)
  }

  ghost predicate StepExecutes(steps: seq<Step>, stacks: seq<seq<Word>>, i: nat)
    requires i < |steps| && |stacks| == |steps| + 1
  {
    Executes(steps[i].op, stacks[i], stacks[i + 1])
  }

  /** The labels after the first `i` steps. */
  ghost function LabelsAt(s: Slots, steps: seq<Step>, stacks: seq<seq<Word>>, i: nat): Slots
    requires Execution(steps, stacks) && i <= |steps|
  {
    if i == 0 then s else Next(LabelsAt(s, steps, stacks, i - 1), steps[i - 1], |stacks[i - 1]|)
  }

  // ---- depth --------------------------------------------------------------------------------

  /** How far the tracker is ahead of the concrete stack (negative: behind). */
  ghost function Drift(s: Slots, steps: seq<Step>, stacks: seq<seq<Word>>, i: nat): int
    requires Execution(steps, stacks) && i <= |steps|
  {
    |LabelsAt(s, steps, stacks, i)| - |stacks[i]|
  }

  /** One opcode, from any drift: a tracker that is not behind keeps its drift exactly, and one
      that is behind can only catch up, never overtake. */
  lemma StepKeepsDrift(s: Slots, op: byte, off: Option<I32>, vars: seq<VarDecl>, pre: seq<Word>, post: seq<Word>)
    requires Executes(op, pre, post)
    ensures var d' := |Processed(s, op, off, vars).slots| - |post|;
            if |s| >= |pre| then d' == |s| - |pre| else |s| - |pre| <= d' <= 0
  {
    assert |Moved(s, op, if IsPush(op) then LabelForPush(off, vars) else None)| == |Processed(s, op, off, vars).slots|;
  }

  /** The step does not reset the tracker, and seeds it only at a JUMP. */
  predicate KeepsSync(step: Step) {
    !step.after.Reset? && (step.after.Seed? ==> step.op == 0x56)
  }

  lemma SyncedStep(labels: Slots, steps: seq<Step>, stacks: seq<seq<Word>>, i: nat)
    requires Execution(steps, stacks) && i < |steps| && KeepsSync(steps[i])
    requires steps[i].after.Seed? || |labels| == |stacks[i]|
    ensures |Next(labels, steps[i], |stacks[i]|)| == |stacks[i + 1]|
  {
    var step := steps[i];
    assert StepExecutes(steps, stacks, i);
    if step.after.Keep? {
      StepKeepsDrift(labels, step.op, step.off, step.vars, stacks[i], stacks[i + 1]);
    }
  }

  /** From a synchronised point the tracker's depth equals the EVM stack length until the next
      reset, and seeding at an internal JUMP synchronises it whatever its drift was. */
  lemma {:induction false} SyncUntilReset(s: Slots, steps: seq<Step>, stacks: seq<seq<Word>>, lo: nat, hi: nat)
    requires Execution(steps, stacks) && lo <= hi <= |steps|
    requires Drift(s, steps, stacks, lo) == 0 || (lo < hi && steps[lo].after.Seed?)
    requires forall i :: lo <= i < hi ==> KeepsSync(steps[i])
    ensures Drift(s, steps, stacks, hi) == 0
    decreases hi
  {
    if lo == hi {
    } else {
      if !steps[hi - 1].after.Seed? {
        SyncUntilReset(s, steps, stacks, lo, hi - 1);
      }
      SyncedStep(LabelsAt(s, steps, stacks, hi - 1), steps, stacks, hi - 1);
    }
  }

  /** Across resets as well, the tracker never claims more items than the EVM stack has, so
      every labelled slot addresses an existing word. */
  lemma {:induction false} NeverAhead(s: Slots, steps: seq<Step>, stacks: seq<seq<Word>>, i: nat)
    requires Execution(steps, stacks) && i <= |steps|
    requires |s| <= |stacks[0]|
    requires forall j :: 0 <= j < i && steps[j].after.Seed? ==> steps[j].op == 0x56
    ensures Drift(s, steps, stacks, i) <= 0
    ensures forall name :: HasLabel(LabelsAt(s, steps, stacks, i), name)
                           ==> VariableValue(LabelsAt(s, steps, stacks, i), name, stacks[i]).Some?
  {
    if i == 0 {
    } else {
      NeverAhead(s, steps, stacks, i - 1);
      assert StepExecutes(steps, stacks, i - 1);
      if steps[i - 1].after.Keep? {
        StepKeepsDrift(LabelsAt(s, steps, stacks, i - 1), steps[i - 1].op, steps[i - 1].off,
          steps[i - 1].vars, stacks[i - 1], stacks[i]);
      }
    }
  }

  /** A seeding step synchronises the tracker exactly when its opcode removes one item net. */
  lemma SeedSynchronisesIff(step: Step, pre: seq<Word>, post: seq<Word>, s: Slots)
    requires Executes(step.op, pre, post) && step.after.Seed? && pre != []
    ensures |Next(s, step, |pre|)| == |post| <==> Removed(step.op) == Added(step.op) + 1
  {
    if IsDup(step.op) {
      assert |post| == |pre| + 1;
    }
  }

  // ---- values -------------------------------------------------------------------------------

  /** Every slot labelled `name` holds `w` on the concrete stack. */
  ghost predicate Coherent(s: Slots, stack: seq<Word>, name: string, w: Word) {
    && |s| == |stack|
    && forall i :: 0 <= i < |s| && s[i] == Some(name) ==> stack[i] == w
  }

  /** What a lookup answers in a coherent state. */
  lemma CoherentLookup(s: Slots, stack: seq<Word>, name: string, w: Word)
    requires Coherent(s, stack, name, w)
    ensures VariableValue(s, name, stack) == if HasLabel(s, name) then Some(w) else None
  {
  }

  lemma {:induction false} RecoveredLeaves(s: Slots, o: I32, vars: seq<VarDecl>, name: string)
    requires forall a :: a in Recovered(s, o, vars).assignments ==> a.name != name
    ensures forall i :: 0 <= i < |s| && Recovered(s, o, vars).slots[i] == Some(name) ==> s[i] == Some(name)
    decreases |vars|
  {
    if vars == [] {
    } else {
      if vars[0].InStatement(o) && !HasLabel(s, vars[0].name) && s != [] {
        var s' := s[|s| - 1 := Some(vars[0].name)];
        var rest := Recovered(s', o, vars[1..]);
        assert VarAssignment(vars[0].name, |s| - 1) in Recovered(s, o, vars).assignments;
        assert forall a :: a in rest.assignments ==> a in Recovered(s, o, vars).assignments;
        RecoveredLeaves(s', o, vars[1..], name);
      } else {
        RecoveredLeaves(s, o, vars[1..], name);
      }
    }
  }

  /** The labels move exactly as the words do: when all words of the stack differ, the label of every item that
      the opcode kept, copied or exchanged is the one that its word had before, and a new item has the label of
      its PUSH or none. */
  lemma LabelsFollowWords(s: Slots, op: byte, tag: Option<string>, pre: seq<Word>, post: seq<Word>, i: nat, j: nat)
    requires Executes(op, pre, post) && |s| == |pre| && i < |pre| && j < |post|
    requires forall a, b :: 0 <= a < b < |pre| ==> pre[a] != pre[b]
    ensures |Moved(s, op, tag)| == |post|
    ensures var carried := IsDup(op) || IsSwap(op) || j < |pre| - Removed(op);
            && (carried && post[j] == pre[i] ==> Moved(s, op, tag)[j] == s[i])
            && (!carried ==> Moved(s, op, tag)[j] == if IsPush(op) then tag else None)
  {
    var kept := |pre| - Removed(op);
    if !IsDup(op) && !IsSwap(op) && j < kept {
      assert post[j] == post[..kept][j] == pre[..kept][j] == pre[j];
    }
  }

  /** A tracker that is behind copies no label from beyond its bottom and leaves a SWAP that reaches there alone. */
  lemma ShortTracker(s: Slots, n: nat, tag: Option<string>)
    requires 1 <= n <= 16
    ensures |s| < n ==> Moved(s, 0x7f + n, tag) == s + [None]
    ensures |s| <= n ==> Moved(s, 0x8f + n, tag) == s
  {
  }

  /** Labels travel with their words: no opcode can detach a name from its value. */
  lemma MoveKeepsValues(s: Slots, op: byte, tag: Option<string>, pre: seq<Word>, post: seq<Word>, name: string, w: Word)
    requires Executes(op, pre, post) && Coherent(s, pre, name, w) && tag != Some(name)
    ensures Coherent(Moved(s, op, tag), post, name, w)
  {
    var r := Moved(s, op, tag);
    if IsDup(op) || IsSwap(op) || IsPush(op) {
    } else {
      var kept := |pre| - Removed(op);
      forall i | 0 <= i < |r| && r[i] == Some(name) ensures post[i] == w {
        assert i < kept;
        assert post[..kept][i] == pre[..kept][i];
      }
    }
  }

  lemma StepKeepsValue(s: Slots, step: Step, pre: seq<Word>, post: seq<Word>, name: string, w: Word)
    requires Executes(step.op, pre, post) && step.after.Keep?
    requires Coherent(s, pre, name, w) && Leaves(s, step, name)
    ensures Coherent(Next(s, step, |pre|), post, name, w)
  {
    var tag := if IsPush(step.op) then LabelForPush(step.off, step.vars) else None;
    var pushed := if tag.Some? then [VarAssignment(tag.value, |s|)] else [];
    var moved := Moved(s, step.op, tag);
    var all := Processed(s, step.op, step.off, step.vars).assignments;
    if tag.Some? {
      assert all[0] == VarAssignment(tag.value, |s|);
    }
    MoveKeepsValues(s, step.op, tag, pre, post, name, w);
    if step.off.Some? {
      var recovered := Recovered(moved, step.off.value, step.vars);
      assert forall a :: a in recovered.assignments ==> a in pushed + recovered.assignments;
      RecoveredLeaves(moved, step.off.value, step.vars, name);
    }
  }

  lemma ValueSurvivesStep(labels: Slots, steps: seq<Step>, stacks: seq<seq<Word>>, i: nat, name: string, w: Word)
    requires Execution(steps, stacks) && i < |steps| && Coherent(labels, stacks[i], name, w)
    requires steps[i].after.Keep? && Leaves(labels, steps[i], name)
    ensures Coherent(Next(labels, steps[i], |stacks[i]|), stacks[i + 1], name, w)
  {
    assert StepExecutes(steps, stacks, i);
    StepKeepsValue(labels, steps[i], stacks[i], stacks[i + 1], name, w);
  }

  /** Step `j` of the run is not followed by a reset or seeding and reports no assignment to `name`. */
  ghost predicate Undisturbed(s: Slots, steps: seq<Step>, stacks: seq<seq<Word>>, j: nat, name: string)
    requires Execution(steps, stacks) && j < |steps|
  {
    steps[j].after.Keep? && Leaves(LabelsAt(s, steps, stacks, j), steps[j], name)
  }

  lemma {:induction false} CoherentNext(
    s: Slots, steps: seq<Step>, stacks: seq<seq<Word>>, j: nat, i: nat, name: string, w: Word)
    requires Execution(steps, stacks) && j + 1 == i <= |steps| && Undisturbed(s, steps, stacks, j, name)
    requires Coherent(LabelsAt(s, steps, stacks, j), stacks[j], name, w)
    ensures Coherent(LabelsAt(s, steps, stacks, i), stacks[i], name, w)
  {
    ValueSurvivesStep(LabelsAt(s, steps, stacks, j), steps, stacks, j, name, w);
    assert LabelsAt(s, steps, stacks, j + 1) == Next(LabelsAt(s, steps, stacks, j), steps[j], |stacks[j]|);
  }

  lemma {:induction false} CoherentAlongRun(
    s: Slots, steps: seq<Step>, stacks: seq<seq<Word>>, lo: nat, hi: nat, name: string, w: Word)
    requires Execution(steps, stacks) && lo <= hi <= |steps|
    requires Coherent(LabelsAt(s, steps, stacks, lo), stacks[lo], name, w)
    requires forall j :: lo <= j < hi ==> Undisturbed(s, steps, stacks, j, name)
    ensures Coherent(LabelsAt(s, steps, stacks, hi), stacks[hi], name, w)
    decreases hi
  {
    if hi == lo {
    } else {
      var j := hi - 1;
      CoherentAlongRun(s, steps, stacks, lo, j, name, w);
      CoherentNext(s, steps, stacks, j, hi, name, w);
    }
  }

  /** Value coherence over whole runs: from any step at which every slot of a name holds the same word, and
      as long as no step reports an assignment to the name, every surviving slot keeps that word, and a
      lookup answers it until the last copy is gone and nothing afterwards. */
  lemma {:induction false} ValueSurvivesRun(
    s: Slots, steps: seq<Step>, stacks: seq<seq<Word>>, lo: nat, hi: nat, name: string, w: Word)
    requires Execution(steps, stacks) && lo <= hi <= |steps|
    requires Coherent(LabelsAt(s, steps, stacks, lo), stacks[lo], name, w)
    requires forall j :: lo <= j < hi ==> Undisturbed(s, steps, stacks, j, name)
    ensures Coherent(LabelsAt(s, steps, stacks, hi), stacks[hi], name, w)
    ensures VariableValue(LabelsAt(s, steps, stacks, hi), name, stacks[hi])
            == if HasLabel(LabelsAt(s, steps, stacks, hi), name) then Some(w) else None
  {
    CoherentAlongRun(s, steps, stacks, lo, hi, name, w);
    CoherentLookup(LabelsAt(s, steps, stacks, hi), stacks[hi], name, w);
  }

  /** A step whose source offset lies in no visible declaration or statement assigns nothing. */
  lemma {:induction false} UncoveredRecovers(s: Slots, o: I32, vars: seq<VarDecl>)
    requires forall v :: v in vars ==> !v.InStatement(o)
    ensures Recovered(s, o, vars) == Tracked(s, [])
    decreases |vars|
  {
    if vars == [] {
    } else {
      assert vars[0] in vars;
      UncoveredRecovers(s, o, vars[1..]);
    }
  }

  predicate Uncovered(step: Step) {
    step.off.None? || forall v :: v in step.vars ==> !v.Covers(step.off.value)
  }

  lemma UncoveredStepAssignsNothing(s: Slots, step: Step)
    requires Uncovered(step)
    ensures Processed(s, step.op, step.off, step.vars).assignments == []
  {
    if step.off.Some? {
      UncoveredRecovers(Moved(s, step.op, None), step.off.value, step.vars);
    }
  }

  /** The run form: outside every declaration and statement all names keep their values. */
  lemma {:induction false} ValuesSurviveUncoveredRun(
    s: Slots, steps: seq<Step>, stacks: seq<seq<Word>>, i: nat, name: string, w: Word)
    requires Execution(steps, stacks) && i <= |steps|
    requires Coherent(s, stacks[0], name, w)
    requires forall j :: 0 <= j < i ==> steps[j].after.Keep? && Uncovered(steps[j])
    ensures VariableValue(LabelsAt(s, steps, stacks, i), name, stacks[i])
            == if HasLabel(LabelsAt(s, steps, stacks, i), name) then Some(w) else None
  {
    forall j | 0 <= j < i ensures Undisturbed(s, steps, stacks, j, name) {
      UncoveredStepAssignsNothing(LabelsAt(s, steps, stacks, j), steps[j]);
    }
    ValueSurvivesRun(s, steps, stacks, 0, i, name, w);
  }

  /** Every assignment a step reports is about the top slot, and the last one names it. */
  lemma {:induction false} RecoveredNamesTop(s: Slots, o: I32, vars: seq<VarDecl>)
    ensures var r := Recovered(s, o, vars);
            && (forall a :: a in r.assignments ==> a.stackPosition == |s| - 1)
            && (r.assignments != [] ==> s != [] && r.slots[|s| - 1] == Some(r.assignments[|r.assignments| - 1].name))
            && (r.assignments == [] ==> r.slots == s)
            && (s != [] ==> r.slots[..|s| - 1] == s[..|s| - 1])
    decreases |vars|
  {
    if vars == [] {
    } else {
      if vars[0].InStatement(o) && !HasLabel(s, vars[0].name) && s != [] {
        RecoveredNamesTop(s[|s| - 1 := Some(vars[0].name)], o, vars[1..]);
      } else {
        RecoveredNamesTop(s, o, vars[1..]);
      }
    }
  }

  lemma JointlyNameTop(moved: Slots, pushed: seq<VarAssignment>, recovered: Tracked)
    requires |recovered.slots| == |moved|
    requires pushed != [] ==>
             moved != [] && pushed == [VarAssignment(pushed[0].name, |moved| - 1)]
             && moved[|moved| - 1] == Some(pushed[0].name)
    requires forall a :: a in recovered.assignments ==> a.stackPosition == |moved| - 1
    requires var rs := recovered.assignments;
             if rs == [] then recovered.slots == moved
             else moved != [] && recovered.slots[|moved| - 1] == Some(rs[|rs| - 1].name)
    ensures var r, all := recovered.slots, pushed + recovered.assignments;
            && (forall a :: a in all ==> a.stackPosition == |r| - 1)
            && (all != [] ==> r != [] && r[|r| - 1] == Some(all[|all| - 1].name))
  {
  }

  lemma AssignmentsNameTop(s: Slots, op: byte, off: Option<I32>, vars: seq<VarDecl>)
    ensures var r := Processed(s, op, off, vars);
            && (forall a :: a in r.assignments ==> a.stackPosition == |r.slots| - 1)
            && (r.assignments != []
               ==> r.slots != [] && r.slots[|r.slots| - 1] == Some(r.assignments[|r.assignments| - 1].name))
  {
    var tag := if IsPush(op) then LabelForPush(off, vars) else None;
    var moved, pushed := Moved(s, op, tag), if tag.Some? then [VarAssignment(tag.value, |s|)] else [];
    if off.Some? {
      RecoveredNamesTop(moved, off.value, vars);
    }
    if tag.Some? {
      assert moved == s + [tag];
    }
    JointlyNameTop(moved, pushed, if off.Some? then Recovered(moved, off.value, vars) else Tracked(moved, []));
  }
}
