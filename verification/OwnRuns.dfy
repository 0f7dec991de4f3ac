/** One frame's own steps as a run of its own: the operand stacks it sees, and the abstract steps its
    tracker makes. */
module OwnRuns {
  import opened Basics
  import opened EvmStack
  import opened StructLog
  import opened StackTracker
  import opened StackSimulation
  import opened TraceStacks

  // ---- the operand stack of one frame ---------------------------------------------------------------------

  /** These steps see one operand stack: it starts empty, and each step sees what the one before left. */
  ghost predicate OneStack(logs: seq<Log>, steps: seq<nat>)
    requires Within(steps, |logs|)
  {
    && (forall n :: 0 <= n < |steps| ==> IsStep(logs, steps, n))
    && (forall n :: 0 < n < |steps| ==> StepContinues(logs, steps, n))
  }

  ghost predicate IsStep(logs: seq<Log>, steps: seq<nat>, n: nat)
    requires Within(steps, |logs|) && n < |steps|
  {
    assert steps[n] in steps;
    logs[steps[n]].stack.Some?
  }

  ghost predicate StepContinues(logs: seq<Log>, steps: seq<nat>, n: nat)
    requires Within(steps, |logs|) && 0 < n < |steps|
  {
    assert steps[n] in steps && steps[n - 1] in steps;
    Continues(logs[steps[n - 1]], logs[steps[n]])
  }

  lemma OneStackSnoc(logs: seq<Log>, steps: seq<nat>, k: nat)
    requires Within(steps, |logs|) && OneStack(logs, steps) && EvmTrace(logs) && k < |logs|
    requires steps != [] ==> steps[|steps| - 1] < |logs| && Continues(logs[steps[|steps| - 1]], logs[k])
    ensures Within(steps + [k], |logs|) && OneStack(logs, steps + [k])
  {
    var more := steps + [k];
    assert EvmStep(logs, k);
    forall n | 0 <= n < |more| ensures IsStep(logs, more, n) {
      if n < |steps| {
        assert IsStep(logs, steps, n);
      }
    }
    forall n | 0 < n < |more| ensures StepContinues(logs, more, n) {
      if n < |steps| {
        assert StepContinues(logs, steps, n);
      }
    }
  }

  /** An open frame's own steps end with its latest one and see one operand stack. */
  ghost predicate OwnStack(logs: seq<Log>, i: nat, e: nat)
    requires DepthTrace(logs) && i <= |logs| && e < PreviousDepth(logs, i)
  {
    var steps := OwnSteps(logs, i)[e];
    assert Within(steps, i);
    && OneStack(logs, steps)
    && (i == 0 ==> steps == [])
    && (i > 0 ==> steps != [] && steps[|steps| - 1] == Latest(logs, i)[e])
  }

  lemma OwnStackStep(logs: seq<Log>, k: nat)
    requires EvmTrace(logs) && k < |logs|
    requires var e := logs[k].depth - 1; e < PreviousDepth(logs, k) ==> OwnStack(logs, k, e)
    ensures OwnStack(logs, k + 1, logs[k].depth - 1)
  {
    var e := logs[k].depth - 1;
    var before := if e < PreviousDepth(logs, k) then OwnSteps(logs, k)[e] else [];
    assert Within(before, k);
    assert EvmStep(logs, k);
    OneStackSnoc(logs, before, k);
    assert OwnSteps(logs, k + 1)[e] == before + [k];
    assert Latest(logs, k + 1)[e] == k;
  }

  lemma {:induction false} OwnStacks(logs: seq<Log>, i: nat, e: nat)
    requires EvmTrace(logs) && i <= |logs| && e < PreviousDepth(logs, i)
    ensures OwnStack(logs, i, e)
    decreases i
  {
    if i == 0 {
    } else {
      var k := i - 1;
      if e < PreviousDepth(logs, k) {
        OwnStacks(logs, k, e);
      }
      if e == logs[k].depth - 1 {
        OwnStackStep(logs, k);
      } else {
        assert OwnSteps(logs, i)[e] == OwnSteps(logs, k)[e];
        assert k > 0 && Latest(logs, i)[e] == Latest(logs, k)[e];
      }
    }
  }

  /** The steps of an open frame. */
  ghost function StepsOf(logs: seq<Log>, i: nat, e: nat): (r: seq<nat>)
    requires EvmTrace(logs) && i <= |logs| && e < PreviousDepth(logs, i)
    ensures r == OwnSteps(logs, i)[e] && Within(r, |logs|) && OneStack(logs, r)
  {
    OwnStacks(logs, i, e);
    OwnSteps(logs, i)[e]
  }

  // ---- the frame's run ------------------------------------------------------------------------------------

  /** The stack that own step `n` of a frame sees; after the last one, what its opcode left. */
  ghost function StackAt(logs: seq<Log>, steps: seq<nat>, n: nat, post: seq<Word>): seq<Word>
    requires Within(steps, |logs|) && OneStack(logs, steps) && n <= |steps|
  {
    if n < |steps| then
      assert steps[n] in steps && IsStep(logs, steps, n);
      logs[steps[n]].stack.value
    else post
  }

  /** The last own step executes, and leaves `post`. */
  ghost predicate Leads(logs: seq<Log>, steps: seq<nat>, post: seq<Word>)
    requires Within(steps, |logs|) && OneStack(logs, steps)
  {
    steps != [] ==>
      var n := |steps| - 1;
      assert steps[n] in steps && IsStep(logs, steps, n);
      logs[steps[n]].op.Some? && Executes(logs[steps[n]].op.value, logs[steps[n]].stack.value, post)
  }

  lemma StackStep(logs: seq<Log>, steps: seq<nat>, n: nat, post: seq<Word>)
    requires Within(steps, |logs|) && OneStack(logs, steps) && Leads(logs, steps, post) && n < |steps|
    ensures steps[n] < |logs| && IsStep(logs, steps, n) && logs[steps[n]].op.Some?
    ensures Executes(logs[steps[n]].op.value, StackAt(logs, steps, n, post), StackAt(logs, steps, n + 1, post))
  {
    assert steps[n] in steps && IsStep(logs, steps, n);
    if n + 1 < |steps| {
      assert StepContinues(logs, steps, n + 1);
    }
  }

  lemma WithinPrefix(steps: seq<nat>, n: nat, bound: nat)
    requires Within(steps, bound) && n <= |steps|
    ensures Within(steps[..n], bound)
  {
    forall k | k in steps[..n] ensures k < bound {
      var j :| 0 <= j < n && steps[..n][j] == k;
      assert steps[j] in steps;
    }
  }

  /** What a recording loop knows of a step: its source facts, and whether it stages an internal call. */
  datatype Fact = Fact(site: Site, staged: bool)

  datatype Run = Run(steps: seq<Step>, stacks: seq<seq<Word>>) {
    ghost predicate Valid() {
      Execution(steps, stacks)
    }

    /** The labels after `n` steps from an empty tracker. */
    ghost function Labels(n: nat): Slots
      requires Valid() && n <= |steps|
    {
      LabelsAt([], steps, stacks, n)
    }

    /** From step `lo` on, where every slot of `name` holds `w`, no step resets or seeds the tracker or
        reports an assignment to `name`. */
    ghost predicate Settled(lo: nat, name: string, w: Word)
      requires Valid()
    {
      && lo <= |steps|
      && Coherent(Labels(lo), stacks[lo], name, w)
      && forall j :: lo <= j < |steps| ==> Undisturbed([], steps, stacks, j, name)
    }

    /** The run ends with this step of a trace, which leaves `post`. */
    ghost predicate EndsWith(log: Log, fact: Fact, post: seq<Word>)
      requires Valid()
    {
      steps != [] &&
      var n := |steps| - 1;
      && log.op.Some? && log.stack == Some(stacks[n]) && stacks[n + 1] == post
      && steps[n] == TraceStep(log, fact.site, fact.staged)
    }

    lemma SettledLast(log: Log, fact: Fact, post: seq<Word>, lo: nat, name: string, w: Word)
      requires Valid() && Settled(lo, name, w) && lo < |steps| && EndsWith(log, fact, post)
      ensures JumpAfter(log, fact.site, fact.staged).Keep?
    {
      assert Undisturbed([], steps, stacks, |steps| - 1, name);
    }

    /** The lookup on the stack after the last step. */
    lemma SettledLookup(lo: nat, name: string, w: Word)
      requires Valid() && Settled(lo, name, w)
      ensures var r, post := Labels(|steps|), stacks[|steps|];
              |r| == |post| && VariableValue(r, name, post) == if HasLabel(r, name) then Some(w) else None
    {
      ValueSurvivesRun([], steps, stacks, lo, |steps|, name, w);
    }
  }

  /** The run of a frame that executes just these steps, from its start, and then holds `post`. */
  ghost function OwnRun(logs: seq<Log>, facts: seq<Fact>, steps: seq<nat>, post: seq<Word>): (r: Run)
    requires |facts| == |logs| && Within(steps, |logs|) && OneStack(logs, steps) && Leads(logs, steps, post)
    ensures r.Valid() && |r.steps| == |steps|
  {
    var r := Run(seq(|steps|, n requires 0 <= n < |steps| => OwnStep(logs, facts, steps, post, n)),
                 seq(|steps| + 1, n requires 0 <= n <= |steps| => StackAt(logs, steps, n, post)));
    assert forall n :: 0 <= n < |steps| ==> StepExecutes(r.steps, r.stacks, n) by {
      forall n | 0 <= n < |steps| ensures StepExecutes(r.steps, r.stacks, n) {
        StackStep(logs, steps, n, post);
      }
    }
    r
  }

  ghost function OwnStep(logs: seq<Log>, facts: seq<Fact>, steps: seq<nat>, post: seq<Word>, n: nat): Step
    requires |facts| == |logs| && Within(steps, |logs|) && OneStack(logs, steps) && Leads(logs, steps, post)
    requires n < |steps|
  {
    StackStep(logs, steps, n, post);
    TraceStep(logs[steps[n]], facts[steps[n]].site, facts[steps[n]].staged)
  }

  /** A step of the run is a step of the trace. */
  lemma OwnRunStep(logs: seq<Log>, facts: seq<Fact>, steps: seq<nat>, post: seq<Word>, n: nat)
    requires |facts| == |logs| && Within(steps, |logs|) && OneStack(logs, steps) && Leads(logs, steps, post)
    requires n < |steps|
    ensures var run, k := OwnRun(logs, facts, steps, post), steps[n];
            && k < |logs| && logs[k].op.Some? && logs[k].stack == Some(run.stacks[n])
            && run.steps[n] == TraceStep(logs[k], facts[k].site, facts[k].staged)
            && run.Labels(n + 1) == Next(run.Labels(n), run.steps[n], |run.stacks[n]|)
            && run.stacks[|steps|] == post
  {
    StackStep(logs, steps, n, post);
  }

  /** One step of the run, from the labels `s` that it has reached. */
  lemma OwnRunNext(logs: seq<Log>, facts: seq<Fact>, steps: seq<nat>, post: seq<Word>, m: nat, n: nat, s: Slots)
    requires |facts| == |logs| && Within(steps, |logs|) && OneStack(logs, steps) && Leads(logs, steps, post)
    requires m + 1 == n <= |steps| && s == OwnRun(logs, facts, steps, post).Labels(m)
    ensures steps[m] < |logs| && logs[steps[m]].op.Some?
    ensures var log, fact := logs[steps[m]], facts[steps[m]];
            OwnRun(logs, facts, steps, post).Labels(n)
            == Next(s, TraceStep(log, fact.site, fact.staged), |log.StackOrEmpty()|)
  {
    OwnRunStep(logs, facts, steps, post, m);
  }

  lemma OwnRunEnds(logs: seq<Log>, facts: seq<Fact>, steps: seq<nat>, post: seq<Word>, n: nat)
    requires |facts| == |logs| && Within(steps, |logs|) && OneStack(logs, steps) && Leads(logs, steps, post)
    requires n + 1 == |steps|
    ensures steps[n] < |logs| && OwnRun(logs, facts, steps, post).EndsWith(logs[steps[n]], facts[steps[n]], post)
  {
    OwnRunStep(logs, facts, steps, post, n);
  }

  /** The running frame's run ends with the trace's latest step. */
  lemma EndsWithLatest(logs: seq<Log>, facts: seq<Fact>, i: nat, e: nat, post: seq<Word>)
    requires EvmTrace(logs) && |facts| == |logs| && 0 < i <= |logs| && e + 1 == logs[i - 1].depth
    requires Leads(logs, StepsOf(logs, i, e), post)
    ensures OwnRun(logs, facts, StepsOf(logs, i, e), post).EndsWith(logs[i - 1], facts[i - 1], post)
  {
    var steps := StepsOf(logs, i, e);
    assert steps != [] && steps[|steps| - 1] == i - 1 by { OwnStacks(logs, i, e); }
    OwnRunEnds(logs, facts, steps, post, |steps| - 1);
  }

  /** When that run has settled, its latest step neither resets nor seeds the tracker. */
  lemma LatestKeeps(
    logs: seq<Log>, facts: seq<Fact>, i: nat, e: nat, post: seq<Word>, lo: nat, name: string, w: Word)
    requires EvmTrace(logs) && |facts| == |logs| && 0 < i <= |logs| && e + 1 == logs[i - 1].depth
    requires Leads(logs, StepsOf(logs, i, e), post)
    requires var run := OwnRun(logs, facts, StepsOf(logs, i, e), post); lo < |run.steps| && run.Settled(lo, name, w)
    ensures var fact := facts[i - 1]; JumpAfter(logs[i - 1], fact.site, fact.staged).Keep?
  {
    EndsWithLatest(logs, facts, i, e, post);
    OwnRun(logs, facts, StepsOf(logs, i, e), post).SettledLast(logs[i - 1], facts[i - 1], post, lo, name, w);
  }
}
