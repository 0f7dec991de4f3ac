/** Handing arguments to the callee of an internal jump (src/recorder.rs, stage_internal_call_args). */
module ArgStaging {
  import opened Basics
  import opened SolidityAst
  import opened StackTracker

  /** One `writer.arg` event. */
  datatype Arg = Arg(name: string, value: Word)

  function Names(target: FunctionDef): (r: seq<string>)
    ensures |r| == |target.parameters|
  {
    seq(|target.parameters|, i requires 0 <= i < |target.parameters| => target.parameters[i].name)
  }

  predicate Fits(target: FunctionDef, stack: seq<Word>, above: nat) {
    target.parameters != [] && |target.parameters| + above <= |stack|
  }

  /** The arguments staged for a resolved callee: its parameters are the items just below `above` others. */
  function Staged(target: FunctionDef, stack: seq<Word>, above: nat): (r: seq<Arg>) {
    if !Fits(target, stack, above) then []
    else
      var first := |stack| - above - |target.parameters|;
      seq(|target.parameters|,
        i requires 0 <= i < |target.parameters| => Arg(target.parameters[i].name, stack[first + i]))
  }

  /** The labels left for the callee. */
  function StagedSlots(target: Option<FunctionDef>, stack: Option<seq<Word>>, above: nat): Slots {
    if target.None? || stack.None? then []
    else Seeded(Max(0, |stack.value| - above), Names(target.value))
  }

  method StageInternalCallArgs(
    tracker: StackTracker, target: Option<FunctionDef>, concreteStack: Option<seq<Word>>, above: nat)
    returns (args: seq<Arg>)
    modifies tracker
    ensures tracker.slots == StagedSlots(target, concreteStack, above)
    ensures args == if target.Some? && concreteStack.Some? then Staged(target.value, concreteStack.value, above) else []
  {
    args := [];
    if target.None? {
      tracker.Reset();
      return;
    }
    var paramNames := Names(target.value);
    if concreteStack.None? {
      tracker.Reset();
      return;
    }
    var stack := concreteStack.value;
    var calleeStackDepth := if |stack| < above then 0 else |stack| - above;
    var occupied := |paramNames| + above;
    if paramNames == [] || |stack| < occupied {
      tracker.SeedTopLabels(calleeStackDepth, paramNames);
      return;
    }
    var first := |stack| - occupied;
    for idx := 0 to |paramNames|
      invariant args == Staged(target.value, stack, above)[..idx]
    {
      args := args + [Arg(target.value.parameters[idx].name, stack[first + idx])];
    }
    tracker.SeedTopLabels(calleeStackDepth, paramNames);
  }

  /** Whatever lies below the arguments and above them: parameter `i` is staged with the `i`-th argument word. */
  lemma StagedArguments(target: FunctionDef, below: seq<Word>, values: seq<Word>, top: seq<Word>, i: nat)
    requires i < |values| == |target.parameters|
    ensures var args := Staged(target, below + values + top, |top|);
            |args| == |values| && args[i] == Arg(target.parameters[i].name, values[i])
  {
    var stack := below + values + top;
    assert stack[|below| + i] == values[i];
  }

  /** The last parameter that shares the name of parameter `i`. */
  function LastNamesake(args: seq<Arg>, i: nat): (r: nat)
    requires i < |args|
    ensures i <= r < |args| && args[r].name == args[i].name
    ensures forall j :: r < j < |args| ==> args[j].name != args[i].name
  {
    LastNamesakeFrom(args, i, |args| - 1)
  }

  function LastNamesakeFrom(args: seq<Arg>, i: nat, top: nat): (r: nat)
    requires i <= top < |args|
    ensures i <= r <= top && args[r].name == args[i].name
    ensures forall j :: r < j <= top ==> args[j].name != args[i].name
  {
    if args[top].name == args[i].name then top else LastNamesakeFrom(args, i, top - 1)
  }

  /** Right after the JUMP (`post` is the stack without the jump destination) the tracker's depth
      is that stack's length whatever it was before, and its labels are the staged names. */
  lemma HandOffLabels(target: FunctionDef, stack: seq<Word>, above: nat)
    requires above <= |stack|
    ensures var slots, args := StagedSlots(Some(target), Some(stack), above), Staged(target, stack, above);
            && |slots| == |stack| - above
            && |args| == (if Fits(target, stack, above) then |target.parameters| else 0)
            && forall k :: 0 <= k < |slots| ==>
                 slots[k] == if k < |slots| - |args| then None else Some(args[k - (|slots| - |args|)].name)
  {
    var names, args, depth := Names(target), Staged(target, stack, above), |stack| - above;
    if Fits(target, stack, above) {
      assert |names| <= depth && |args| == |names|;
      forall k | 0 <= k < depth
        ensures Seeded(depth, names)[k]
                == if k < depth - |args| then None else Some(args[k - (depth - |args|)].name)
      {
      }
    }
  }

  /** A parameter's name resolves to the value staged for its last namesake. */
  lemma HandOffParameter(target: FunctionDef, stack: seq<Word>, above: nat, i: nat)
    requires above <= |stack| && i < |Staged(target, stack, above)|
    ensures var slots, args := StagedSlots(Some(target), Some(stack), above), Staged(target, stack, above);
            VariableValue(slots, args[i].name, stack[..|stack| - above]) == Some(args[LastNamesake(args, i)].value)
  {
    HandOffLabels(target, stack, above);
    var slots, args := StagedSlots(Some(target), Some(stack), above), Staged(target, stack, above);
    var first, last := |slots| - |args|, LastNamesake(args, i);
    assert slots[first + last] == Some(args[i].name);
    var found := TopmostSlot(slots, args[i].name);
    assert found.value == first + last;
  }

  /** Every other name is unknown to the callee's tracker. */
  lemma HandOffOther(target: FunctionDef, stack: seq<Word>, above: nat, name: string)
    requires above <= |stack|
    requires forall a :: a in Staged(target, stack, above) ==> a.name != name
    ensures VariableValue(StagedSlots(Some(target), Some(stack), above), name, stack[..|stack| - above]) == None
  {
    HandOffLabels(target, stack, above);
    var slots, args := StagedSlots(Some(target), Some(stack), above), Staged(target, stack, above);
    forall k | 0 <= k < |slots| ensures slots[k] != Some(name) {
      if |slots| - |args| <= k {
        assert args[k - (|slots| - |args|)] in args;
      }
    }
  }

  lemma LastNamesakeIsSelf(args: seq<Arg>, i: nat)
    requires i < |args| && forall j :: i < j < |args| ==> args[j].name != args[i].name
    ensures LastNamesake(args, i) == i
  {
  }

  /** The callee's view of its arguments: right after the jump each parameter that no later one shadows is shown
      with its own argument word. */
  lemma CalleeSeesArguments(target: FunctionDef, below: seq<Word>, values: seq<Word>, top: seq<Word>, i: nat)
    requires i < |values| == |target.parameters|
    requires forall j :: i < j < |target.parameters| ==> target.parameters[j].name != target.parameters[i].name
    ensures VariableValue(StagedSlots(Some(target), Some(below + values + top), |top|), target.parameters[i].name,
                          below + values)
            == Some(values[i])
  {
    var stack, params := below + values + top, target.parameters;
    forall j | 0 <= j < |values| ensures Staged(target, stack, |top|)[j] == Arg(params[j].name, values[j]) {
      StagedArguments(target, below, values, top, j);
    }
    StagedArguments(target, below, values, top, i);
    LastNamesakeIsSelf(Staged(target, stack, |top|), i);
    HandOffParameter(target, stack, |top|, i);
    assert stack[..|stack| - |top|] == below + values;
  }

  /** The staged argument `i` is what the callee's tracker will show under its name. */
  predicate Agrees(target: FunctionDef, stack: seq<Word>, above: nat, i: nat)
    requires above <= |stack| && i < |Staged(target, stack, above)|
  {
    var a := Staged(target, stack, above)[i];
    VariableValue(StagedSlots(Some(target), Some(stack), above), a.name, stack[..|stack| - above]) == Some(a.value)
  }

  /** Every staged argument agrees exactly when parameters that share a name (unnamed ones do)
      also carry the same word. */
  lemma HandOffAgreesIff(target: FunctionDef, stack: seq<Word>, above: nat)
    requires above <= |stack|
    ensures var args := Staged(target, stack, above);
            (forall i :: 0 <= i < |args| ==> Agrees(target, stack, above, i))
            <==> (forall i, j :: 0 <= i < j < |args| && args[i].name == args[j].name ==> args[i].value == args[j].value)
  {
    var args := Staged(target, stack, above);
    if forall i :: 0 <= i < |args| ==> Agrees(target, stack, above, i) {
      forall i, j | 0 <= i < j < |args| && args[i].name == args[j].name ensures args[i].value == args[j].value {
        assert Agrees(target, stack, above, i) && Agrees(target, stack, above, j);
      }
    }
    if forall i, j :: 0 <= i < j < |args| && args[i].name == args[j].name ==> args[i].value == args[j].value {
      forall i | 0 <= i < |args| ensures Agrees(target, stack, above, i) {
        HandOffParameter(target, stack, above, i);
      }
    }
  }

  /** With distinct parameter names the condition holds for every stack. */
  lemma DistinctNamesAgree(target: FunctionDef, stack: seq<Word>, above: nat)
    requires above <= |stack|
    requires forall i, j :: 0 <= i < j < |target.parameters| ==> target.parameters[i].name != target.parameters[j].name
    ensures forall i :: 0 <= i < |Staged(target, stack, above)| ==> Agrees(target, stack, above, i)
  {
    HandOffAgreesIff(target, stack, above);
  }

  /** Two unnamed parameters: the first staged value is not the one the callee shows. */
  lemma UnnamedParametersDisagree(v: VarDecl)
    requires v.name == ""
    ensures var target, stack := FunctionDef("f", [v, v]), [10, 20, 0x1234];
            && Staged(target, stack, 1) == [Arg("", 10), Arg("", 20)]
            && !Agrees(target, stack, 1, 0)
  {
    var target, stack: seq<Word> := FunctionDef("f", [v, v]), [10, 20, 0x1234];
    var args := Staged(target, stack, 1);
    assert args == [Arg("", 10), Arg("", 20)];
    HandOffParameter(target, stack, 1, 0);
    assert LastNamesake(args, 0) == 1;
  }
}
