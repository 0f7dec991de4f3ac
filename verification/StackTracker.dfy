/** The symbolic stack of variable names (src/stack_tracker.rs), and what it promises
    about the concrete EVM stack over whole runs. */
module StackTracker {
  import opened Basics
  import opened SolidityAst
  import opened EvmStack

  /** Bottom first; an anonymous slot is `None`. */
  type Slots = seq<Option<string>>

  datatype VarAssignment = VarAssignment(name: string, stackPosition: nat)

  datatype Tracked = Tracked(slots: Slots, assignments: seq<VarAssignment>)

  // ---- what one step does to the labels -------------------------------------------------

  function PeekFromTop(s: Slots, n: nat): Option<string> {
    if n == 0 || |s| < n then None else s[|s| - n]
  }

  predicate HasLabel(s: Slots, name: string) {
    Some(name) in s
  }

  /** An exact declaration offset wins over the declaration's range, which wins over its statement's. */
  function LabelForPush(off: Option<I32>, vars: seq<VarDecl>): (r: Option<string>)
    ensures r.Some? <==> off.Some? && exists v :: v in vars && v.Covers(off.value)
    ensures r.Some? ==> exists v :: v in vars && v.Covers(off.value) && v.name == r.value
  {
    if off.None? then None
    else
      var o := off.value;
      var exact := FirstVar(vars, (v: VarDecl) => v.declarationOffset == o);
      var inDeclaration := FirstVar(vars, (v: VarDecl) => v.src.ContainsOffset(o));
      var inStatement := FirstVar(vars, (v: VarDecl) => v.InStatement(o));
      if exact.Some? then Some(exact.value.name)
      else if inDeclaration.Some? then Some(inDeclaration.value.name)
      else if inStatement.Some? then Some(inStatement.value.name)
      else None
  }

  /** Variable `i` is the first one that is declared at `o`. */
  predicate FirstDeclaredAt(vars: seq<VarDecl>, i: nat, o: I32)
    requires i < |vars|
  {
    vars[i].declarationOffset == o && forall j :: 0 <= j < i ==> vars[j].declarationOffset != o
  }

  /** Variable `i` is the first one whose declaration contains `o`. */
  predicate FirstContaining(vars: seq<VarDecl>, i: nat, o: I32)
    requires i < |vars|
  {
    vars[i].src.ContainsOffset(o) && forall j :: 0 <= j < i ==> !vars[j].src.ContainsOffset(o)
  }

  /** Variable `i` is the first one whose statement contains `o`. */
  predicate FirstInStatement(vars: seq<VarDecl>, i: nat, o: I32)
    requires i < |vars|
  {
    vars[i].InStatement(o) && forall j :: 0 <= j < i ==> !vars[j].InStatement(o)
  }

  /** Which variable labels a PUSH: the first one declared exactly there; if there is none, the first one whose
      declaration contains the offset; and if there is none of these either, the first one whose statement does. */
  lemma LabelPrecedence(o: I32, vars: seq<VarDecl>, i: nat)
    requires i < |vars|
    ensures FirstDeclaredAt(vars, i, o) ==> LabelForPush(Some(o), vars) == Some(vars[i].name)
    ensures (forall v :: v in vars ==> v.declarationOffset != o) &&
            FirstContaining(vars, i, o) ==>
              LabelForPush(Some(o), vars) == Some(vars[i].name)
    ensures (forall v :: v in vars ==> v.declarationOffset != o && !v.src.ContainsOffset(o)) &&
            FirstInStatement(vars, i, o) ==>
              LabelForPush(Some(o), vars) == Some(vars[i].name)
  {
    assert vars[i] in vars;
    FirstVarIsFirst(vars, (v: VarDecl) => v.declarationOffset == o, i);
    FirstVarIsFirst(vars, (v: VarDecl) => v.src.ContainsOffset(o), i);
    FirstVarIsFirst(vars, (v: VarDecl) => v.InStatement(o), i);
  }

  /** The labels after the opcode, driven by the Yellow Paper's item counts. */
  function Moved(s: Slots, op: byte, tag: Option<string>): (r: Slots) {
    if IsPush(op) then s + [tag]
    else if IsDup(op) then s + [PeekFromTop(s, Removed(op))]
    else if IsSwap(op) then (if |s| < Removed(op) then s else Swapped(s, |s| - 1, |s| - Removed(op)))
    else Shrunk(s, Removed(op)) + if Added(op) == 0 then [] else [None]
  }

  /** The recovery rule: a variable whose statement is executing but that has no slot claims the top one. */
  function Recovered(s: Slots, o: I32, vars: seq<VarDecl>): (r: Tracked)
    ensures |r.slots| == |s|
    decreases |vars|
  {
    if vars == [] then Tracked(s, [])
    else if vars[0].InStatement(o) && !HasLabel(s, vars[0].name) && s != [] then
      var rest := Recovered(s[|s| - 1 := Some(vars[0].name)], o, vars[1..]);
      Tracked(rest.slots, [VarAssignment(vars[0].name, |s| - 1)] + rest.assignments)
    else Recovered(s, o, vars[1..])
  }

  /** The variable could claim the top slot: its statement executes and no slot below carries its name. */
  predicate Claims(below: Slots, o: I32, v: VarDecl) {
    v.InStatement(o) && !HasLabel(below, v.name)
  }

  /** The last variable in order that could claim the top slot. */
  function LastClaimant(below: Slots, o: I32, vars: seq<VarDecl>): (r: Option<string>)
    ensures r.None? <==> forall v :: v in vars ==> !Claims(below, o, v)
    ensures r.Some? ==> exists i ::
              0 <= i < |vars| && Claims(below, o, vars[i]) && r.value == vars[i].name
              && forall j :: i < j < |vars| ==> !Claims(below, o, vars[j])
    decreases |vars|
  {
    if vars == [] then None
    else
      var rest := LastClaimant(below, o, vars[1..]);
      assert forall v :: v in vars <==> v == vars[0] || v in vars[1..];
      assert rest.Some? ==> exists i ::
          0 <= i < |vars| && Claims(below, o, vars[i]) && rest.value == vars[i].name
          && forall j :: i < j < |vars| ==> !Claims(below, o, vars[j]) by {
        if rest.Some? {
          var k :| 0 <= k < |vars[1..]| && Claims(below, o, vars[1..][k]) && rest.value == vars[1..][k].name
            && forall j :: k < j < |vars[1..]| ==> !Claims(below, o, vars[1..][j]);
          forall j | k + 1 < j < |vars| ensures !Claims(below, o, vars[j]) {
            assert vars[1..][j - 1] == vars[j];
          }
          assert vars[k + 1] == vars[1..][k];
        }
      }
      if rest.Some? then rest
      else if Claims(below, o, vars[0]) then
        assert forall j :: 0 < j < |vars| ==> vars[j] in vars[1..];
        Some(vars[0].name)
      else None
  }

  /** The recovery rule in closed form: only the top label changes, to the last claimant's name. */
  lemma {:induction false} RecoveredTop(s: Slots, o: I32, vars: seq<VarDecl>)
    requires s != []
    ensures var top := |s| - 1;
            var claimant := LastClaimant(s[..top], o, vars);
            Recovered(s, o, vars).slots == s[..top] + [if claimant.Some? then claimant else s[top]]
    decreases |vars|
  {
    var top := |s| - 1;
    if vars == [] {
      assert s == s[..top] + [s[top]];
    } else {
      var v := vars[0];
      assert HasLabel(s, v.name) <==> HasLabel(s[..top], v.name) || s[top] == Some(v.name) by {
        assert s == s[..top] + [s[top]];
      }
      if v.InStatement(o) && !HasLabel(s, v.name) {
        var s' := s[top := Some(v.name)];
        assert s'[..top] == s[..top];
        RecoveredTop(s', o, vars[1..]);
      } else {
        RecoveredTop(s, o, vars[1..]);
      }
    }
  }

  /** Which variables claim the top slot, in order: the statement executes, no slot below carries the name, and
      neither does the top slot when their turn comes. */
  function Claimants(s: Slots, o: I32, vars: seq<VarDecl>): seq<string>
    requires s != []
  {
    if vars == [] then []
    else
      var init, v, below := vars[..|vars| - 1], vars[|vars| - 1], s[..|s| - 1];
      var last := LastClaimant(below, o, init);
      Claimants(s, o, init)
        + if Claims(below, o, v) && (if last.Some? then last else s[|s| - 1]) != Some(v.name) then [v.name] else []
  }

  function Assigned(names: seq<string>, position: nat): (r: seq<VarAssignment>)
    ensures |r| == |names|
  {
    seq(|names|, i requires 0 <= i < |names| => VarAssignment(names[i], position))
  }

  lemma {:induction false} RecoveredSnoc(s: Slots, o: I32, vars: seq<VarDecl>, v: VarDecl)
    ensures var before := Recovered(s, o, vars);
            Recovered(s, o, vars + [v]) == if v.InStatement(o) && !HasLabel(before.slots, v.name) && s != []
              then Tracked(before.slots[|s| - 1 := Some(v.name)],
                           before.assignments + [VarAssignment(v.name, |s| - 1)])
              else before
    decreases |vars|
  {
    if vars == [] {
      assert [v][1..] == [];
    } else {
      assert (vars + [v])[1..] == vars[1..] + [v];
      if vars[0].InStatement(o) && !HasLabel(s, vars[0].name) && s != [] {
        RecoveredSnoc(s[|s| - 1 := Some(vars[0].name)], o, vars[1..], v);
      } else {
        RecoveredSnoc(s, o, vars[1..], v);
      }
    }
  }

  /** The assignments that recovery reports: one for each claimant, in order, all about the top slot. */
  lemma {:induction false} RecoveredAssignments(s: Slots, o: I32, vars: seq<VarDecl>)
    ensures Recovered(s, o, vars).assignments
            == if s == [] then [] else Assigned(Claimants(s, o, vars), |s| - 1)
    decreases |vars|
  {
    if vars == [] {
    } else {
      var init, v := vars[..|vars| - 1], vars[|vars| - 1];
      assert vars == init + [v];
      RecoveredAssignments(s, o, init);
      RecoveredSnoc(s, o, init, v);
      if s != [] {
        RecoveredTop(s, o, init);
        ClaimsTop(Recovered(s, o, init).slots, s[..|s| - 1], v.name);
      }
    }
  }

  lemma ClaimsTop(s: Slots, below: Slots, name: string)
    requires |s| == |below| + 1 && s[..|below|] == below
    ensures HasLabel(s, name) <==> HasLabel(below, name) || s[|below|] == Some(name)
  {
    assert s == below + [s[|below|]];
  }

  function Processed(s: Slots, op: byte, off: Option<I32>, vars: seq<VarDecl>): Tracked {
    var tag := if IsPush(op) then LabelForPush(off, vars) else None;
    var pushed := if tag.Some? then [VarAssignment(tag.value, |s|)] else [];
    var moved := Moved(s, op, tag);
    var recovered := if off.Some? then Recovered(moved, off.value, vars) else Tracked(moved, []);
    Tracked(recovered.slots, pushed + recovered.assignments)
  }

  function Seeded(stackDepth: nat, labels: seq<string>): (r: Slots)
    ensures |r| == stackDepth
  {
    if |labels| <= stackDepth
    then seq(stackDepth - |labels|, _ => None) + seq(|labels|, i requires 0 <= i < |labels| => Some(labels[i]))
    else seq(stackDepth, _ => None)
  }

  /** Position of the topmost slot that carries `name`. */
  function TopmostSlot(s: Slots, name: string): (r: Option<nat>)
    ensures r.None? <==> !HasLabel(s, name)
    ensures r.Some? ==>
            r.value < |s| && s[r.value] == Some(name)
            && forall i :: r.value < i < |s| ==> s[i] != Some(name)
  {
    if s == [] then None
    else if s[|s| - 1] == Some(name) then Some(|s| - 1)
    else
      var below := s[..|s| - 1];
      assert forall l :: l in s <==> l in below || l == s[|s| - 1];
      TopmostSlot(below, name)
  }

  function VariableValue(s: Slots, name: string, stack: seq<Word>): Option<Word> {
    var slot := TopmostSlot(s, name);
    if slot.Some? && slot.value < |stack| then Some(stack[slot.value]) else None
  }

  /** The names have slots at or above `pos`, each lying below the slot of the name before it. */
  predicate TopmostFirst(s: Slots, listing: seq<(string, Word)>, pos: nat) {
    && (forall i :: 0 <= i < |listing| ==> SlotFrom(s, listing[i].0, pos))
    && forall i, j :: 0 <= i < j < |listing| ==> LiesAbove(s, listing[i].0, listing[j].0)
  }

  predicate SlotFrom(s: Slots, name: string, pos: nat) {
    TopmostSlot(s, name).Some? && pos <= TopmostSlot(s, name).value
  }

  predicate LiesAbove(s: Slots, upper: string, lower: string) {
    var u, l := TopmostSlot(s, upper), TopmostSlot(s, lower);
    u.Some? && l.Some? && l.value < u.value
  }

  lemma {:induction false} TopmostNext(s: Slots, listing: seq<(string, Word)>, name: string, w: Word, pos: nat)
    requires TopmostFirst(s, listing, pos + 1) && TopmostSlot(s, name) == Some(pos)
    ensures TopmostFirst(s, listing + [(name, w)], pos)
  {
    forall i | 0 <= i < |listing| ensures LiesAbove(s, listing[i].0, name) && SlotFrom(s, listing[i].0, pos) {
      assert SlotFrom(s, listing[i].0, pos + 1);
    }
  }

  lemma TopmostLower(s: Slots, listing: seq<(string, Word)>, pos: nat)
    requires TopmostFirst(s, listing, pos + 1)
    ensures TopmostFirst(s, listing, pos)
  {
    forall i | 0 <= i < |listing| ensures SlotFrom(s, listing[i].0, pos) {
      assert SlotFrom(s, listing[i].0, pos + 1);
    }
  }

  // ---- the tracker itself ------------------------------------------------------------------

  class StackTracker {
    var slots: Slots

    constructor ()
      ensures slots == []
    {
      slots := [];
    }

    method Reset()
      modifies this
      ensures slots == []
    {
      slots := [];
    }

    method PopN(n: nat)
      modifies this
      ensures slots == Shrunk(old(slots), n)
    {
      slots := slots[..if |slots| < n then 0 else |slots| - n];
    }

    method PushAnon()
      modifies this
      ensures slots == old(slots) + [None]
    {
      slots := slots + [None];
    }

    method SeedTopLabels(stackDepth: nat, labels: seq<string>)
      modifies this
      ensures slots == Seeded(stackDepth, labels)
    {
      slots := seq(stackDepth, _ => None);
      if labels == [] || stackDepth < |labels| {
        assert slots == Seeded(stackDepth, labels);
        return;
      }
      var first := stackDepth - |labels|;
      for i := 0 to |labels|
        invariant |slots| == stackDepth
        invariant forall j :: 0 <= j < |slots| ==>
                  slots[j] == if first <= j < first + i then Some(labels[j - first]) else None
      {
        slots := slots[first + i := Some(labels[i])];
      }
    }

    /** The opcode dispatch: its branches realise exactly the Yellow Paper's item counts. */
    method ApplyOpcode(op: byte, off: Option<I32>, vars: seq<VarDecl>) returns (pushed: seq<VarAssignment>)
      modifies this
      ensures slots == Moved(old(slots), op, if IsPush(op) then LabelForPush(off, vars) else None)
      ensures pushed == if IsPush(op) && LabelForPush(off, vars).Some?
                        then [VarAssignment(LabelForPush(off, vars).value, |old(slots)|)] else []
    {
      pushed := [];
      if op == 0x00 {
      } else if 0x01 <= op <= 0x07 || op == 0x0a || op == 0x0b {
        PopN(2);
        PushAnon();
      } else if op == 0x08 || op == 0x09 {
        PopN(3);
        PushAnon();
      } else if 0x10 <= op <= 0x14 {
        PopN(2);
        PushAnon();
      } else if op == 0x15 {
        PopN(1);
        PushAnon();
      } else if 0x16 <= op <= 0x18 {
        PopN(2);
        PushAnon();
      } else if op == 0x19 {
        PopN(1);
        PushAnon();
      } else if op == 0x1a || 0x1b <= op <= 0x1d || op == 0x20 {
        PopN(2);
        PushAnon();
      } else if op == 0x30 || 0x32 <= op <= 0x34 || op == 0x36 || op == 0x38 || op == 0x3a || op == 0x3d {
        PushAnon();
      } else if op == 0x31 || op == 0x35 || op == 0x3b || op == 0x3f || op == 0x40 || op == 0x49 {
        PopN(1);
        PushAnon();
      } else if op == 0x37 || op == 0x39 || op == 0x3e {
        PopN(3);
      } else if op == 0x3c {
        PopN(4);
      } else if 0x41 <= op <= 0x48 || op == 0x4a {
        PushAnon();
      } else if op == 0x50 {
        PopN(1);
      } else if op == 0x51 || op == 0x54 || op == 0x5c {
        PopN(1);
        PushAnon();
      } else if op == 0x52 || op == 0x53 || op == 0x55 || op == 0x57 || op == 0x5d {
        PopN(2);
      } else if op == 0x56 {
        PopN(1);
      } else if 0x58 <= op <= 0x5a {
        PushAnon();
      } else if op == 0x5b {
      } else if op == 0x5e {
        PopN(3);
      } else if op == 0x5f || 0x60 <= op <= 0x7f {
        var tag := LabelForPush(off, vars);
        var slot := |slots|;
        slots := slots + [tag];
        if tag.Some? {
          pushed := [VarAssignment(tag.value, slot)];
        }
      } else if 0x80 <= op <= 0x8f {
        var n := op - 0x80 + 1;
        slots := slots + [PeekFromTop(slots, n)];
      } else if 0x90 <= op <= 0x9f {
        var n := op - 0x90 + 1;
        var len := |slots|;
        if len > n {
          slots := slots[len - 1 := slots[len - 1 - n]][len - 1 - n := slots[len - 1]];
        }
      } else if 0xa0 <= op <= 0xa4 {
        PopN(2 + (op - 0xa0));
      } else if op == 0xf0 {
        PopN(3);
        PushAnon();
      } else if op == 0xf1 || op == 0xf2 {
        PopN(7);
        PushAnon();
      } else if op == 0xf3 || op == 0xfd {
        PopN(2);
      } else if op == 0xf4 || op == 0xfa {
        PopN(6);
        PushAnon();
      } else if op == 0xf5 {
        PopN(4);
        PushAnon();
      } else if op == 0xff {
        PopN(1);
      }
    }

    /** The recovery rule, variable by variable. */
    method RecoverLabels(o: I32, vars: seq<VarDecl>) returns (claimed: seq<VarAssignment>)
      modifies this
      ensures Tracked(slots, claimed) == Recovered(old(slots), o, vars)
    {
      claimed := [];
      for i := 0 to |vars|
        invariant Recovered(slots, o, vars[i..]).slots == Recovered(old(slots), o, vars).slots
        invariant claimed + Recovered(slots, o, vars[i..]).assignments == Recovered(old(slots), o, vars).assignments
      {
        var v := vars[i];
        assert vars[i..][1..] == vars[i + 1..];
        if v.InStatement(o) && !HasLabel(slots, v.name) && slots != [] {
          slots := slots[|slots| - 1 := Some(v.name)];
          claimed := claimed + [VarAssignment(v.name, |slots| - 1)];
        }
      }
    }

    method ProcessStep(op: byte, off: Option<I32>, vars: seq<VarDecl>) returns (assignments: seq<VarAssignment>)
      modifies this
      ensures Tracked(slots, assignments) == Processed(old(slots), op, off, vars)
    {
      assignments := ApplyOpcode(op, off, vars);
      if off.Some? {
        var claimed := RecoverLabels(off.value, vars);
        assignments := assignments + claimed;
      }
    }

    function GetVariableValue(name: string, stack: seq<Word>): Option<Word>
      reads this
    {
      VariableValue(slots, name, stack)
    }

    /** Every visible (name, value) pair, topmost slot first: the listing is exactly
        the graph of the single-name lookup, each name once. */
    method AllVariableValues(stack: seq<Word>) returns (result: seq<(string, Word)>)
      ensures forall name, w :: (name, w) in result <==> GetVariableValue(name, stack) == Some(w)
      ensures forall i, j :: 0 <= i < j < |result| ==> result[i].0 != result[j].0
      ensures TopmostFirst(slots, result, 0)
    {
      var seen: set<string> := {};
      result := [];
      var pos := |slots|;
      while pos > 0
        invariant 0 <= pos <= |slots|
        invariant forall name :: name in seen <==> Some(name) in slots[pos..]
        invariant forall name, w :: (name, w) in result <==>
                  name in seen && VariableValue(slots, name, stack) == Some(w)
        invariant TopmostFirst(slots, result, pos)
      {
        pos := pos - 1;
        assert slots[pos..] == [slots[pos]] + slots[pos + 1..];
        if slots[pos].Some? && slots[pos].value !in seen {
          var name := slots[pos].value;
          assert forall i :: pos < i < |slots| ==> slots[i] == slots[pos + 1..][i - pos - 1];
          assert TopmostSlot(slots, name) == Some(pos);
          seen := seen + {name};
          if pos < |stack| {
            TopmostNext(slots, result, name, stack[pos], pos);
            result := result + [(name, stack[pos])];
          } else {
            TopmostLower(slots, result, pos);
          }
        } else {
          TopmostLower(slots, result, pos);
        }
      }
      assert slots[0..] == slots;
      forall i, j | 0 <= i < j < |result| ensures result[i].0 != result[j].0 {
        assert LiesAbove(slots, result[i].0, result[j].0);
      }
    }
  }
}
