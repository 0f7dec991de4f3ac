/** A frame caches the words of its own SSTOREs. When are they still what its account's storage holds? */
module FrameStorage {
  import opened Basics
  import opened StructLog
  import opened StorageLayout
  import opened TraceStacks
  import opened FrameRecorder
  import opened FrameAccounts
  import opened FrameHistory
  import opened EvmStorage
  import Numerals
  import opened ContractRegistry
  import MappingNames
  import StorageState

  // ---- the frame's own last write ---------------------------------------------------------------------------

  /** The last of these steps that writes the slot. */
  function LastOwn(logs: seq<Log>, steps: seq<nat>, slot: Word): (r: Option<nat>)
    requires Within(steps, |logs|)
    ensures r.Some? ==> r.value in steps && r.value < |logs|
    ensures r.Some? ==> Sstore(logs[r.value]).Some? && Sstore(logs[r.value]).value.0 == slot
  {
    if steps == [] then None
    else
      var n := |steps| - 1;
      InitWithin(steps, |logs|);
      var written := Sstore(logs[steps[n]]);
      if written.Some? && written.value.0 == slot then Some(steps[n]) else LastOwn(logs, steps[..n], slot)
  }

  lemma WriteOfSstore(log: Log)
    ensures var op := StorageOp(log);
            Sstore(log) == if op.Some? && op.value.Write? then Some((op.value.slot, op.value.value)) else None
  {
  }

  lemma {:induction false} WritesSnoc(ops: seq<StorageState.Op>, op: StorageState.Op)
    ensures StorageState.WritesOf(ops + [op])
            == StorageState.WritesOf(ops) + if op.Write? then [(op.slot, op.value)] else []
  {
    assert (ops + [op])[..|ops|] == ops;
  }

  /** The frame's writes, one step more. */
  lemma {:induction false} OwnWritesStep(logs: seq<Log>, steps: seq<nat>, n: nat)
    requires Within(steps, |logs|) && n + 1 == |steps|
    ensures steps[n] < |logs| && Within(steps[..n], |logs|)
    ensures var written := Sstore(logs[steps[n]]);
            StorageState.WritesOf(StorageOps(logs, steps))
            == StorageState.WritesOf(StorageOps(logs, steps[..n])) + if written.Some? then [written.value] else []
  {
    InitWithin(steps, |logs|);
    var init, op := StorageOps(logs, steps[..n]), StorageOp(logs[steps[n]]);
    WriteOfSstore(logs[steps[n]]);
    if op.Some? {
      assert StorageOps(logs, steps) == init + [op.value];
      WritesSnoc(init, op.value);
    } else {
      assert StorageOps(logs, steps) == init;
    }
  }

  lemma {:induction false} LastOwnIsLastWrite(logs: seq<Log>, steps: seq<nat>, slot: Word)
    requires Within(steps, |logs|)
    ensures var p := LastOwn(logs, steps, slot);
            StorageState.LastWrite(StorageState.WritesOf(StorageOps(logs, steps)), slot)
            == if p.Some? then Some(WordOf(logs, p.value)) else None
  {
    if steps == [] {
    } else {
      var n := |steps| - 1;
      OwnWritesStep(logs, steps, n);
      LastOwnIsLastWrite(logs, steps[..n], slot);
      var written := Sstore(logs[steps[n]]);
      var before := StorageState.WritesOf(StorageOps(logs, steps[..n]));
      if written.Some? {
        assert written.value == (written.value.0, written.value.1);
        StorageState.LastWriteStep(before, written.value.0, written.value.1, slot);
      } else {
        assert before + [] == before;
      }
    }
  }

  predicate Ascending(steps: seq<nat>) {
    steps == [] ||
    var n := |steps| - 1;
    Within(steps[..n], steps[n]) && Ascending(steps[..n])
  }

  lemma {:induction false} AscendSnoc(steps: seq<nat>, k: nat)
    requires Ascending(steps) && Within(steps, k)
    ensures Ascending(steps + [k])
  {
    assert (steps + [k])[..|steps|] == steps;
  }

  lemma {:induction false} OwnAscend(logs: seq<Log>, i: nat, e: nat)
    requires DepthTrace(logs) && i <= |logs| && e < PreviousDepth(logs, i)
    ensures Ascending(OwnSteps(logs, i)[e])
    decreases i
  {
    if i == 0 {
    } else {
      var k := i - 1;
      OwnStepsNext(logs, k, i);
      var before := OwnSteps(logs, k);
      if e < |before| {
        OwnAscend(logs, k, e);
        assert Within(before[e], k);
      }
      if e + 1 == logs[k].depth {
        AscendSnoc(if e < |before| then before[e] else [], k);
      }
    }
  }

  /** Own steps that write the slot come no later. */
  lemma {:induction false} LastOwnIsLast(logs: seq<Log>, steps: seq<nat>, slot: Word, q: nat)
    requires Within(steps, |logs|) && Ascending(steps) && q in steps && q < |logs|
    requires Sstore(logs[q]).Some? && Sstore(logs[q]).value.0 == slot
    ensures var p := LastOwn(logs, steps, slot); p.Some? && q <= p.value
    decreases |steps|
  {
    var n := |steps| - 1;
    InitWithin(steps, |logs|);
    if q != steps[n] {
      assert q in steps[..n];
      LastOwnIsLast(logs, steps[..n], slot, q);
    }
  }

  // ---- against the account's storage ------------------------------------------------------------------------

  /** If the cell's surviving word was written after step `p`, it is the same word. */
  ghost predicate LeftAlone(cells: seq<Option<Cell>>, logs: seq<Log>, commits: set<nat>, i: nat, c: Cell, p: nat)
    requires |cells| == |logs| && DepthTrace(logs) && p < i <= |logs|
  {
    forall q :: p < q < i && LastSurviving(cells, logs, commits, i, c, q) ==> WordOf(logs, q) == WordOf(logs, p)
  }

  lemma {:induction false} SurvivingWordIff(
    cells: seq<Option<Cell>>, logs: seq<Log>, commits: set<nat>, i: nat, c: Cell, p: nat)
    requires |cells| == |logs| && DepthTrace(logs) && p < i <= |logs|
    requires cells[p] == Some(c) && Survives(logs, commits, p, i)
    ensures var now := StorageAt(cells, logs, commits, i);
            && c in now && p <= now[c] < i && cells[now[c]] == Some(c)
            && (WordOf(logs, now[c]) == WordOf(logs, p) <==> LeftAlone(cells, logs, commits, i, c, p))
  {
    StorageIsLastSurviving(cells, logs, commits, i, c);
  }

  /** An open frame's write is a write of its account's storage. */
  lemma {:induction false} OwnCell(config: Config, logs: seq<Log>, i: nat, e: nat, p: nat)
    requires DepthTrace(logs) && p < i <= |logs| && IsOwn(logs, i, e, p) && Sstore(logs[p]).Some?
    ensures Cells(config, logs)[p] == Some(Cell(Accounts(config, logs, i)[e].storage, Sstore(logs[p]).value.0))
  {
    OwnAccount(config, logs, i, e, p);
  }

  lemma {:induction false} NewerIsForeign(config: Config, logs: seq<Log>, i: nat, e: nat, slot: Word, p: nat, q: nat)
    requires DepthTrace(logs) && p < q < i <= |logs| && e < PreviousDepth(logs, i)
    requires Within(OwnSteps(logs, i)[e], |logs|) && LastOwn(logs, OwnSteps(logs, i)[e], slot) == Some(p)
    requires Sstore(logs[q]).Some? && Sstore(logs[q]).value.0 == slot
    ensures !IsOwn(logs, i, e, q)
  {
    if IsOwn(logs, i, e, q) {
      OwnAscend(logs, i, e);
      LastOwnIsLast(logs, OwnSteps(logs, i)[e], slot, q);
      assert false;
    }
  }

  /** An open frame's last write of a slot is in its account's storage, or another frame has written the cell
      since and was not taken back; the words agree exactly when the last such write, if any, is of the same
      word. */
  lemma {:induction false} OwnWordIsCurrentIff(
    config: Config, logs: seq<Log>, commits: set<nat>, i: nat, e: nat, slot: Word, p: nat)
    requires DepthTrace(logs) && i <= |logs| && e < PreviousDepth(logs, i) && Within(OwnSteps(logs, i)[e], i)
    requires LastOwn(logs, OwnSteps(logs, i)[e], slot) == Some(p)
    ensures p < i
    ensures var cells, c := Cells(config, logs), Cell(Accounts(config, logs, i)[e].storage, slot);
            var now := StorageAt(cells, logs, commits, i);
            && c in now && p <= now[c] < i && (now[c] != p ==> !IsOwn(logs, i, e, now[c]))
            && (WordOf(logs, now[c]) == WordOf(logs, p) <==> LeftAlone(cells, logs, commits, i, c, p))
  {
    var cells, c := Cells(config, logs), Cell(Accounts(config, logs, i)[e].storage, slot);
    OwnCell(config, logs, i, e, p);
    OwnWriteSurvives(logs, commits, i, e, p);
    SurvivingWordIff(cells, logs, commits, i, c, p);
    var q := StorageAt(cells, logs, commits, i)[c];
    if q != p {
      NewerIsForeign(config, logs, i, e, slot, p, q);
    }
  }

  /** Every slot that an open frame's index holds is the word in its account's storage exactly when the last
      write of it that survives since the frame's own, if any, is of the same word. */
  lemma {:induction false} RecordedSlotIsCurrentIff(
    config: Config, logs: seq<Log>, states: seq<State>, commits: set<nat>, i: nat, e: nat, slot: U64)
    requires DepthTrace(logs) && IsRun(config, logs, states) && 0 < i <= |logs| && e < logs[i - 1].depth
    requires e < |states[i].frames| && FrameView(config, states[i].frames[e]).layout.Some?
    requires e < |states[i].slotValues| && slot in states[i].slotValues[e]
    ensures Within(OwnSteps(logs, i)[e], i) && LastOwn(logs, OwnSteps(logs, i)[e], slot).Some?
    ensures var cells, c := Cells(config, logs), Cell(Accounts(config, logs, i)[e].storage, slot);
            var now, p := StorageAt(cells, logs, commits, i), LastOwn(logs, OwnSteps(logs, i)[e], slot).value;
            && p < i && c in now && now[c] < i
            && (states[i].slotValues[e][slot] == WordOf(logs, now[c]) <==> LeftAlone(cells, logs, commits, i, c, p))
  {
    var steps := OwnSteps(logs, i)[e];
    SlotsOfFrame(config, logs, states, i, e);
    LastOwnIsLastWrite(logs, steps, slot);
    OwnWordIsCurrentIff(config, logs, commits, i, e, slot, LastOwn(logs, steps, slot).value);
  }

  lemma {:induction false} SlotsOfFrame(config: Config, logs: seq<Log>, states: seq<State>, i: nat, e: nat)
    requires DepthTrace(logs) && IsRun(config, logs, states) && 0 < i <= |logs| && e < logs[i - 1].depth
    requires e < |states[i].frames| && FrameView(config, states[i].frames[e]).layout.Some?
    ensures HasFrame(states[i], e) && Within(OwnSteps(logs, i)[e], |logs|)
    ensures StorageState.SlotsAgree(FrameAt(states[i], e).storage,
                                    StorageState.WritesOf(StorageOps(logs, OwnSteps(logs, i)[e])))
  {
    var view := FrameView(config, states[i].frames[e]);
    FramesRunAlone(config, logs, states, i, e);
    StorageAlone(config, logs, view, OwnSteps(logs, i)[e]);
    StorageState.RunSlotsAgree(view.layout.value, config.hash, StorageOps(logs, OwnSteps(logs, i)[e]));
  }

  /** The same for variables: the one that names a written slot, mapping slots hashed in time included, shows
      the account's word under the same condition. */
  lemma {:induction false} RecordedVariableIsCurrentIff(
    config: Config, logs: seq<Log>, states: seq<State>, commits: set<nat>, i: nat, e: nat, layout: Layout,
    seen: MappingNames.Inputs, slot: Word)
    requires DepthTrace(logs) && IsRun(config, logs, states) && 0 < i <= |logs| && e < logs[i - 1].depth
    requires e < |states[i].frames| && FrameView(config, states[i].frames[e]).layout == Some(layout)
    requires Within(OwnSteps(logs, i)[e], |logs|) && Within(OwnSteps(logs, i)[e], i)
             && Regular(layout, config.hash, seen, StorageOps(logs, OwnSteps(logs, i)[e]))
             && StorageState.HashedInTime(layout, config.hash, StorageOps(logs, OwnSteps(logs, i)[e]))
    requires LastOwn(logs, OwnSteps(logs, i)[e], slot).Some? && !StorageState.IsCompoundBase(layout, slot)
    ensures var cells, c := Cells(config, logs), Cell(Accounts(config, logs, i)[e].storage, slot);
            var now, p := StorageAt(cells, logs, commits, i), LastOwn(logs, OwnSteps(logs, i)[e], slot).value;
            && HasFrame(states[i], e) && p < i && c in now && now[c] < i
            && var name := SlotName(Some(layout), states[i].mappingNames[e], slot);
               && name in states[i].variables[e]
               && (states[i].variables[e][name] == StorageState.Raw(WordOf(logs, now[c]))
                   <==> LeftAlone(cells, logs, commits, i, c, p))
  {
    var steps := OwnSteps(logs, i)[e];
    RecordedStorageAgrees(config, logs, states, i, e, layout, seen);
    LastOwnIsLastWrite(logs, steps, slot);
    OwnWordIsCurrentIff(config, logs, commits, i, e, slot, LastOwn(logs, steps, slot).value);
  }

  // ---- frames without a layout ------------------------------------------------------------------------------

  lemma StoresWithout(st: StorageState.State, log: Log)
    ensures StorageAfter(st, map[], None, log)
            == if Sstore(log).Some? then
                 StorageState.Stored(None, map[], st, Sstore(log).value.0, Sstore(log).value.1)
               else st
  {
  }

  lemma {:induction false} RunWithoutNext(writes: StorageState.Writes, more: StorageState.Writes)
    requires |more| <= 1
    ensures StorageState.RunWithout(writes + more)
            == if more == [] then StorageState.RunWithout(writes)
               else StorageState.Stored(None, map[], StorageState.RunWithout(writes), more[0].0, more[0].1)
  {
    if more == [] {
      assert writes + more == writes;
    } else {
      assert (writes + more)[..|writes|] == writes;
    }
  }

  lemma {:induction false} StorageAloneWithout(config: Config, logs: seq<Log>, view: View, steps: seq<nat>)
    requires Within(steps, |logs|) && view.layout.None?
    ensures var f := Alone(config, logs, view, steps);
            f.names == map[] && f.storage == StorageState.RunWithout(StorageState.WritesOf(StorageOps(logs, steps)))
  {
    if steps == [] {
    } else {
      var n := |steps| - 1;
      OwnWritesStep(logs, steps, n);
      StorageAloneWithout(config, logs, view, steps[..n]);
      var written, before := Sstore(logs[steps[n]]), StorageState.WritesOf(StorageOps(logs, steps[..n]));
      StoresWithout(StorageState.RunWithout(before), logs[steps[n]]);
      RunWithoutNext(before, if written.Some? then [written.value] else []);
    }
  }

  /** In every recording an open frame without a layout names no mapping slot, keeps no slot index, and its variables
      are the slots it wrote, under their numbers, each with its own last word. */
  lemma {:induction false} RecordedWithoutLayout(
    config: Config, logs: seq<Log>, states: seq<State>, i: nat, e: nat, slot: Word)
    requires DepthTrace(logs) && IsRun(config, logs, states) && 0 < i <= |logs| && e < logs[i - 1].depth
    requires e < |states[i].frames| && FrameView(config, states[i].frames[e]).layout.None?
    ensures HasFrame(states[i], e) && Within(OwnSteps(logs, i)[e], |logs|)
    ensures var f, p := FrameAt(states[i], e), LastOwn(logs, OwnSteps(logs, i)[e], slot);
            var name := "storage[" + Numerals.Print(slot, 10) + "]";
            && f.names == map[] && f.storage.slots == map[]
            && (name in f.storage.variables <==> p.Some?)
            && (p.Some? ==> f.storage.variables[name] == StorageState.Raw(WordOf(logs, p.value)))
  {
    var view, steps := FrameView(config, states[i].frames[e]), OwnSteps(logs, i)[e];
    FramesRunAlone(config, logs, states, i, e);
    StorageAloneWithout(config, logs, view, steps);
    LastOwnIsLastWrite(logs, steps, slot);
    StorageState.RunWithoutAgrees(StorageState.WritesOf(StorageOps(logs, steps)), slot);
  }

  // ---- a stale word -----------------------------------------------------------------------------------------

  /** A frame writes a slot and delegates; the delegate writes the same slot and ends, with success or not. */
  predicate DelegateOverwrites(logs: seq<Log>, slot: Word, first: Word, second: Word) {
    && |logs| == 5 && logs[0].depth == logs[1].depth == logs[4].depth == 1 && logs[2].depth == logs[3].depth == 2
    && Sstore(logs[0]) == Some((slot, first)) && logs[1].op == Some(OP_DELEGATECALL)
    && Sstore(logs[2]) == Some((slot, second)) && Sstore(logs[3]) == Sstore(logs[4]) == None
  }

  /** A rise begins a frame. */
  lemma {:induction false} RiseBegins(logs: seq<Log>, k: nat, i: nat, e: nat)
    requires DepthTrace(logs) && 0 < k && k + 1 == i <= |logs| && e == logs[k - 1].depth && logs[k].depth == e + 1
    ensures |Begins(logs, i)| == e + 1 && Begins(logs, i)[e] == k
  {
    StacksNext(logs, k, i);
  }

  /** The delegate begins with its write, and its last step is the one before the caller's next. */
  lemma {:induction false} DelegateFrame(logs: seq<Log>, slot: Word, first: Word, second: Word, b: nat, j: nat)
    requires DelegateOverwrites(logs, slot, first, second) && b == 2 && j == 4
    ensures DepthTrace(logs) && |Latest(logs, j)| == 2 && Latest(logs, j)[1] == 3 && Begins(logs, j)[1] == b
  {
    var k := j - 1;
    RiseBegins(logs, b, k, logs[b - 1].depth);
    StacksNext(logs, k, j);
  }

  /** The delegate's write survives exactly when the delegate ends with success. */
  lemma DelegateWriteSurvivesIff(
    logs: seq<Log>, slot: Word, first: Word, second: Word, commits: set<nat>, b: nat, i: nat)
    requires DelegateOverwrites(logs, slot, first, second) && b == 2 && i == |logs|
    ensures DepthTrace(logs) && (Survives(logs, commits, b, i) <==> 3 in commits)
  {
    var j := i - 1;
    DelegateFrame(logs, slot, first, second, b, j);
    if 3 in commits {
      forall x: nat, e: nat | b < x < i ensures Spares(logs, commits, x, e, b) {
        assert x == j || logs[x].depth >= |Latest(logs, x)|;
      }
    } else {
      assert !Spares(logs, commits, j, 1, b);
    }
  }

  lemma DelegateCells(
    config: Config, logs: seq<Log>, slot: Word, first: Word, second: Word, a: nat, b: nat)
    requires DelegateOverwrites(logs, slot, first, second) && DepthTrace(logs) && a == 0 && b == 2
    ensures var cells, c := Cells(config, logs), Cell(config.entry, slot);
            cells[a] == cells[b] == Some(c) && forall j :: 0 <= j < |logs| && j != a && j != b ==> cells[j].None?
  {
    var m, k := a + 1, b + 1;
    assert Accounts(config, logs, m) == [Account(config.entry, config.entry, OP_CALL)];
    assert Accounts(config, logs, b) == Accounts(config, logs, m);
    assert Accounts(config, logs, k)[1] == Entered(Accounts(config, logs, b)[0], logs[m]);
  }

  /** The caller's only write of the slot. */
  lemma {:induction false} DelegateOwnWrite(
    logs: seq<Log>, slot: Word, first: Word, second: Word, a: nat, i: nat)
    requires DelegateOverwrites(logs, slot, first, second) && DepthTrace(logs) && a == 0 && i == |logs|
    ensures Within(OwnSteps(logs, i)[a], i) && LastOwn(logs, OwnSteps(logs, i)[a], slot) == Some(a)
  {
    var own := OwnSteps(logs, i)[a];
    StaysOwn(logs, i, a, a);
    OwnAscend(logs, i, a);
    LastOwnIsLast(logs, own, slot, a);
    var p := LastOwn(logs, own, slot).value;
    if p > a {
      OwnSince(logs, i, a, p, i);
    }
  }

  lemma DelegateLast(
    cells: seq<Option<Cell>>, logs: seq<Log>, commits: set<nat>, slot: Word, first: Word, second: Word, a: nat, b: nat,
    i: nat, c: Cell)
    requires DelegateOverwrites(logs, slot, first, second) && DepthTrace(logs) && a == 0 && b == 2 && i == |logs|
    requires |cells| == i && cells[a] == cells[b] == Some(c)
    requires forall j :: 0 <= j < i && j != a && j != b ==> cells[j].None?
    ensures LastSurviving(cells, logs, commits, i, c, if 3 in commits then b else a)
  {
    DelegateWriteSurvivesIff(logs, slot, first, second, commits, b, i);
    StaysOwn(logs, i, a, a);
    OwnWriteSurvives(logs, commits, i, a, a);
  }

  lemma {:induction false} DelegateStorage(
    config: Config, logs: seq<Log>, commits: set<nat>, slot: Word, first: Word, second: Word, a: nat, b: nat, i: nat)
    requires DelegateOverwrites(logs, slot, first, second) && DepthTrace(logs) && a == 0 && b == 2 && i == |logs|
    ensures var c, now := Cell(config.entry, slot), StorageAt(Cells(config, logs), logs, commits, i);
            c in now && now[c] == if 3 in commits then b else a
  {
    var cells, c := Cells(config, logs), Cell(config.entry, slot);
    DelegateCells(config, logs, slot, first, second, a, b);
    DelegateLast(cells, logs, commits, slot, first, second, a, b, i, c);
    StorageIsLastSurviving(cells, logs, commits, i, c);
  }

  lemma DelegateCaches(
    config: Config, logs: seq<Log>, states: seq<State>, slot: U64, first: Word, second: Word, a: nat, i: nat)
    requires DelegateOverwrites(logs, slot, first, second) && DepthTrace(logs) && IsRun(config, logs, states)
    requires a == 0 && i == |logs| && a < |states[i].frames|
    requires FrameView(config, states[i].frames[a]).layout.Some?
    ensures HasFrame(states[i], a) && slot in states[i].slotValues[a] && states[i].slotValues[a][slot] == first
  {
    DelegateOwnWrite(logs, slot, first, second, a, i);
    SlotsOfFrame(config, logs, states, i, a);
    LastOwnIsLastWrite(logs, OwnSteps(logs, i)[a], slot);
  }

  /** The failing input: after a delegate overwrote the slot and ended with success, the caller's cache holds
      its own older word; when the delegate failed, the cache is right. */
  lemma {:induction false} StaleAfterDelegatecall(
    config: Config, logs: seq<Log>, states: seq<State>, commits: set<nat>, slot: U64, first: Word, second: Word,
    i: nat)
    requires DelegateOverwrites(logs, slot, first, second) && IsRun(config, logs, states) && i == |logs|
    requires states[i].frames != [] && FrameView(config, states[i].frames[0]).layout.Some?
    ensures DepthTrace(logs) && |states[i].slotValues| > 0
    ensures slot in states[i].slotValues[0] && states[i].slotValues[0][slot] == first
    ensures var c, now := Cell(config.entry, slot), StorageAt(Cells(config, logs), logs, commits, i);
            c in now && now[c] < i && WordOf(logs, now[c]) == if 3 in commits then second else first
  {
    var a, b := 0, 2;
    DelegateStorage(config, logs, commits, slot, first, second, a, b, i);
    DelegateCaches(config, logs, states, slot, first, second, a, i);
  }
}
