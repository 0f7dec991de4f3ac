/** The EVM's own storage along a trace: who writes which word, and what frames that fail take back. */
module EvmStorage {
  import opened Basics
  import opened StructLog
  import opened TraceStacks
  import FrameRecorder
  import opened FrameAccounts

  /** One word of an account's storage. */
  datatype Cell = Cell(account: Address, slot: Word)

  /** Slot and word of an SSTORE. */
  function Sstore(log: Log): Option<(Word, Word)> {
    var stack := log.StackOrEmpty();
    if log.op == Some(0x55) && 2 <= |stack| then Some((stack[|stack| - 1], stack[|stack| - 2])) else None
  }

  /** The cell that step `k` writes. */
  function CellOf(config: FrameRecorder.Config, logs: seq<Log>, k: nat): Option<Cell>
    requires DepthTrace(logs) && k < |logs|
  {
    var written := Sstore(logs[k]);
    if written.Some? then Some(Cell(Accounts(config, logs, k + 1)[logs[k].depth - 1].storage, written.value.0))
    else None
  }

  function Cells(config: FrameRecorder.Config, logs: seq<Log>): (r: seq<Option<Cell>>)
    requires DepthTrace(logs)
    ensures |r| == |logs|
  {
    seq(|logs|, k requires 0 <= k < |logs| => CellOf(config, logs, k))
  }

  /** The word that step `k` writes. */
  function WordOf(logs: seq<Log>, k: nat): Word
    requires k < |logs|
  {
    if Sstore(logs[k]).Some? then Sstore(logs[k]).value.1 else 0
  }

  /** The first step of each open frame. */
  function Begins(logs: seq<Log>, i: nat): (r: seq<nat>)
    requires DepthTrace(logs) && i <= |logs|
    ensures |r| == |Latest(logs, i)|
    ensures forall e :: 0 <= e < |r| ==> r[e] < i
    ensures forall e, f :: 0 <= e < f < |r| ==> r[e] < r[f]
  {
    if i == 0 then []
    else
      var before, d := Begins(logs, i - 1), logs[i - 1].depth;
      if d > |before| then before + [i - 1] else before[..d]
  }

  lemma {:induction false} StacksNext(logs: seq<Log>, k: nat, i: nat)
    requires DepthTrace(logs) && k + 1 == i <= |logs|
    ensures var d, before, began := logs[k].depth, Latest(logs, k), Begins(logs, k);
            && d <= |before| + 1
            && Latest(logs, i) == before[..d - 1] + [k]
            && Begins(logs, i) == if d > |began| then began + [k] else began[..d]
  {
  }

  /** The outermost frame from `d` on whose latest step does not end it with success. */
  function FirstFailed(latest: seq<nat>, commits: set<nat>, d: nat): (r: Option<nat>)
    ensures r.Some? ==> d <= r.value < |latest| && latest[r.value] !in commits
    ensures forall e :: d <= e < |latest| && (r.Some? ==> e < r.value) ==> latest[e] in commits
    decreases |latest| - d
  {
    if d >= |latest| then None
    else if latest[d] !in commits then Some(d)
    else FirstFailed(latest, commits, d + 1)
  }

  /** The step before which the storage is that of step `k`: when frames end, all that the outermost failing
      one and its sub-calls did is taken back. */
  function Base(logs: seq<Log>, commits: set<nat>, k: nat): (r: nat)
    requires DepthTrace(logs) && k < |logs|
    ensures r <= k
  {
    var failed := FirstFailed(Latest(logs, k), commits, logs[k].depth);
    if failed.Some? then Begins(logs, k)[failed.value] else k
  }

  function Updated(now: map<Cell, nat>, written: Option<Cell>, k: nat): map<Cell, nat> {
    if written.Some? then now[written.value := k] else now
  }

  /** The storage after `i` steps, each written cell by the step whose word it holds. `commits` are the steps
      that end their frame with success. */
  function StorageAt(cells: seq<Option<Cell>>, logs: seq<Log>, commits: set<nat>, i: nat): map<Cell, nat>
    requires |cells| == |logs| && DepthTrace(logs) && i <= |logs|
    decreases i, 0
  {
    if i == 0 then map[] else StorageStep(cells, logs, commits, i - 1)
  }

  /** The storage after step `k`. */
  function StorageStep(cells: seq<Option<Cell>>, logs: seq<Log>, commits: set<nat>, k: nat): map<Cell, nat>
    requires |cells| == |logs| && DepthTrace(logs) && k < |logs|
    decreases k, 1
  {
    Updated(StorageAt(cells, logs, commits, Base(logs, commits, k)), cells[k], k)
  }

  // ---- which writes survive -------------------------------------------------------------------------------

  /** Step `j` finds frame `e` ended, and its latest step did not end it with success. */
  predicate Fails(logs: seq<Log>, commits: set<nat>, j: nat, e: nat)
    requires DepthTrace(logs) && j < |logs|
  {
    logs[j].depth <= e < |Latest(logs, j)| && Latest(logs, j)[e] !in commits
  }

  /** If that happens, the frame began after step `k`. */
  predicate Spares(logs: seq<Log>, commits: set<nat>, j: nat, e: nat, k: nat)
    requires DepthTrace(logs) && j < |logs|
  {
    Fails(logs, commits, j, e) ==> k < Begins(logs, j)[e]
  }

  /** No frame that was open at step `k` has failed before step `i`. */
  ghost predicate Survives(logs: seq<Log>, commits: set<nat>, k: nat, i: nat)
    requires DepthTrace(logs) && i <= |logs|
  {
    forall j: nat, e: nat :: k < j < i ==> Spares(logs, commits, j, e, k)
  }

  /** `q` is the last write of the cell that no failing frame has taken back. */
  ghost predicate LastSurviving(
    cells: seq<Option<Cell>>, logs: seq<Log>, commits: set<nat>, i: nat, c: Cell, q: nat)
    requires |cells| == |logs| && DepthTrace(logs) && i <= |logs|
  {
    && q < i && cells[q] == Some(c) && Survives(logs, commits, q, i)
    && forall j :: q < j < i && cells[j] == Some(c) ==> !Survives(logs, commits, j, i)
  }

  ghost predicate NoneSurvives(cells: seq<Option<Cell>>, logs: seq<Log>, commits: set<nat>, i: nat, c: Cell)
    requires |cells| == |logs| && DepthTrace(logs) && i <= |logs|
  {
    forall j :: 0 <= j < i && cells[j] == Some(c) ==> !Survives(logs, commits, j, i)
  }

  /** A frame open at `k` that began with step `b` was open all along. */
  lemma {:induction false} OpenSince(logs: seq<Log>, b: nat, f: nat, j: nat, k: nat)
    requires DepthTrace(logs) && b < j <= k <= |logs| && f < |Begins(logs, k)| && Begins(logs, k)[f] == b
    ensures f < |Begins(logs, j)| && Begins(logs, j)[f] == b && (j < k ==> f < logs[j].depth)
    decreases k
  {
    if j < k {
      OpenSince(logs, b, f, j, k - 1);
    }
  }

  /** The first step of a frame ends none. */
  lemma {:induction false} BeginsRaise(logs: seq<Log>, b: nat, f: nat, k: nat)
    requires DepthTrace(logs) && b < k <= |logs| && f < |Begins(logs, k)| && Begins(logs, k)[f] == b
    ensures logs[b].depth > |Latest(logs, b)|
  {
    OpenSince(logs, b, f, b + 1, k);
    assert Begins(logs, b + 1)[f] == b;
  }

  /** Without a failure at step `k`, the writes before it survive it. */
  lemma SurvivesStep(logs: seq<Log>, commits: set<nat>, j: nat, k: nat)
    requires DepthTrace(logs) && j < k < |logs| && FirstFailed(Latest(logs, k), commits, logs[k].depth).None?
    ensures Survives(logs, commits, j, k + 1) <==> Survives(logs, commits, j, k)
  {
    assert forall e: nat :: Spares(logs, commits, k, e, j);
  }

  /** While frame `f` is open, only frames that began later end. */
  lemma {:induction false} InnerBeginLater(logs: seq<Log>, b: nat, f: nat, x: nat, e: nat)
    requires DepthTrace(logs) && x <= |logs| && f <= e < |Begins(logs, x)| && Begins(logs, x)[f] == b
    ensures b <= Begins(logs, x)[e]
  {
  }

  lemma {:induction false} FailingFrameSpares(
    logs: seq<Log>, commits: set<nat>, j: nat, k: nat, f: nat, b: nat, x: nat, e: nat)
    requires DepthTrace(logs) && k < |logs| && FirstFailed(Latest(logs, k), commits, logs[k].depth) == Some(f)
    requires b == Begins(logs, k)[f] && j < b <= x <= k
    ensures Spares(logs, commits, x, e, j)
  {
    if Fails(logs, commits, x, e) {
      if x == b {
        BeginsRaise(logs, b, f, k);
        assert false;
      } else {
        OpenSince(logs, b, f, x, k);
        InnerBeginLater(logs, b, f, x, e);
      }
    }
  }

  /** A failure takes back exactly what was written since the failing frame began. */
  lemma {:induction false} SurvivesFailure(logs: seq<Log>, commits: set<nat>, j: nat, k: nat, f: nat, b: nat)
    requires DepthTrace(logs) && j < k < |logs| && FirstFailed(Latest(logs, k), commits, logs[k].depth) == Some(f)
    requires b == Begins(logs, k)[f]
    ensures Survives(logs, commits, j, k + 1) <==> j < b && Survives(logs, commits, j, b)
  {
    if j < b {
      forall x: nat, e: nat | b <= x <= k ensures Spares(logs, commits, x, e, j) {
        FailingFrameSpares(logs, commits, j, k, f, b, x, e);
      }
    } else {
      assert !Spares(logs, commits, k, f, j);
    }
  }

  lemma SurvivesBase(logs: seq<Log>, commits: set<nat>, j: nat, k: nat, i: nat)
    requires DepthTrace(logs) && j < k && k + 1 == i <= |logs|
    ensures var b := Base(logs, commits, k); Survives(logs, commits, j, i) <==> j < b && Survives(logs, commits, j, b)
  {
    var failed := FirstFailed(Latest(logs, k), commits, logs[k].depth);
    if failed.Some? {
      SurvivesFailure(logs, commits, j, k, failed.value, Begins(logs, k)[failed.value]);
    } else {
      SurvivesStep(logs, commits, j, k);
    }
  }

  lemma NewestSurvives(
    cells: seq<Option<Cell>>, logs: seq<Log>, commits: set<nat>, k: nat, i: nat, c: Cell)
    requires |cells| == |logs| && DepthTrace(logs) && k + 1 == i <= |logs| && cells[k] == Some(c)
    ensures LastSurviving(cells, logs, commits, i, c, k)
  {
  }

  lemma OlderSurvives(
    cells: seq<Option<Cell>>, logs: seq<Log>, commits: set<nat>, b: nat, k: nat, i: nat, c: Cell, q: nat)
    requires |cells| == |logs| && DepthTrace(logs) && k + 1 == i <= |logs| && cells[k] != Some(c)
             && b == Base(logs, commits, k)
    requires LastSurviving(cells, logs, commits, b, c, q)
    ensures LastSurviving(cells, logs, commits, i, c, q)
  {
    SurvivesBase(logs, commits, q, k, i);
    forall j | q < j < i && cells[j] == Some(c) ensures !Survives(logs, commits, j, i) {
      SurvivesBase(logs, commits, j, k, i);
    }
  }

  lemma StillNoneSurvives(
    cells: seq<Option<Cell>>, logs: seq<Log>, commits: set<nat>, b: nat, k: nat, i: nat, c: Cell)
    requires |cells| == |logs| && DepthTrace(logs) && k + 1 == i <= |logs| && cells[k] != Some(c)
             && b == Base(logs, commits, k)
    requires NoneSurvives(cells, logs, commits, b, c)
    ensures NoneSurvives(cells, logs, commits, i, c)
  {
    forall j | 0 <= j < i && cells[j] == Some(c) ensures !Survives(logs, commits, j, i) {
      SurvivesBase(logs, commits, j, k, i);
    }
  }

  lemma {:induction false} StorageUnfolds(
    cells: seq<Option<Cell>>, logs: seq<Log>, commits: set<nat>, k: nat, i: nat)
    requires |cells| == |logs| && DepthTrace(logs) && k + 1 == i <= |logs|
    ensures StorageAt(cells, logs, commits, i) == StorageStep(cells, logs, commits, k)
  {
    assert StorageAt(cells, logs, commits, k + 1) == StorageStep(cells, logs, commits, k);
  }

  lemma {:induction false} StorageNext(
    cells: seq<Option<Cell>>, logs: seq<Log>, commits: set<nat>, k: nat, i: nat, c: Cell)
    requires |cells| == |logs| && DepthTrace(logs) && k + 1 == i <= |logs|
    ensures var before, now :=
            StorageAt(cells, logs, commits, Base(logs, commits, k)), StorageAt(cells, logs, commits, i);
            if cells[k] == Some(c) then c in now && now[c] == k
            else (c in now <==> c in before) && (c in now ==> now[c] == before[c])
  {
    StorageUnfolds(cells, logs, commits, k, i);
  }

  /** Rolling back to where failing frames began leaves, of all writes of a cell, exactly the last one made
      outside every frame that failed since. */
  lemma {:induction false} StorageIsLastSurviving(
    cells: seq<Option<Cell>>, logs: seq<Log>, commits: set<nat>, i: nat, c: Cell)
    requires |cells| == |logs| && DepthTrace(logs) && i <= |logs|
    ensures var now := StorageAt(cells, logs, commits, i);
            if c in now then LastSurviving(cells, logs, commits, i, c, now[c])
            else NoneSurvives(cells, logs, commits, i, c)
    decreases i
  {
    if i == 0 {
    } else {
      var k := i - 1;
      var b := Base(logs, commits, k);
      var before := StorageAt(cells, logs, commits, b);
      StorageIsLastSurviving(cells, logs, commits, b, c);
      StorageNext(cells, logs, commits, k, i, c);
      if cells[k] == Some(c) {
        NewestSurvives(cells, logs, commits, k, i, c);
      } else if c in before {
        OlderSurvives(cells, logs, commits, b, k, i, c, before[c]);
      } else {
        StillNoneSurvives(cells, logs, commits, b, k, i, c);
      }
    }
  }

  // ---- an open frame's own writes ---------------------------------------------------------------------------

  predicate IsOwn(logs: seq<Log>, i: nat, e: nat, p: nat)
    requires DepthTrace(logs) && i <= |logs|
  {
    e < PreviousDepth(logs, i) && p in OwnSteps(logs, i)[e]
  }

  /** An own step of an open frame: made at its depth, with the frame open ever since. */
  lemma {:induction false} OwnSince(logs: seq<Log>, i: nat, e: nat, p: nat, j: nat)
    requires DepthTrace(logs) && p < j <= i <= |logs| && IsOwn(logs, i, e, p)
    ensures IsOwn(logs, j, e, p) && logs[p].depth == e + 1 && (j < i ==> e < logs[j].depth)
    decreases i
  {
    var k := i - 1;
    OwnBefore(logs, k, i, e, p);
    if j < i {
      OwnSince(logs, k, e, p, j);
    } else if p < k {
      OwnSince(logs, k, e, p, k);
    }
  }

  lemma OwnBefore(logs: seq<Log>, k: nat, i: nat, e: nat, p: nat)
    requires DepthTrace(logs) && k + 1 == i <= |logs| && IsOwn(logs, i, e, p)
    ensures e < logs[k].depth && p < i
    ensures if p == k then e + 1 == logs[k].depth else IsOwn(logs, k, e, p)
  {
    assert Within(OwnSteps(logs, i)[e], i);
    var before, d := OwnSteps(logs, k), logs[k].depth;
    if e < d - 1 {
      assert OwnSteps(logs, i)[e] == before[e] && Within(before[e], k);
    }
  }

  /** Conversely, a step is its frame's own as long as the trace stays at its depth or below it. */
  lemma {:induction false} StaysOwn(logs: seq<Log>, i: nat, e: nat, p: nat)
    requires DepthTrace(logs) && p < i <= |logs| && logs[p].depth == e + 1
    requires forall j :: p < j < i ==> e < logs[j].depth
    ensures IsOwn(logs, i, e, p)
    decreases i
  {
    var k := i - 1;
    OwnStepsNext(logs, k, i);
    if p < k {
      StaysOwn(logs, k, e, p);
      KeptOwn(logs, k, i, e, p);
    }
  }

  lemma KeptOwn(logs: seq<Log>, k: nat, i: nat, e: nat, p: nat)
    requires DepthTrace(logs) && k + 1 == i <= |logs| && IsOwn(logs, k, e, p) && e < logs[k].depth
    ensures IsOwn(logs, i, e, p)
  {
    OwnStepsNext(logs, k, i);
    var before := OwnSteps(logs, k);
    if e + 1 == logs[k].depth {
      assert p in before[e] + [k];
    }
  }

  lemma {:induction false} DeeperStep(logs: seq<Log>, k: nat, i: nat, p: nat, f: nat)
    requires DepthTrace(logs) && k + 1 == i <= |logs| && p < k && f < |Begins(logs, i)|
    requires f < |Begins(logs, k)| ==> p < Begins(logs, k)[f]
    ensures p < Begins(logs, i)[f]
  {
    StacksNext(logs, k, i);
  }

  /** Deeper frames that are still open began later. */
  lemma {:induction false} DeeperBeginLater(logs: seq<Log>, i: nat, e: nat, p: nat, f: nat)
    requires DepthTrace(logs) && i <= |logs| && IsOwn(logs, i, e, p) && e < f < |Begins(logs, i)|
    ensures p < Begins(logs, i)[f]
    decreases i
  {
    if i > 0 {
      var k := i - 1;
      OwnBefore(logs, k, i, e, p);
      if p < k {
        if f < |Begins(logs, k)| {
          DeeperBeginLater(logs, k, e, p, f);
        }
        DeeperStep(logs, k, i, p, f);
      }
    }
  }

  /** What an open frame wrote is never taken back. */
  lemma OwnWriteSurvives(logs: seq<Log>, commits: set<nat>, i: nat, e: nat, p: nat)
    requires DepthTrace(logs) && p < i <= |logs| && IsOwn(logs, i, e, p)
    ensures Survives(logs, commits, p, i)
  {
    forall j: nat, f: nat | p < j < i ensures Spares(logs, commits, j, f, p) {
      if Fails(logs, commits, j, f) {
        OwnSince(logs, i, e, p, j);
        DeeperBeginLater(logs, j, e, p, f);
      }
    }
  }

  /** A frame runs on one storage. */
  lemma {:induction false} OwnAccount(config: FrameRecorder.Config, logs: seq<Log>, i: nat, e: nat, p: nat)
    requires DepthTrace(logs) && p < i <= |logs| && IsOwn(logs, i, e, p)
    ensures logs[p].depth == e + 1 && Accounts(config, logs, p + 1)[e] == Accounts(config, logs, i)[e]
    decreases i
  {
    var k := i - 1;
    OwnBefore(logs, k, i, e, p);
    if p < k {
      OwnAccount(config, logs, k, e, p);
    }
  }
}
