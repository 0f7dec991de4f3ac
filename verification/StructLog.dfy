/** One entry of the step trace, and what the source maps say about it. */
module StructLog {
  import opened Basics
  import opened SolidityAst
  import opened SourceMap

  /** `op` is the opcode byte of the mnemonic, `None` for an unknown mnemonic. The stack and the
      memory are those before the opcode executes; a tracer may omit them. */
  datatype Log = Log(depth: nat, pc: nat, op: Option<byte>, stack: Option<seq<Word>>, memory: Option<seq<string>>) {
    function StackOrEmpty(): seq<Word> {
      if stack.Some? then stack.value else []
    }
  }

  /** The source facts at a step: the byte offset of its entry, whether it resolves to a line, whether
      that line lies in a known function and which variables are visible there, the jump marker of the
      entry, and the function that an internal call at this step was resolved to. */
  datatype Site = Site(offset: Option<I32>, located: bool, inFunction: bool, vars: seq<VarDecl>,
    jump: JumpType, target: Option<FunctionDef>)

  const NOWHERE := Site(None, false, false, [], Regular, None)

  const OP_KECCAK256: byte := 0x20
  const OP_SSTORE: byte := 0x55
  const OP_CREATE: byte := 0xf0
  const OP_CALL: byte := 0xf1
  const OP_CALLCODE: byte := 0xf2
  const OP_DELEGATECALL: byte := 0xf4
  const OP_CREATE2: byte := 0xf5
  const OP_STATICCALL: byte := 0xfa
  const OP_REVERT: byte := 0xfd

  /** The trace events that these parts of the recorder write. */
  datatype Event =
    | RegisterCall
    | RegisterReturn
    | RegisterArg(name: string, value: Word)
    | RevertCaught(message: string)

  /** `while v.len() < n { v.push(x) }`. */
  function Grown<T>(s: seq<T>, n: nat, x: T): (r: seq<T>)
    ensures |r| == Max(|s|, n) && s <= r
    ensures forall i :: |s| <= i < |r| ==> r[i] == x
    decreases n - |s|
  {
    if n <= |s| then s else Grown(s + [x], n, x)
  }

  /** The step before step `i`, and the depth the loops start step `i` with. */
  function Previous(logs: seq<Log>, i: nat): Option<Log>
    requires i <= |logs|
  {
    if i == 0 then None else Some(logs[i - 1])
  }

  function PreviousDepth(logs: seq<Log>, i: nat): nat
    requires i <= |logs|
  {
    if i == 0 then 1 else logs[i - 1].depth
  }

  /** Depths of an EVM trace: it starts in one frame and enters at most one more per step. */
  predicate DepthTrace(logs: seq<Log>) {
    forall i :: 0 <= i < |logs| ==> 1 <= logs[i].depth <= DepthCap(logs, i)
  }

  function DepthCap(logs: seq<Log>, i: nat): nat
    requires i < |logs|
  {
    if i == 0 then 1 else logs[i - 1].depth + 1
  }

  /** Events that are neither calls nor returns removed. */
  function CallsOf(events: seq<Event>): seq<Event> {
    if events == [] then []
    else
      var last := events[|events| - 1];
      CallsOf(events[..|events| - 1]) + if last.RegisterCall? || last.RegisterReturn? then [last] else []
  }

  lemma {:induction false} CallsOfConcat(a: seq<Event>, b: seq<Event>)
    ensures CallsOf(a + b) == CallsOf(a) + CallsOf(b)
  {
    if b == [] {
      assert a + b == a;
    } else {
      CallsOfConcat(a, b[..|b| - 1]);
      assert (a + b)[..|a + b| - 1] == a + b[..|b| - 1];
    }
  }
}
