/** From program counters to instruction numbers (src/source_map.rs, build_pc_to_instruction_index). */
module PcIndex {
  import opened Basics

  /** Bytes an instruction occupies: PUSH1..PUSH32 carry 1..32 bytes of data. */
  function InstructionLength(op: byte): (r: nat)
    ensures 1 <= r <= 33
  {
    if 0x60 <= op <= 0x7f then op - 0x60 + 2 else 1
  }

  datatype Instruction = Instruction(start: nat, end: nat)

  /** The linear disassembly from `pc`; a PUSH cut off by the end of the code is shorter. */
  function Disassembly(code: seq<byte>, pc: nat): seq<Instruction>
    decreases |code| - pc
  {
    if |code| <= pc then []
    else
      var next := pc + InstructionLength(code[pc]);
      [Instruction(pc, Min(next, |code|))] + Disassembly(code, next)
  }

  /** Instructions of the disassembly lie one after the other and cover the code from `pc` on. */
  lemma {:induction false} DisassemblyTiles(code: seq<byte>, pc: nat)
    ensures var d := Disassembly(code, pc);
            && (forall k :: 0 <= k < |d| ==> pc <= d[k].start < d[k].end <= |code|)
            && (forall k :: 0 <= k < |d| - 1 ==> d[k].end == d[k + 1].start)
            && (if pc < |code| then d != [] && d[0].start == pc && d[|d| - 1].end == |code| else d == [])
    decreases |code| - pc
  {
    if pc >= |code| {
    } else {
      DisassemblyTiles(code, pc + InstructionLength(code[pc]));
    }
  }

  lemma {:induction false} InstructionsAscend(code: seq<byte>, i: nat, j: nat)
    requires i < j < |Disassembly(code, 0)|
    ensures Disassembly(code, 0)[i].end <= Disassembly(code, 0)[j].start
    decreases j
  {
    DisassemblyTiles(code, 0);
    if i == j - 1 {
    } else {
      InstructionsAscend(code, i, j - 1);
    }
  }

  predicate Holds(d: seq<Instruction>, k: nat, pc: nat) {
    k < |d| && d[k].start <= pc < d[k].end
  }

  /** Every byte of the code is mapped to the instruction it belongs to. */
  ghost predicate MapsToInstructions(code: seq<byte>, pcToIdx: seq<nat>) {
    && |pcToIdx| == |code|
    && forall pc :: 0 <= pc < |code| ==> Holds(Disassembly(code, 0), pcToIdx[pc], pc)
  }

  /** The head of the remaining disassembly is instruction number `idx` of the whole. */
  lemma NextInstruction(code: seq<byte>, pc: nat, idx: nat)
    requires pc < |code| && idx <= |Disassembly(code, 0)| && Disassembly(code, 0)[idx..] == Disassembly(code, pc)
    ensures var d, next := Disassembly(code, 0), pc + InstructionLength(code[pc]);
            idx < |d| && d[idx] == Instruction(pc, Min(next, |code|)) && d[idx + 1..] == Disassembly(code, next)
  {
    var d := Disassembly(code, 0);
    assert d[idx..][0] == d[idx] && d[idx..][1..] == d[idx + 1..];
  }

  method BuildPcToInstructionIndex(code: seq<byte>) returns (pcToIdx: array<nat>)
    ensures fresh(pcToIdx) && MapsToInstructions(code, pcToIdx[..])
  {
    pcToIdx := new nat[|code|](_ => 0);
    ghost var d := Disassembly(code, 0);
    var pc, idx := 0, 0;
    while pc < |code|
      invariant idx <= |d| && d[idx..] == Disassembly(code, pc)
      invariant forall p :: 0 <= p < pc && p < |code| ==> Holds(d, pcToIdx[p], p)
    {
      NextInstruction(code, pc, idx);
      assert forall p :: pc <= p < pc + InstructionLength(code[pc]) && p < |code| ==> Holds(d, idx, p);
      pcToIdx[pc] := idx;
      var opcode := code[pc];
      if 0x60 <= opcode <= 0x7f {
        var pushBytes := opcode - 0x60 + 1;
        for offset := 1 to pushBytes + 1
          invariant forall p :: 0 <= p < pc + offset && p < |code| ==> Holds(d, pcToIdx[p], p)
        {
          if pc + offset < |code| {
            pcToIdx[pc + offset] := idx;
          }
        }
        pc := pc + 1 + pushBytes;
      } else {
        pc := pc + 1;
      }
      idx := idx + 1;
    }
  }

  /** The index equals the disassembly: a pc has number k exactly when it lies in the k-th
      instruction, so data bytes share their PUSH's number; the numbers start at 0, never
      decrease, and grow by at most one per byte. */
  lemma {:induction false} IndexEqualsDisassembly(code: seq<byte>, pcToIdx: seq<nat>)
    requires MapsToInstructions(code, pcToIdx)
    ensures var d := Disassembly(code, 0);
            && (forall pc, k :: 0 <= pc < |code| && 0 <= k < |d| ==>
               (pcToIdx[pc] == k <==> d[k].start <= pc < d[k].end))
            && (code != [] ==> pcToIdx[0] == 0)
            && (forall pc :: 0 <= pc < |code| - 1 ==> pcToIdx[pc] <= pcToIdx[pc + 1] <= pcToIdx[pc] + 1)
  {
    var d := Disassembly(code, 0);
    DisassemblyTiles(code, 0);
    forall pc, k | 0 <= pc < |code| && 0 <= k < |d| ensures pcToIdx[pc] == k <==> d[k].start <= pc < d[k].end {
      var m := pcToIdx[pc];
      if m < k {
        InstructionsAscend(code, m, k);
      } else if k < m {
        InstructionsAscend(code, k, m);
      }
    }
    forall pc | 0 <= pc < |code| - 1 ensures pcToIdx[pc] <= pcToIdx[pc + 1] <= pcToIdx[pc] + 1 {
      var m, n := pcToIdx[pc], pcToIdx[pc + 1];
      if n < m {
        InstructionsAscend(code, n, m);
      } else if m + 1 < n {
        InstructionsAscend(code, m, m + 1);
        InstructionsAscend(code, m + 1, n);
      }
    }
  }

  // ---- whole programs ---------------------------------------------------------------------------------

  /** An instruction as an assembler writes it: an opcode, and 1 to 32 bytes of data for PUSH1..PUSH32. */
  datatype Assembled = Plain(op: byte) | Push(data: seq<byte>)

  predicate Encodable(a: Assembled) {
    match a
    case Plain(op) => !(0x60 <= op <= 0x7f)
    case Push(data) => 1 <= |data| <= 32
  }

  function Code(a: Assembled): (r: seq<byte>)
    requires Encodable(a)
    ensures r != []
  {
    match a
    case Plain(op) => [op]
    case Push(data) => [0x5f + |data|] + data
  }

  predicate AllEncodable(program: seq<Assembled>) {
    forall k :: 0 <= k < |program| ==> Encodable(program[k])
  }

  function Program(program: seq<Assembled>): seq<byte>
    requires AllEncodable(program)
  {
    if program == [] then [] else Code(program[0]) + Program(program[1..])
  }

  /** Where instruction `k` begins. */
  function StartOf(program: seq<Assembled>, k: nat): nat
    requires AllEncodable(program) && k <= |program|
  {
    if k == 0 then 0 else |Code(program[0])| + StartOf(program[1..], k - 1)
  }

  lemma CodeLength(a: Assembled)
    requires Encodable(a)
    ensures InstructionLength(Code(a)[0]) == |Code(a)|
  {
  }

  /** One assembled instruction between other code is disassembled as one. */
  lemma {:induction false} OneInstruction(before: seq<byte>, a: Assembled, behind: seq<byte>)
    requires Encodable(a)
    ensures var code, next := before + Code(a) + behind, |before| + |Code(a)|;
            Disassembly(code, |before|) == [Instruction(|before|, next)] + Disassembly(code, next)
  {
    var code := before + Code(a) + behind;
    CodeLength(a);
    assert code[|before|] == Code(a)[0];
  }

  lemma {:induction false} ProgramHead(before: seq<byte>, program: seq<Assembled>)
    requires AllEncodable(program) && program != []
    ensures var first, code := Code(program[0]), before + Program(program);
            && code == before + first + Program(program[1..])
            && Disassembly(code, |before|)
               == [Instruction(|before|, |before + first|)] + Disassembly(code, |before + first|)
  {
    var first, rest := Code(program[0]), Program(program[1..]);
    assert Program(program) == first + rest;
    assert before + (first + rest) == before + first + rest;
    OneInstruction(before, program[0], rest);
  }

  predicate DisassembledAt(d: seq<Instruction>, k: nat, start: nat, length: nat) {
    k < |d| && d[k] == Instruction(start, start + length)
  }

  /** Disassembling behind some code gives one instruction for each that was assembled. */
  lemma {:induction false} ProgramDisassembles(before: seq<byte>, program: seq<Assembled>, k: nat)
    requires AllEncodable(program) && k < |program|
    ensures DisassembledAt(Disassembly(before + Program(program), |before|), k, |before| + StartOf(program, k),
                           |Code(program[k])|)
    decreases |program|
  {
    ProgramHead(before, program);
    if k > 0 {
      var first, rest, j := Code(program[0]), program[1..], k - 1;
      ProgramDisassembles(before + first, rest, j);
      assert program[k] == rest[j] && StartOf(program, k) == |first| + StartOf(rest, j);
    }
  }

  /** The index of an assembled program: every byte of instruction `k`, its data included, has number `k`. */
  lemma {:induction false} ProgramIndex(program: seq<Assembled>, pcToIdx: seq<nat>, k: nat, pc: nat)
    requires AllEncodable(program) && MapsToInstructions(Program(program), pcToIdx) && k < |program|
    requires StartOf(program, k) <= pc < StartOf(program, k) + |Code(program[k])|
    ensures pc < |pcToIdx| && pcToIdx[pc] == k
  {
    assert [] + Program(program) == Program(program);
    ProgramDisassembles([], program, k);
    DisassemblyTiles(Program(program), 0);
    IndexEqualsDisassembly(Program(program), pcToIdx);
  }
}
