/** How the EVM itself moves its operand stack, stated independently of the recorder:
    the removed and added item counts (delta and alpha) of Appendix H.2 of the Ethereum
    Yellow Paper, with the Cancun opcodes of EIP-1153, EIP-4844, EIP-5656 and EIP-7516. */
module EvmStack {
  import opened Basics

  predicate IsPush(op: byte) { 0x5f <= op <= 0x7f }
  predicate IsDup(op: byte) { 0x80 <= op <= 0x8f }
  predicate IsSwap(op: byte) { 0x90 <= op <= 0x9f }
  predicate IsLog(op: byte) { 0xa0 <= op <= 0xa4 }

  /** Opcodes that execute. 0xfe (INVALID) and the unassigned bytes halt the frame. */
  predicate Defined(op: byte) {
    || op <= 0x0b
    || 0x10 <= op <= 0x1d
    || op == 0x20
    || 0x30 <= op <= 0x4a
    || 0x50 <= op <= 0xa4
    || 0xf0 <= op <= 0xf5
    || op in {0xfa, 0xfd, 0xff}
  }

  /** delta: items taken from the stack. */
  function Removed(op: byte): nat {
    if !Defined(op) then 0
    else if IsDup(op) then op - 0x7f
    else if IsSwap(op) then op - 0x8e
    else if IsLog(op) then op - 0xa0 + 2
    else if op in {0xf1, 0xf2} then 7
    else if op in {0xf4, 0xfa} then 6
    else if op in {0x3c, 0xf5} then 4
    else if op in {0x08, 0x09, 0x37, 0x39, 0x3e, 0x5e, 0xf0} then 3
    else if op in {0x15, 0x19, 0x31, 0x35, 0x3b, 0x3f, 0x40, 0x49, 0x50, 0x51, 0x54, 0x56, 0x5c, 0xff} then 1
    else if 0x01 <= op <= 0x20 || op in {0x52, 0x53, 0x55, 0x57, 0x5d, 0xf3, 0xfd} then 2
    else 0
  }

  /** alpha: items put back on the stack. */
  function Added(op: byte): nat {
    if !Defined(op) then 0
    else if IsDup(op) then op - 0x7f + 1
    else if IsSwap(op) then op - 0x8e
    else if IsLog(op) then 0
    else if op in {0x00, 0x37, 0x39, 0x3c, 0x3e, 0x50, 0x52, 0x53, 0x55, 0x56, 0x57, 0x5b,
      0x5d, 0x5e, 0xf3, 0xfd, 0xff} then 0
    else 1
  }

  function Swapped<T>(s: seq<T>, i: nat, j: nat): (r: seq<T>)
    requires i < |s| && j < |s|
    ensures |r| == |s|
  {
    s[i := s[j]][j := s[i]]
  }

  /** One executed opcode takes the operand stack from `pre` to `post` (bottom first).
      Words computed by the opcode are unconstrained; moved words are not. */
  ghost predicate Executes(op: byte, pre: seq<Word>, post: seq<Word>) {
    && Defined(op)
    && Removed(op) <= |pre|
    && if IsDup(op) then post == pre + [pre[|pre| - Removed(op)]]
       else if IsSwap(op) then post == Swapped(pre, |pre| - 1, |pre| - Removed(op))
       else && |post| == |pre| - Removed(op) + Added(op)
            && post[..|pre| - Removed(op)] == pre[..|pre| - Removed(op)]
  }

  /** DUP1..DUP16 copy the n-th item from the top; SWAP1..SWAP16 exchange the top with the n-th item below it. */
  lemma MovingOpcodes(n: nat, pre: seq<Word>, post: seq<Word>)
    requires 1 <= n <= 16
    ensures Executes(0x7f + n, pre, post) <==> n <= |pre| && post == pre + [pre[|pre| - n]]
    ensures Executes(0x8f + n, pre, post)
            <==> && n < |pre| == |post| && post[|pre| - 1] == pre[|pre| - 1 - n]
                 && post[|pre| - 1 - n] == pre[|pre| - 1]
                 && forall i :: 0 <= i < |pre| - 1 && i != |pre| - 1 - n ==> post[i] == pre[i]
  {
  }

  /** PUSH0..PUSH32 and the opcodes that only read the environment put one item on the stack. */
  lemma NullaryArities(op: byte)
    ensures (0x5f <= op <= 0x7f  // PUSH0..PUSH32
             || op in {0x30, 0x32, 0x33, 0x34, 0x36, 0x38, 0x3a, 0x3d}  // ADDRESS ORIGIN CALLER .. GASPRICE
             || op in {0x41, 0x42, 0x43, 0x44, 0x45, 0x46, 0x47, 0x48, 0x4a}  // COINBASE .. BASEFEE BLOBBASEFEE
             || op in {0x58, 0x59, 0x5a})  // PC MSIZE GAS
            <==> Defined(op) && Removed(op) == 0 && Added(op) == 1
    ensures op in {0x00, 0x5b} <==> Defined(op) && Removed(op) == 0 && Added(op) == 0  // STOP JUMPDEST
  {
  }

  /** Opcodes that compute one item from others. */
  lemma ResultArities(op: byte)
    ensures op in {0x15, 0x19, 0x31, 0x35, 0x3b, 0x3f,  // ISZERO NOT BALANCE CALLDATALOAD EXTCODESIZE EXTCODEHASH
                   0x40, 0x49, 0x51, 0x54, 0x5c}  // BLOCKHASH BLOBHASH MLOAD SLOAD TLOAD
            <==> Defined(op) && Removed(op) == 1 && Added(op) == 1
    ensures op in {0x01, 0x02, 0x03, 0x04, 0x05, 0x06, 0x07, 0x0a, 0x0b,  // ADD .. SMOD EXP SIGNEXTEND
                   0x10, 0x11, 0x12, 0x13, 0x14, 0x16, 0x17, 0x18,  // LT GT SLT SGT EQ AND OR XOR
                   0x1a, 0x1b, 0x1c, 0x1d, 0x20}  // BYTE SHL SHR SAR KECCAK256
            <==> Defined(op) && Removed(op) == 2 && Added(op) == 1
    ensures op in {0x08, 0x09, 0xf0}  // ADDMOD MULMOD CREATE
            <==> Defined(op) && Removed(op) == 3 && Added(op) == 1
    ensures op == 0xf5 <==> Defined(op) && Removed(op) == 4 && Added(op) == 1  // CREATE2
    ensures op in {0xf4, 0xfa} <==> Defined(op) && Removed(op) == 6 && Added(op) == 1  // DELEGATECALL STATICCALL
    ensures op in {0xf1, 0xf2} <==> Defined(op) && Removed(op) == 7 && Added(op) == 1  // CALL CALLCODE
  {
  }

  /** Opcodes that only take items. */
  lemma TakingArities(op: byte)
    ensures op in {0x50, 0x56, 0xff} <==> Defined(op) && Removed(op) == 1 && Added(op) == 0  // POP JUMP SELFDESTRUCT
    ensures op in {0x52, 0x53, 0x55, 0x57, 0x5d,  // MSTORE MSTORE8 SSTORE JUMPI TSTORE
                   0xa0, 0xf3, 0xfd}  // LOG0 RETURN REVERT
            <==> Defined(op) && Removed(op) == 2 && Added(op) == 0
    ensures op in {0x37, 0x39, 0x3e, 0x5e, 0xa1}  // CALLDATACOPY CODECOPY RETURNDATACOPY MCOPY LOG1
            <==> Defined(op) && Removed(op) == 3 && Added(op) == 0
    ensures op in {0x3c, 0xa2} <==> Defined(op) && Removed(op) == 4 && Added(op) == 0  // EXTCODECOPY LOG2
    ensures op == 0xa3 <==> Defined(op) && Removed(op) == 5 && Added(op) == 0  // LOG3
    ensures op == 0xa4 <==> Defined(op) && Removed(op) == 6 && Added(op) == 0  // LOG4
  {
  }
}
