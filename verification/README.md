# Verified model of the EVM trace recorder

The recorder turns an EVM step trace (structLogs) into a source-level debugger trace. This project
models its trace-processing core as Dafny programs and state machines, and proves what each tracker
and the loops that drive them promise, over every trace.

| file | what it models |
|---|---|
| `Basics`, `Numerals`, `Bytes` | fixed-width integers, decimal and hexadecimal text, big-endian words, splitting |
| `SolidityAst`, `StructLog` | variable declarations and source ranges, one trace entry, the emitted events |
| `EvmStack` | the EVM's own stack effect (Appendix H.2 of the Ethereum Yellow Paper, with EIP-1153, EIP-4844, EIP-5656 and EIP-7516), independent of the recorder |
| `StackTracker`, `StackSimulation` | the symbolic stack of variable names, and its simulation of the EVM stack |
| `LocalLookup`, `RecordedLookups` | the stacks on which the loops look locals up: before the opcode, or of the next log |
| `TraceStacks`, `OwnRuns` | the operand stacks of nested frames along a trace, trackers against them, and one frame's steps as a run of its own |
| `ArgStaging` | handing argument values to the callee of an internal jump |
| `CallBrackets`, `RevertBrackets`, `CallStream`, `StreamTracking` | absorption of the first internal call as a fact about bracket words, with and without reverting frames, and the single-contract loop that emits calls, returns, arguments and caught reverts, with its trackers |
| `CallTree` | the path-addressed call tree against its event history |
| `SourceMap`, `PcIndex`, `YulCompile`, `LineColumn` | source-map decoding, program counters to instruction numbers, the synthesized Yul map, byte offsets to lines and columns |
| `StorageLayout`, `MappingNames`, `StorageState` | slot names, mapping-name provenance, carried-forward variables |
| `MemoryTracker` | memory regions of reference-typed locals |
| `RevertDecode` | memory snapshots and revert payloads |
| `ContractRegistry`, `FrameRecorder` | artifact lookup and the multi-contract loop, one object driving a call tree |
| `FrameTheorems`, `FrameTracking`, `FrameHistory`, `FrameAccounts`, `FrameStream` | theorems about whole multi-contract recordings: frames in lockstep and isolation and the call tree, trackers against operand stacks, single-frame theorems for every open frame, storage context, call and return events |
| `FrameValues`, `RecordedEvents` | values of locals, and argument and caught-revert events, in recordings of either loop |
| `EvmStorage`, `FrameStorage` | the EVM's storage with the rollback of failed frames, independent of the recorder, and frame caches against it |

Objects of the program (`StackTracker`, `CallTree`, `MemoryTracker`, `ContractRegistry`, and the two
recording loops) are classes whose methods are proved against specification functions; the theorems
are lemmas about those functions and about runs of them. A multi-contract run is a sequence of states
(`FrameRecorder.IsRun`), and `FrameRecorder.RunOf` shows that the loop's states form one.

## What holds, and where the code falls short

Most promises hold on all inputs. Where the code meets one only sometimes, the model keeps the code's
behaviour and the exact condition is proved:

- Reverting frames. The absorbed call's own return is left out exactly when no frame inside it ended with
  an internal call open (`RevertBrackets.OwnReturnLeftOutIff`); otherwise the stream keeps that return although
  it lacks the call (`RevertBrackets.AbsorptionWithReverts`, for every word in which returns stay inside their
  frame; `CallStream.RevertedCallKeepsReturn` is a failing trace). `<toplevel>` stays open in either case.
  `CallStream.RecordedToplevelIff` gives the exact condition for arbitrary traces; a trace that rises by two
  levels at once closes `<toplevel>` (`CallStream.DoubleRiseClosesToplevel`).
- Argument hand-off. Staged arguments agree with what the callee's tracker shows exactly when parameters
  that share a name carry the same word; two unnamed parameters do not (`ArgStaging.UnnamedParametersDisagree`).
- Locals of the multi-contract loop are looked up on the stack before the opcode, after the labels have
  moved. In every recording of an EVM trace, a step shows what its opcode leaves exactly under a condition on
  the opcode, the labels before it and the two stacks (`RecordedLookups.RecordedLookupBeforeIff`): a PUSH
  or DUP must not leave the name on top, a SWAP must not carry its slot across a different word, and a
  result that gets the name is shown as the operand it replaced; a tracker that is behind reads lower
  positions, which the condition includes. Inputs for each: `LocalLookup.PushFails`,
  `LocalLookup.DupAndSwapFail`, `LocalLookup.ResultFails`.
- Locals of the single-contract loop are looked up on the stack of the next log. In every recording of an EVM
  trace, a step shows what its opcode leaves exactly when that log is in the same frame, the name has no slot,
  or the outer frame returned to holds the same word there (`RecordedLookups.RecordedLookupAfterIff`);
  `LocalLookup.LookupAfterFails` has inputs for both failures.
- Memory regions start at the pointer of the previous processed step, not at the current one as the
  comment at `src/memory_tracker.rs:190-193` suggests. `MemoryTracker.BumpKeepsDisciplineIff` and
  `MemoryTracker.RegionIsAllocationIff` give the exact conditions; `MemoryTracker.StaleBumpOverlaps` is an
  overlapping pair, and `MemoryTracker.RegionsAscendIff` the exact condition on whole runs. A 32-byte write
  is attributed rightly exactly when its end does not wrap around 64 bits, or every region starts above the
  write or ends before the wrapped end (`MemoryTracker.AttributionRightIff`).
- Mapping slots. A slot is named when it is written, so `m[key]` shows its last word exactly when the slot had
  been hashed before that write (`StorageState.RunAgrees`, `StorageState.HashedInTime`, for every interleaving
  of hashes and writes); `StorageState.WriteBeforeHashFails` is an input on which it does not. The slot index
  and compounds agree in any case.
- Stale caches. A frame caches only its own SSTOREs, so a cached word is the one in the account's storage
  exactly when the last surviving write of the slot since then, by another frame, is of the same word or there is none
  (`FrameStorage.RecordedSlotIsCurrentIff`, `FrameStorage.RecordedVariableIsCurrentIff`, against the EVM's
  storage with its rollbacks, `EvmStorage.StorageIsLastSurviving`);
  `FrameStorage.StaleAfterDelegatecall` is a failing trace.
- Mapping names. Inner keys are always shown as addresses, so two slots of a nested mapping share a name
  exactly when their keys differ only in bytes that formatting drops (`MappingNames.SameNameIff`).
- Columns. The length table turns a scanned position back into its byte offset exactly for offsets on a
  character boundary (`LineColumn.OffsetRoundTripIff`; an offset inside a character moves to its end).
- Revert payloads. The snapshot precedes REVERT, so a range beyond it is dropped although the EVM would
  return zeros there (`RevertDecode.PayloadIsReturnDataIff`). A signed argument of a custom error is shown as
  its value exactly when it is not negative (`RevertDecode.SignedArgShownIff`), and an array of integers as the
  number in its head word (`RevertDecode.IntegerArrayMisread`).
- Caught reverts are reported by the single-contract loop, exactly at a fall in depth right after a REVERT
  (`RecordedEvents.StreamCaughtIff`), and never by the multi-contract loop (`RecordedEvents.RecordedNoArguments`).
- Storage context. The recorded layout is that of the account whose storage is written exactly when a
  delegate frame's caller runs its own code and a CALLCODE targets the storage account
  (`FrameAccounts.LayoutAccountIff`); a delegate frame that delegates again falls short.

Hypotheses that come from outside the program are parameters: KECCAK256 is a function `hash` that has no
collisions among the inputs hashed in the run and hits no declared mapping slot; UTF-8 replacement is a
function `lossy`; the source facts of a step (`StructLog.Site`) are whatever the artifacts of its frame say;
which steps end their frame with success is a set `commits`. Theorems about operand stacks speak of traces
that the EVM can produce (`TraceStacks.EvmTrace`), in which a frame may end in any way, and of source maps
that mark internal calls at JUMPs.

## Model

| member | source | states |
|---|---|---|
| `StackTracker.StackTracker.ApplyOpcode` | src/stack_tracker.rs:110-375 | the 140-opcode dispatch moves the labels by exactly the removed and added item counts of the Yellow Paper, and reports a PUSH that a variable claims |
| `StackTracker.StackTracker.RecoverLabels` | src/stack_tracker.rs:384-398 | the recovery loop: each visible variable whose statement executes and that has no slot claims the top one, in order |
| `StackTracker.StackTracker.ProcessStep` | src/stack_tracker.rs:101-401 | one step is the opcode movement followed by recovery, slots and reported assignments together |
| `StackTracker.StackTracker.SeedTopLabels` | src/stack_tracker.rs:73-85 | the stack is rebuilt at the given depth with the labels on top, or without labels when they do not fit |
| `StackTracker.LabelForPush` | src/stack_tracker.rs:478-510 | a PUSH is labelled exactly when its offset lies in a visible declaration or statement, with a covering variable |
| `StackTracker.LabelPrecedence` | src/stack_tracker.rs:478-510 | the label is the first variable declared exactly at the offset; without one, the first whose declaration contains it; and without one of these, the first whose statement does |
| `SolidityAst.RangeIsOffsets` | src/solidity_ast.rs:108-110 | a range contains exactly its `length` offsets from its start on; the sum for its end wraps at 32 bits |
| `StackTracker.TopmostSlot` | src/stack_tracker.rs:408-415 | the slot a name resolves to: the topmost one, and none exactly when no slot carries the name |
| `StackTracker.StackTracker.AllVariableValues` | src/stack_tracker.rs:418-437 | the listing has each name once, topmost slot first, and contains (name, value) exactly when the single-name lookup answers that value |
| `StackSimulation.StepKeepsDrift` | src/stack_tracker.rs:101-460 | for every opcode and any drift: a tracker not behind the EVM stack keeps its drift exactly, one that is behind can catch up but never overtake |
| `StackSimulation.SyncUntilReset` | src/stack_tracker.rs:73-401 | simulation over whole runs: from a synchronised point, or a seeding JUMP whatever the drift before, depth equals the EVM stack length until the next reset |
| `StackSimulation.NeverAhead` | src/stack_tracker.rs:73-415 | across resets too, over any run, the tracker never holds more slots than the EVM stack, so every labelled slot has a value |
| `StackSimulation.SeedSynchronisesIff` | src/recorder.rs:259-290 | seeding one item below the pre-opcode stack synchronises exactly for opcodes that remove one item net |
| `StackSimulation.MoveKeepsValues` | src/stack_tracker.rs:110-375 | no opcode detaches a name from its word: labels move as the EVM moves the words |
| `StackSimulation.LabelsFollowWords` | src/stack_tracker.rs:110-375 | for every opcode and stack of different words: each item kept, copied or exchanged has the label its word had before, and each new item its PUSH's label or none |
| `StackSimulation.ShortTracker` | src/stack_tracker.rs:312-325 | a tracker that is behind copies no label from beyond its bottom and leaves a SWAP that reaches there alone |
| `StackSimulation.ValueSurvivesRun` | src/stack_tracker.rs:101-415 | over any run of steps that assign nothing to a name, from any step at which its slots hold one word, the lookup answers that word until its last copy is popped and nothing afterwards |
| `StackSimulation.ValuesSurviveUncoveredRun` | src/stack_tracker.rs:286-415 | the same for runs outside every visible declaration and statement range |
| `StackTracker.RecoveredTop` | src/stack_tracker.rs:384-398 | the recovery loop in closed form: only the top label changes, to the name of the last visible variable whose statement executes and that no slot below carries |
| `StackTracker.LastClaimant` | src/stack_tracker.rs:384-398 | the last variable in order that could claim the top slot, and none exactly when no variable could |
| `StackTracker.RecoveredAssignments` | src/stack_tracker.rs:384-398 | recovery reports one assignment for each claimant in order: its statement executes, no slot below carries its name, and neither does the top slot when its turn comes |
| `StackSimulation.AssignmentsNameTop` | src/stack_tracker.rs:286-401 | every assignment a step reports is about the top slot, and the last one names it |
| `LocalLookup.LookupBeforeIff` | src/recorder.rs:1631-1662 | the multi-contract lookup on the pre-opcode stack, for every step from a synchronised tracker and every name, shows what the opcode leaves exactly under a condition on the opcode, the labels before it and the visible variables |
| `RecordedLookups.RecordedLookupBeforeIff` | src/recorder.rs:1631-1662 | in every recording of an EVM trace, for every step and name: the value shown is the one the opcode leaves exactly under the condition on the opcode, the labels before it and the two stacks, whether the tracker is exact or behind |
| `LocalLookup.LookupBeforeAtSlot` | src/recorder.rs:1631-1662 | from any tracker not ahead, one behind after a reset included: the two lookups agree exactly under the condition on the opcode, the labels before it and the stacks |
| `LocalLookup.AssignedPushIsMissed` | src/recorder.rs:1631-1662 | a PUSH that leaves the name on top is never shown at its own step |
| `LocalLookup.AssignedResultReadsOperand` | src/recorder.rs:1631-1662 | a result that gets the name by recovery is shown as the operand that lay in its place |
| `LocalLookup.PushFails` | src/recorder.rs:1631-1662 | a declaration whose PUSH1 is missed |
| `LocalLookup.DupAndSwapFail` | src/recorder.rs:1631-1662 | a DUP1 at which a local is missed and a SWAP1 at which it reads its neighbour |
| `LocalLookup.ResultFails` | src/recorder.rs:1631-1662 | a sum shown as its first summand |
| `RecordedLookups.RecordedLookupAfterIff` | src/recorder.rs:729-775 | in every single-contract recording of an EVM trace, for every step and name: the value shown is the one the opcode leaves exactly when the frame goes on with the next log, the name has no slot, or the outer frame holds the same word there; that frame's word is the one it held when it called |
| `LocalLookup.LookupAfterFails` | src/recorder.rs:753-775 | a CALL at which a local disappears and a RETURN at which it reads its caller's stack |
| `ArgStaging.StageInternalCallArgs` | src/recorder.rs:249-290 | the callee's tracker is seeded with its parameter names, reset when unresolved, and the arguments emitted are the items below the jump destination |
| `ArgStaging.HandOffLabels` | src/recorder.rs:259-290 | right after the JUMP the tracker is as deep as the stack, whatever its drift was, and carries exactly the staged names on top |
| `ArgStaging.StagedArguments` | src/recorder.rs:276-287 | whatever lies below and above the arguments, parameter i is staged with the i-th argument word |
| `ArgStaging.CalleeSeesArguments` | src/recorder.rs:259-290 | right after the jump each parameter that no later one shadows is shown with its own argument word |
| `ArgStaging.HandOffAgreesIff` | src/recorder.rs:249-290 | every staged argument equals the callee's lookup of its name exactly when parameters sharing a name carry the same word |
| `ArgStaging.DistinctNamesAgree` | src/recorder.rs:249-290 | with distinct parameter names each staged argument is what the callee's tracker shows |
| `ArgStaging.HandOffOther` | src/recorder.rs:249-290 | every name that is not a parameter is unknown to the callee |
| `ArgStaging.UnnamedParametersDisagree` | src/recorder.rs:249-290 | a concrete pair of unnamed parameters whose first staged value the callee does not show |
| `CallBrackets.AbsorbsOnePair` | src/recorder.rs:794-952 | for every legal word: exactly the first internal call is missing from the stream while open, and exactly it and the return that closes it afterwards |
| `CallBrackets.AbsorbedBracketTheorem` | src/recorder.rs:533-536 | for every legal word, finished or not: the stream is legal, never closes the outermost call, and is the word without the first internal call and its matching return, or without the call alone while none matches; it is well-bracketed when the word is |
| `CallBrackets.NestingIff` | src/recorder.rs:794-952 | for every word the counter is positive exactly while the word itself says the absorbed call is open, and then counts the internal calls open since |
| `CallBrackets.BackIsFirst` | src/recorder.rs:794-952 | for every word: the return named next is the first bracket after the absorbed call at which the internal height is back at its value before it, and stays above it until then |
| `CallBrackets.DroppedReturn` | src/recorder.rs:794-952 | for every word, bracketed or not: the stream is the word without the absorbed call and without the first bracket that brings the internal height back to its value before it, or without the call alone while none does |
| `CallBrackets.ToplevelStaysOpenIff` | src/recorder.rs:794-952 | for every word, bracketed or not: the stream never closes <toplevel> exactly when the heights of each prefix of the word leave room for the absorbed call |
| `CallBrackets.RevertUnbalancesAbsorption` | src/recorder.rs:599-644 | a word in which a frame reverts with an internal call open: the stream keeps the absorbed call's return |
| `RevertBrackets.OwnReturnLeftOutIff` | src/recorder.rs:794-952 | when the absorbed call is innermost, its own return is left out exactly when one internal call is open by count, that is, when no frame inside it ended with an internal call open |
| `RevertBrackets.AbsorptionWithReverts` | src/recorder.rs:599-952 | for every word in which internal returns stay inside their frame: the stream is the word without the absorbed call and its own return when that return was clean, and without the call alone otherwise |
| `RevertBrackets.RevertsKeepToplevelOpen` | src/recorder.rs:599-952 | frames that revert with internal calls open never make the stream close <toplevel> |
| `RevertBrackets.LegalIffNothingAbandoned` | src/recorder.rs:599-952 | a word is legal exactly when its returns stay inside their frames and no frame ends with an internal call open |
| `CallBrackets.CountsKeepToplevelOpen` | src/recorder.rs:794-952 | non-negative internal and external counts suffice to keep <toplevel> open, even for words that are not bracketed |
| `CallStream.Recorder.ChangeDepth` | src/recorder.rs:577-652 | a depth change emits one call, or the caught revert and one return per level, and resizes the trackers |
| `CallStream.Recorder.HandleJump` | src/recorder.rs:790-955 | an internal jump is absorbed, staged and emitted, or returned from, and seeds or resets the frame's tracker |
| `CallStream.Recorder.Step` | src/recorder.rs:573-960 | one iteration equals the specification step on all loop variables |
| `CallStream.Recorder.RecordFromStructlog` | src/recorder.rs:515-1201 | the loop over a trace equals the fold of the specification step |
| `CallStream.StreamIsKeptWord` | src/recorder.rs:573-955 | for every trace the call and return events, in order, are the trace's depth and jump brackets without the absorbed ones |
| `CallStream.RecordedCallsAreBracketed` | src/recorder.rs:573-955 | for traces whose brackets are legal, finished or not: the emitted stream is the word without the first internal call and its match, or without that call alone while it is open, is well-bracketed when the word is, and no prefix closes <toplevel> |
| `CallStream.RecordedCallsWithReverts` | src/recorder.rs:573-955 | for traces with reverting frames: the stream lacks the absorbed call and its own return exactly when no frame between them ended with an internal call open, and the call alone otherwise; <toplevel> is never closed |
| `CallStream.RecordedCallsOfEveryTrace` | src/recorder.rs:573-955 | the same description of the call and return events for every trace |
| `CallStream.RevertedCallKeepsReturn` | src/recorder.rs:573-955 | a four-step trace, every log and source fact given, on which the return of the absorbed call is emitted |
| `CallStream.RecordedCallDepth` | src/recorder.rs:573-955 | with reverting frames, the writer's call depth is the number of open calls and of calls abandoned by frames that ended, less the absorbed call while it counts as open |
| `CallStream.RecordedToplevelIff` | src/recorder.rs:573-955 | for every trace: the events never close <toplevel> exactly when at each point depth and open internal calls leave room for the absorbed call |
| `CallStream.WordMeasuresDepth` | src/recorder.rs:577-652 | on traces that rise by at most one, the external brackets measure the trace's depth |
| `CallStream.DoubleRiseClosesToplevel` | src/recorder.rs:577-652 | a rise by two levels is one call but two returns, which closes <toplevel> |
| `CallStream.CaughtReasonIsReported` | src/recorder.rs:599-645 | a frame that reverts with an encoded reason in memory yields that reason as an event before its returns |
| `RecordedEvents.StreamArguments` | src/recorder.rs:790-925 | every resolved internal call but the absorbed one emits its parameters with their stack words, in order, right before its call event, and no other argument |
| `RecordedEvents.StreamNoArguments` | src/recorder.rs:790-955 | any other step emits no argument |
| `RecordedEvents.StreamCaughtIff` | src/recorder.rs:599-652 | a caught revert is reported exactly at a fall in depth right after a REVERT, as the step's first event, with that REVERT's reason |
| `StreamTracking.TrackersInLockstep` | src/recorder.rs:592-655 | for every trace the single-contract loop holds one tracker per open frame |
| `StreamTracking.TrackersRunAlone` | src/recorder.rs:592-960 | isolation: each open frame's tracker is that of its own steps run alone, whatever sub-calls came between |
| `StreamTracking.EveryFrameTracked` | src/recorder.rs:592-960 | along every EVM trace each open frame's tracker is at most as deep as that frame's stack, and exactly as deep from its start or last resolved internal call until its own next reset or the absorbed call |
| `StreamTracking.UnknownOpcodeKeeps` | src/recorder.rs:655-960 | an unknown opcode without an internal jump leaves its frame's tracker alone |
| `CallTree.CallTree.EnterCall` | src/call_tree.rs:91-102 | a new last child is appended at the addressed node and the path extended to it |
| `CallTree.CallTree.ExitCall` | src/call_tree.rs:104-113 | the addressed node gets its end step and the path shrinks; at the root nothing changes |
| `CallTree.CallTree.Current` | src/call_tree.rs:121-127 | walking the path reaches the addressed node |
| `CallTree.Built` | src/call_tree.rs:91-127 | over any sequence of calls each path index addresses the last child of its parent |
| `CallTree.FaithfulHistory` | src/call_tree.rs:91-127 | preorder with the path as open spine regenerates exactly the effective enter and exit events |
| `CallTree.SameTreeIff` | src/call_tree.rs:91-113 | two event sequences build the same tree exactly when their effective events are equal |
| `CallTree.BuiltNested` | src/call_tree.rs:91-113 | with increasing steps every closed node contains its children, siblings are ordered without overlap, along any run |
| `CallTree.ClosedIffOffSpine` | src/call_tree.rs:91-144 | exactly the nodes off the path are closed, and those are nested |
| `CallTree.StepRangesNest` | src/call_tree.rs:91-113 | for every addressed node of a built tree: closed exactly when off the path, with start no later than end and children inside |
| `CallTree.RootIsTransaction` | src/call_tree.rs:82-113 | whatever the events, the root keeps the transaction's address, kind and steps, and no node gets a function name |
| `SourceMap.Parse` | src/source_map.rs:63-97 | the parse loop yields for part k the decoding of the first k + 1 parts |
| `SourceMap.FieldIsNearestExplicit` | src/source_map.rs:63-97 | each field equals the nearest earlier explicitly stated value, or zero, or a regular jump |
| `Numerals.PlusIsReadOver` | src/source_map.rs:171-176 | a number with a plus sign reads as without it, up to 32 or 64 bits |
| `Numerals.OnlyDigitsParse` | src/source_map.rs:171-176 | a text with anything but digits after its sign is no number |
| `SourceMap.DecodeCompressed` | src/source_map.rs:171-186 | a part compressed with any legal choice of omitted fields decodes to its entry |
| `SourceMap.DecodingInvertsCompression` | src/source_map.rs:63-97 | parsing the compressed text of any nonempty entry list, under any legal compression, gives the list back |
| `PcIndex.BuildPcToInstructionIndex` | src/source_map.rs:193-218 | the array maps every byte to the instruction that holds it, with a truncated final PUSH |
| `PcIndex.DisassemblyTiles` | src/source_map.rs:193-218 | the disassembly's instructions are nonempty, adjacent, and cover the code |
| `PcIndex.IndexEqualsDisassembly` | src/source_map.rs:193-218 | a pc has number k exactly when it lies in the k-th instruction; numbers start at 0 and grow by at most one |
| `PcIndex.ProgramIndex` | src/source_map.rs:193-218 | for every assembled program all bytes of instruction k, its PUSH data included, have number k |
| `YulCompile.SynthesizeSourceMap` | src/yul_compile.rs:128-157 | one entry per non-tag item in order; an error exactly when an item has no name |
| `YulCompile.YulMapAligned` | src/yul_compile.rs:128-157 | at the first byte of every emitted instruction the entry found through the pc index is the one synthesized from that item |
| `YulCompile.EntryCovers` | src/yul_compile.rs:130-152 | an item's entry starts where the item begins and ends where it ends, or is empty when that lies before, and `[in]` and `[out]` alone are calls and returns |
| `YulCompile.YulRangeFound` | src/yul_compile.rs:125-155 | so the range and jump type found for an instruction's first byte are those of its assembly item |
| `LineColumn.ComputeLineLengths` | src/recorder.rs:318-332 | one length per line of the byte text, an empty rest after the last newline not being a line |
| `LineColumn.TableOfLines` | src/recorder.rs:318-332 | the table of lines joined by newlines is the lengths of those lines, without an empty rest after the last newline |
| `LineColumn.OffsetToLineCol` | src/source_map.rs:221-236 | the character scan stops at the first character at or after the offset with its line and byte column |
| `LineColumn.PositionMeasuresBoundary` | src/source_map.rs:221-236 | a scanned position lies inside the length table and measures the first boundary at or after the offset |
| `LineColumn.OffsetRoundTripIff` | src/source_map.rs:221-236 | the length table turns the position back into the byte offset exactly on character boundaries |
| `LineColumn.InsideCharacterMoves` | src/source_map.rs:221-236 | an offset inside a two-byte character comes back as that character's end |
| `LineColumn.PositionsDistinct` | src/source_map.rs:221-236 | distinct boundary offsets have distinct positions |
| `LineColumn.ResolvePc` | src/source_map.rs:134-157 | a pc resolves exactly when its entry points inside a file, to the scanned position of its offset, which the file's length table turns back on a character boundary |
| `StorageLayout.ResolveFindsBase` | src/storage_layout.rs:73-75 | in a well-formed layout the decimal slot text finds exactly the entry whose range starts there |
| `StorageLayout.OwnedSlotName` | src/recorder.rs:1041-1068 | the chain of lookups names every declared slot after its owner: label, member or element |
| `StorageLayout.FreeSlotName` | src/recorder.rs:1041-1068 | a slot no entry owns is named by the mapping cache, or synthetically |
| `StorageLayout.CompoundIsOwner` | src/storage_layout.rs:203-235 | the compound found for a slot is its owner, exactly when the owner is a compound |
| `StorageLayout.DeclaredCompound` | src/storage_layout.rs:203-235 | an array or struct of several words in place is the compound of exactly its slots |
| `StorageLayout.NoCompound` | src/storage_layout.rs:203-235 | what fits one slot or is not stored in place is no compound |
| `StorageLayout.DeclaredArray` | src/storage_layout.rs:124-150 | slot base + k of an array is element k, and no other slot is one |
| `StorageLayout.DeclaredStruct` | src/storage_layout.rs:89-117 | slot base + k of a struct is member k, and no other slot is one |
| `StorageLayout.SaturatedMember` | src/storage_layout.rs:103-113 | the sum of a struct's base and a member's offset stops at 64 bits |
| `StorageLayout.DeclaredMapping` | src/storage_layout.rs:161-189 | the mapping found at a slot is the one declared there, with its key type's label or "uint256" |
| `StorageLayout.NoMappingDeclared` | src/storage_layout.rs:161-189 | and none is found where none is declared |
| `StorageLayout.SizeInSlots` | src/storage_layout.rs:218-222 | a size in bytes takes as many slots as hold it, and no more |
| `StorageLayout.CachedSlotName` | src/recorder.rs:1041-1068 | a slot at which no entry begins has its cached name, whatever it lies inside of |
| `MappingNames.RecordMappingSlot` | src/recorder.rs:983-1032 | the KECCAK256 handler caches the derived slot of a 64-byte hash under its parent's name, and nothing else |
| `MappingNames.HashNamesSlot` | src/recorder.rs:983-1032 | hashing a key in front of a base slot in memory, whatever surrounds them: the slot named is the word that KECCAK256 pushes, after the mapping declared at the base and the key, or after the base's own name |
| `MappingNames.OtherHashNamesNothing` | src/recorder.rs:983-996 | too few operands, another size than 64 or a range beyond the snapshot names nothing |
| `MappingNames.AddressKeyText` | src/recorder.rs:222-233 | an address key reads back as its low 20 bytes from 40 lower-case hex digits |
| `MappingNames.IntegerKeyText` | src/recorder.rs:234-240 | an integer or bool key reads back as its value from the shortest lower-case hex digits |
| `MappingNames.OtherKeyText` | src/recorder.rs:241-247 | any other key reads back whole from 64 hex digits |
| `MappingNames.ChainUnique` | src/recorder.rs:983-1032 | without collisions a slot has at most one hashed key chain |
| `MappingNames.NamesHaveProvenance` | src/recorder.rs:983-1032 | over any run of hashes every cached slot carries the name of the chain it derives from, and keeps it |
| `MappingNames.HashedChainIsCached` | src/recorder.rs:983-1032 | hashing a chain level by level leaves its slot cached under its name |
| `MappingNames.FormatInjective` | src/recorder.rs:222-247 | two keys are shown alike exactly when they are equal, or differ only in the upper 12 bytes of an address |
| `MappingNames.SameNameIff` | src/recorder.rs:222-247 | two chains share a name exactly when they start at the same mapping, are equally long and their keys look alike |
| `MappingNames.NarrowChainsNamedApart` | src/recorder.rs:222-247 | when address-shown keys fit 160 bits, distinct chains have distinct names |
| `MappingNames.WideInnerKeysCollide` | src/recorder.rs:1011-1025 | two slots of one nested mapping share a name when their inner keys differ above 160 bits |
| `StorageState.BuildCompoundValue` | src/recorder.rs:49-107 | a compound is assembled from the slot index, or not at all when a member offset is no number |
| `StorageState.HandleSstore` | src/recorder.rs:1035-1132 | an SSTORE caches its value under its name, updates the slot index and re-assembles the compound around it |
| `StorageState.SlotNamesDistinct` | src/recorder.rs:1041-1068 | distinct slots, declared, mapped or unnamed, never share a name |
| `StorageState.CarryForwardAgrees` | src/recorder.rs:1035-1132 | after any SSTORE run the slot index is the last-write map, names cache last values, and touched compounds cache snapshots of last writes |
| `StorageState.ProvenanceFits` | src/recorder.rs:983-1068 | caches with provenance satisfy what the naming theorems assume about them |
| `StorageState.RunAgrees` | src/recorder.rs:983-1132 | for every interleaving of hashes and writes from empty caches: slot index and compounds agree with the last writes, all slots are named apart, and the other variables agree exactly when each written slot that the mapping cache ends up with was in it at its last write |
| `StorageState.WriteBeforeHashFails` | src/recorder.rs:983-1068 | a mapping slot written before it is hashed stays under its synthetic name, and `m[key]` is not shown |
| `StorageState.RunCacheFits` | src/recorder.rs:983-1032 | what RunAgrees assumes of the final mapping cache holds when address-shown keys fit 160 bits and no cached slot is a declared one |
| `StorageState.RunWithoutAgrees` | src/recorder.rs:1035-1132 | without a layout the variables are the written slots under their numbers, each with its last word, and there is no slot index |
| `MemoryTracker.MemoryTracker.HandleFmpBump` | src/memory_tracker.rs:313-350 | a pointer bump registers a region for the candidate variable that has none |
| `MemoryTracker.MemoryTracker.HandleMstore` | src/memory_tracker.rs:250-286 | a store to the pointer word bumps; any other store is attributed to the first region that takes it |
| `MemoryTracker.MemoryTracker.ProcessStep` | src/memory_tracker.rs:177-204 | one step: the previous pointer is kept for a bump while the snapshot updates it, and stores are reported |
| `MemoryTracker.BumpRegistersPointed` | src/memory_tracker.rs:313-419 | a growing pointer registers a region of the first memory variable that the source offset points to, by declaration offset, declaration and statement in this order, unless it has one |
| `MemoryTracker.BumpRegistersLatest` | src/memory_tracker.rs:325-350 | when the offset points to none, a region of the last visible memory variable that has none |
| `MemoryTracker.BumpRegistersNothing` | src/memory_tracker.rs:325-350 | and nothing when all have one |
| `MemoryTracker.ReportOfStore` | src/memory_tracker.rs:177-307 | MSTORE reports 32 bytes and MSTORE8 one at the position on top of the stack, saturated to 64 bits; a store to the pointer word and MLOAD report nothing |
| `MemoryTracker.RegionsAfterStore` | src/memory_tracker.rs:250-275 | only an MSTORE to the pointer word changes the regions, by the bump from the remembered pointer to the stored word |
| `MemoryTracker.BumpKeepsDisciplineIff` | src/memory_tracker.rs:313-350 | a registering bump keeps regions disjoint exactly when its remembered pointer is not below the newest region's end |
| `MemoryTracker.RegionIsAllocationIff` | src/memory_tracker.rs:190-202 | for every step of any run, the first included, and snapshots of any length: the region a bump registers is the memory it allocates exactly when the pointer known before the step is the pointer its snapshot shows |
| `MemoryTracker.RegionsStayDisciplined` | src/memory_tracker.rs:177-350 | over any orderly run regions are disjoint, ascending, uniquely named and end at or below the pointer |
| `MemoryTracker.RegionsAscendIff` | src/memory_tracker.rs:177-350 | for every run, regions lie in order without overlap exactly when each registering bump started at or above the end of the region before |
| `MemoryTracker.AttributionUnique` | src/memory_tracker.rs:259-307 | any byte write, and any word write that does not wrap, is attributed to the one region containing it, and to none exactly when none does |
| `MemoryTracker.AttributionRightIff` | src/memory_tracker.rs:259-307 | a word write is attributed rightly exactly when its end does not wrap 64 bits or every region starts above the write or ends before the wrapped end |
| `MemoryTracker.StaleBumpOverlaps` | src/memory_tracker.rs:190-202 | two bumps with no processed step between them register overlapping regions |
| `MemoryTracker.WrappedWriteMisattributed` | src/memory_tracker.rs:259-286 | a write whose end wraps 64 bits is attributed to a region it does not touch, with the regions disciplined |
| `MemoryTracker.ReadWord` | src/memory_tracker.rs:365-381 | 32 bytes at the offset, zero beyond the snapshot, as a big-endian number |
| `MemoryTracker.AttributedFieldReadsBack` | src/memory_tracker.rs:206-222 | the field of a variable that a write was attributed to reads back the stored word |
| `MemoryTracker.FieldShownIff` | src/memory_tracker.rs:206-222 | a field is shown exactly when its word lies inside the variable's region, as the word there |
| `MemoryTracker.LatestRegion` | src/memory_tracker.rs:141-147 | the lookup by name finds the region registered last |
| `RevertDecode.DecodeStructLogMemory` | src/recorder.rs:2006-2025 | each dumped word yields 32 bytes, missing or malformed digits reading as zero |
| `RevertDecode.DumpRoundTrip` | src/recorder.rs:2006-2025 | decoding a dump, prefixed or not, gives the memory back |
| `RevertDecode.ReadablePairs` | src/recorder.rs:2006-2025 | a pair of characters is a byte exactly for two hex digits of either case, or a plus, which reads as zero, and one |
| `RevertDecode.PayloadIsReturnDataIff` | src/recorder.rs:2041-2076 | the payload is the EVM's return data exactly when the range lies inside the snapshot, and empty otherwise |
| `RevertDecode.NoOperandsNoPayload` | src/recorder.rs:2041-2055 | without a stack or with less than two items there is no payload |
| `RevertDecode.UntouchedMemoryDropped` | src/recorder.rs:2041-2076 | a REVERT of one untouched word returns zeros, and the recorder sees no payload |
| `RevertDecode.UsizeIsValue` | src/revert_decode.rs:322-331 | a 32-byte word converts to its value exactly when it fits 64 bits |
| `RevertDecode.DecodesIffCarries` | src/revert_decode.rs:289-319 | on every input, a string is decoded exactly when the payload carries it at the stated position and length |
| `RevertDecode.RevertRoundTrip` | src/revert_decode.rs:160-221 | an ABI-encoded reason anywhere in dumped memory decodes to kind "Revert" and its own bytes |
| `RevertDecode.PanicRoundTrip` | src/revert_decode.rs:173-195 | an encoded panic anywhere in dumped memory decodes to kind "Panic" and a message with the two hex digits of the code's low byte |
| `RevertDecode.DocumentedPanics` | src/revert_decode.rs:335-349 | each code of the Solidity documentation is shown with its meaning, any other code alone |
| `RevertDecode.CustomErrorRoundTrip` | src/revert_decode.rs:196-211 | a registered error with elementary arguments, ABI-encoded anywhere in dumped memory, is shown with its name and, behind the declared names, decimal numbers, 20-byte accounts and true or false; of data that is cut off, with the arguments that are whole |
| `RevertDecode.OtherArgShown` | src/revert_decode.rs:263-286 | strings, byte strings and arrays are shown as <dynamic>, and any other word whole in hex |
| `RevertDecode.IntegerArrayMisread` | src/revert_decode.rs:263-286 | an argument of type uint256[] is shown as the decimal of its head word |
| `RevertDecode.UndecodedShown` | src/revert_decode.rs:160-221 | no data, less than a selector, an unknown selector and a truncated reason or panic are shown as such, the data in hex |
| `RevertDecode.DecodeCustomErrorArgs` | src/revert_decode.rs:238-261 | one rendered argument per whole word of payload, named where the ABI names it |
| `RevertDecode.IntegerArgShown` | src/revert_decode.rs:264-286 | an integer argument is shown with the decimal digits of the encoded word |
| `RevertDecode.SignedArgShownIff` | src/revert_decode.rs:264-286 | a two's complement argument is shown as its value exactly when it is not negative |
| `RevertDecode.MinusOneShown` | src/revert_decode.rs:264-286 | the argument -1 is shown as 2^256 - 1 |
| `ContractRegistry.ContractRegistry.Register` | src/contract_registry.rs:84-89 | registering makes the lookup of that address answer its artifacts and changes no other entry |
| `ContractRegistry.ContractRegistry.SetDefault` | src/contract_registry.rs:92-94 | the default changes no lookup of a registered address |
| `FrameTheorems.EnteredCall` | src/recorder.rs:1360-1409 | for CALL, CALLCODE, DELEGATECALL and STATICCALL the frame and the tree node carry the low 160 bits of the operand below the gas, a delegate frame its caller's address |
| `FrameTheorems.EnteredCreation` | src/recorder.rs:1399-1400 | a creation enters account zero with its own kind |
| `FrameTheorems.RecordedEntry` | src/recorder.rs:1352-1415 | in every recording a rise after a message call opens a frame and a tree node for the account that the call names |
| `FrameRecorder.Recorder.EnterFrame` | src/recorder.rs:1352-1455 | a rise enters the call tree, pushes the frame context and fresh per-depth state |
| `FrameRecorder.Recorder.LeaveFrames` | src/recorder.rs:1456-1485 | a fall exits the call tree and pops every per-depth stack once per level, the outermost caches and frame excepted |
| `FrameRecorder.Recorder.Step` | src/recorder.rs:1346-1957 | one iteration equals the specification step on all loop variables, and the call tree is the one built by the recorded operations |
| `FrameRecorder.Recorder.RecordMultiContract` | src/recorder.rs:1318-1960 | the loop over a trace equals the fold of the specification step, with the call tree of its operations |
| `FrameRecorder.RunOf` | src/recorder.rs:1318-1957 | the states the loop goes through form a run in the sense of the theorems |
| `FrameTheorems.AllStacksInLockstep` | src/recorder.rs:1352-1495 | after every step all per-depth stacks, the frame stack and the call-tree path plus one have the trace's depth |
| `FrameTheorems.RecordedCalls` | src/recorder.rs:1404-1480 | the call-tree operations are a function of the logs alone, each entry with the address and kind of the call in the log before it, and none is an exit at the root |
| `FrameTheorems.RecordedTree` | src/recorder.rs:1404-1480 | the returned tree reads back as the entries and exits of the logs, with the accounts and kinds of the calls that made them; its open nodes are the open frames, and its step ranges nest |
| `FrameTheorems.SubCallKeepsOuter` | src/recorder.rs:1352-1495 | while a trace runs above depth d, trackers and caches of the d outer frames are unchanged |
| `FrameTheorems.CallerResumes` | src/recorder.rs:1456-1495 | a caller resumes from exactly what its last step left, however deep the sub-call went |
| `FrameTheorems.NewFrameIsFresh` | src/recorder.rs:1352-1455 | every entered frame starts with empty trackers and caches |
| `FrameTracking.EveryFrameTracked` | src/recorder.rs:1346-1768 | along every EVM trace, frames that end in any way included, each open frame's tracker is at most as deep as that frame's stack, and exactly as deep from the frame's start or its last resolved internal call until its own next reset, whatever other frames do |
| `FrameTracking.UnknownOpcodeKeeps` | src/recorder.rs:1625-1768 | an unknown opcode without an internal jump leaves its frame's tracker alone |
| `FrameStream.RecordedEventsAreBrackets` | src/recorder.rs:1352-1768 | for every recording the call and return events, in order, are the trace's depth and jump brackets, none absorbed |
| `FrameStream.RecordedEventsToplevelIff` | src/recorder.rs:1352-1768 | the events never close <toplevel> exactly when no prefix of the brackets has more returns than calls; while internal returns stay inside their frame that holds, and the writer's depth counts the open and the abandoned calls |
| `RecordedEvents.RecordedArguments` | src/recorder.rs:1700-1768 | in every multi-contract recording each resolved internal call emits its parameters with their stack words, in order, right before its call event |
| `RecordedEvents.RecordedNoArguments` | src/recorder.rs:1352-1768 | any other step of the multi-contract loop emits no argument, and none reports a caught revert |
| `FrameAccounts.FramesMatchAccounts` | src/recorder.rs:1360-1409 | every recorded frame has the code address and delegation of the EVM's own execution context |
| `FrameAccounts.LayoutAccountIff` | src/recorder.rs:1500-1562 | the layout account is the one whose storage the frame writes exactly when its entry is tracked |
| `FrameAccounts.LayoutOfAccount` | src/contract_registry.rs:99-138 | with all accounts registered the artifacts chosen for a frame carry the layout of its layout account |
| `FrameAccounts.CodeOfAccount` | src/contract_registry.rs:99-138 | a registered account's frame is recorded with that account's own code, delegate or not |
| `FrameAccounts.CodeOfUnknown` | src/recorder.rs:1500-1562 | an unregistered account falls back to the default contract, a frame that is no delegate to the entry contract after that, and a delegate frame keeps its caller's layout |
| `FrameAccounts.RecordedCodeIsTrue` | src/recorder.rs:1500-1562 | in every recording of message calls the source facts of a step are those of the account whose code runs |
| `FrameAccounts.RecordedLayoutIsTrue` | src/recorder.rs:1500-1562 | without CALLCODE and nested delegation the running frame's layout is that of the account whose storage is written |
| `FrameAccounts.NestedDelegationFallsShort` | src/recorder.rs:1378-1395 | a delegate frame that delegates again is given the layout of the middle contract, which is not the account whose storage is written |
| `FrameHistory.FramesRunAlone` | src/recorder.rs:1346-1957 | non-interference: each open frame holds exactly what its own steps run in isolation leave, whatever sub-calls came between |
| `FrameHistory.RecordedStorageAgrees` | src/recorder.rs:1776-1912 | in every recording each open frame's slot index and compounds agree with the last writes of its own SSTOREs, all slots are named apart, and its other variables agree exactly when its mapping slots were hashed in time |
| `FrameHistory.RecordedHashNamesSlot` | src/recorder.rs:1776-1835 | in every recording a KECCAK256 over a key and a base slot in dumped memory names the slot that the EVM computes in the running frame's cache |
| `FrameHistory.RecordedRegionsAscendIff` | src/recorder.rs:1640-1653 | in every recording an open frame's regions lie in order exactly when each of its own registering bumps started above the region before |
| `FrameHistory.RecordedRegionsDisciplined` | src/recorder.rs:1640-1653 | in every recording each open frame's regions are disjoint, ascending and uniquely named when its own steps are orderly |
| `FrameTracking.MultiContractStep` | src/recorder.rs:1631-1768 | the loop moves a tracker by the step of an abstract run that stages every internal call |
| `StreamTracking.SingleContractStep` | src/recorder.rs:729-959 | the single-contract loop moves a tracker by the step that stages all internal calls but the absorbed one |
| `FrameValues.RecordedTrackerReplays` | src/recorder.rs:1346-1768 | in every recording of an EVM trace an open frame's tracker is what the abstract run of that frame's own steps leaves, so all theorems about runs hold of it |
| `FrameValues.RecordedValuesSurvive` | src/recorder.rs:1346-1768 | in every recording of an EVM trace, an open frame's tracker answers a name's word until its last copy is gone while the frame's own steps neither reset it nor assign the name, whatever sub-calls come between |
| `FrameValues.RecordedValueShown` | src/recorder.rs:1631-1662 | at the running frame's latest step such a word is shown, on the stack that the step sees, exactly under the condition on the opcode |
| `FrameValues.StreamTrackerReplays` | src/recorder.rs:592-960 | the same of the single-contract loop, with all internal calls but the absorbed one staged |
| `FrameValues.StreamValuesSurvive` | src/recorder.rs:592-960 | in every single-contract recording of an EVM trace an open frame's tracker answers a name's word until its last copy is gone, whatever sub-calls come between |
| `FrameValues.StreamValueShown` | src/recorder.rs:729-775 | at the running frame's latest step such a word is shown exactly when the frame goes on with the next log, or an outer frame returned to holds the same word there |
| `FrameStorage.OwnWordIsCurrentIff` | src/recorder.rs:1776-1912 | the account's word is the frame's own last one or was written since by another frame; the two agree exactly when the last surviving later write, if any, is of the same word |
| `FrameStorage.RecordedSlotIsCurrentIff` | src/recorder.rs:1776-1912 | in every recording a slot in an open frame's index is the account's storage exactly when the last write of it that survives since then, if any, is of the same word |
| `FrameStorage.RecordedVariableIsCurrentIff` | src/recorder.rs:1776-1912 | the same for the variable that names the slot, when it had been hashed in time |
| `FrameStorage.RecordedWithoutLayout` | src/recorder.rs:1776-1912 | in every recording an open frame without a layout names no mapping slot and shows exactly the slots it wrote, under their numbers, with its own last words |
| `FrameStorage.StaleAfterDelegatecall` | src/recorder.rs:1456-1495 | a delegate overwrites its caller's slot: the caller's cache is stale when the delegate succeeds and right when it fails |

## Left out

- Processes, RPC, files and the command line (`main.rs`, `replay.rs`, `trace_fetcher.rs`, the compiler and HTTP parts of `source_fetcher.rs` and `yul_compile.rs`), and `inspector.rs`.
- The trace writer and its file format: emitted events are a list. Step and line events, the emission of local and storage variables, type and function identifiers, and the LOG, SELFDESTRUCT and precompile events are not in that list.
- JSON parsing and extraction of the syntax tree: declarations, ranges and functions are given data.
- Function-name resolution (lookahead and enclosing-function fallback): guesses without a specification. The function a jump is resolved to is part of a step's source facts.
- KECCAK256, EIP-55 checksums and UTF-8 replacement are parameters; a hash has no collisions only among the inputs hashed in the run.
- Memory words with characters outside ASCII, on which the slicing of `decode_struct_log_memory` can stop the program, and trace entries with depth 0, which no tracer produces.
- Overflow checks of debug builds: sums are those of a release build, which wrap; step numbers, depths and the counter of absorbed calls are unbounded.
- Layouts that pack several variables or members into one slot: carry-forward is proved for one 32-byte element or member per slot, as the recorder decodes whole slots.
- The single-contract loop's memory trackers and its one storage cache for the whole trace: their steps are the runs of `MemoryTracker.After` and `StorageState.RunAgrees`, not part of `CallStream.Recorder`.
- Contract creation frames in the storage context: their address is recorded as zero. Words that were in storage before the trace.
- Trackers inside the loops and nodes of the call tree are values, since their containers own them; the aliasing of `&mut` borrows is not modelled.
- CallStream.StreamIsKeptWord: speaks of calls and returns only; argument and revert events are stated by CallStream.Recorder.HandleJump and CallStream.Recorder.ChangeDepth.
- StorageState.CarryForwardAgrees: a layout whose slot numbers are canonical decimals, as solc writes them.
