/** The source map synthesized for Yul from solc's assembly listing (src/yul_compile.rs),
    and its alignment with the assembled bytecode. */
module YulCompile {
  import opened Basics
  import opened SourceMap
  import opened PcIndex

  /** The members of an asm-json instruction that are read; `None` when absent or of another type.
      Positions are JSON integers of 64 bits. */
  datatype AsmItem = AsmItem(name: Option<string>, begin: Option<int>, end: Option<int>, jumpType: Option<string>)

  predicate IsTag(item: AsmItem) {
    item.name == Some("tag")
  }

  function EntryOf(item: AsmItem): SourceMapEntry {
    var begin := WrapI32(if item.begin.Some? then item.begin.value else 0);
    var end := WrapI32(if item.end.Some? then item.end.value else 0);
    SourceMapEntry(
      begin,
      Max(WrapI32(end - begin), 0),
      0,
      if item.jumpType == Some("[in]") then Into else if item.jumpType == Some("[out]") then OutOf else Regular,
      0)
  }

  /** What an item's entry says: it starts where the item begins, ends where the item ends, or is empty when that
      lies before; missing positions are zero, and only the two jump types are calls and returns. */
  lemma EntryCovers(item: AsmItem, begin: I32, end: I32)
    requires 0 <= begin && 0 <= end
    requires (item.begin == Some(begin) || (item.begin == None && begin == 0))
             && (item.end == Some(end) || (item.end == None && end == 0))
    ensures var e := EntryOf(item);
            && e.offset == begin && e.offset + e.length == Max(begin, end) && e.fileIndex == 0 && e.modifierDepth == 0
            && (e.jumpType.Into? <==> item.jumpType == Some("[in]"))
            && (e.jumpType.OutOf? <==> item.jumpType == Some("[out]"))
  {
  }

  /** The number of emitted instructions among the items. */
  function Emitted(items: seq<AsmItem>): (n: nat)
    ensures n <= |items|
  {
    if items == [] then 0
    else Emitted(items[..|items| - 1]) + if IsTag(items[|items| - 1]) then 0 else 1
  }

  lemma {:induction false} EmittedGrows(items: seq<AsmItem>, i: nat)
    requires i < |items|
    ensures Emitted(items[..i]) + (if IsTag(items[i]) then 0 else 1) == Emitted(items[..i + 1]) <= Emitted(items)
  {
    assert items[..i + 1][..i] == items[..i];
    if i + 1 < |items| {
      var init := items[..|items| - 1];
      EmittedGrows(init, i);
      assert init[..i] == items[..i] && init[..i + 1] == items[..i + 1];
    } else {
      assert items[..i + 1] == items;
    }
  }

  /** One entry per emitted instruction, in order. */
  ghost predicate Synthesized(items: seq<AsmItem>, entries: seq<SourceMapEntry>) {
    && |entries| == Emitted(items)
    && forall i :: 0 <= i < |items| && !IsTag(items[i]) ==> Emits(items, i, entries)
  }

  predicate Emits(items: seq<AsmItem>, i: nat, entries: seq<SourceMapEntry>)
    requires i < |items|
  {
    Emitted(items[..i]) < |entries| && entries[Emitted(items[..i])] == EntryOf(items[i])
  }

  lemma SynthesizedNext(items: seq<AsmItem>, item: AsmItem, entries: seq<SourceMapEntry>)
    requires Synthesized(items, entries)
    ensures Synthesized(items + [item], if IsTag(item) then entries else entries + [EntryOf(item)])
  {
    var now, entries' := items + [item], if IsTag(item) then entries else entries + [EntryOf(item)];
    assert now[..|items|] == items;
    forall i | 0 <= i < |now| && !IsTag(now[i]) ensures Emits(now, i, entries') {
      assert now[..i] == items[..i];
      if i < |items| {
        assert Emits(items, i, entries);
      } else {
        assert items[..i] == items;
      }
    }
  }

  /** `None` when an instruction has no name, as the recorder then reports an error. */
  method SynthesizeSourceMap(asmCode: seq<AsmItem>) returns (r: Option<seq<SourceMapEntry>>)
    ensures r.None? <==> exists item :: item in asmCode && item.name.None?
    ensures r.Some? ==> Synthesized(asmCode, r.value)
  {
    var entries: seq<SourceMapEntry> := [];
    for i := 0 to |asmCode|
      invariant forall item :: item in asmCode[..i] ==> item.name.Some?
      invariant Synthesized(asmCode[..i], entries)
    {
      var inst := asmCode[i];
      if inst.name.None? {
        return None;
      }
      SynthesizedNext(asmCode[..i], inst, entries);
      assert asmCode[..i + 1] == asmCode[..i] + [inst];
      if inst.name.value == "tag" {
        continue;
      }
      entries := entries + [EntryOf(inst)];
    }
    assert asmCode[..|asmCode|] == asmCode;
    return Some(entries);
  }

  // ---- alignment ------------------------------------------------------------------------------

  function Concat(chunks: seq<seq<byte>>): seq<byte> {
    if chunks == [] then [] else Concat(chunks[..|chunks| - 1]) + chunks[|chunks| - 1]
  }

  /** Each tag assembles to no bytes and every other item to one whole instruction. */
  predicate Assembles(items: seq<AsmItem>, chunks: seq<seq<byte>>) {
    && |chunks| == |items|
    && forall i :: 0 <= i < |items| ==>
         if items[i].name == Some("tag") then chunks[i] == []
         else chunks[i] != [] && |chunks[i]| == InstructionLength(chunks[i][0])
  }

  lemma {:induction false} ConcatPrefix(chunks: seq<seq<byte>>, i: nat)
    requires i <= |chunks|
    ensures Concat(chunks[..i]) <= Concat(chunks)
  {
    if i == |chunks| {
      assert chunks[..i] == chunks;
    } else {
      ConcatPrefix(chunks[..|chunks| - 1], i);
      assert chunks[..|chunks| - 1][..i] == chunks[..i];
    }
  }

  /** Up to item `i` the disassembly of the bytecode has as many instructions as were emitted. */
  lemma {:induction false} DisassemblyFollowsItems(items: seq<AsmItem>, chunks: seq<seq<byte>>, i: nat)
    requires Assembles(items, chunks) && i <= |items|
    ensures var d, n := Disassembly(Concat(chunks), 0), Emitted(items[..i]);
            n <= |d| && d[n..] == Disassembly(Concat(chunks), |Concat(chunks[..i])|)
  {
    if i == 0 {
    } else {
      var k := i - 1;
      DisassemblyFollowsItems(items, chunks, k);
      EmittedGrows(items, k);
      FirstByte(items, chunks, k);
      if !IsTag(items[k]) {
        NextInstruction(Concat(chunks), |Concat(chunks[..k])|, Emitted(items[..k]));
      }
    }
  }

  lemma {:induction false} FirstByte(items: seq<AsmItem>, chunks: seq<seq<byte>>, i: nat)
    requires Assembles(items, chunks) && i < |items|
    ensures var code, pc := Concat(chunks), |Concat(chunks[..i])|;
            && |Concat(chunks[..i + 1])| == pc + |chunks[i]| <= |code|
            && (chunks[i] != [] ==> pc < |code| && code[pc] == chunks[i][0])
  {
    ConcatPrefix(chunks, i + 1);
    assert chunks[..i + 1][..i] == chunks[..i];
    if chunks[i] != [] {
      assert Concat(chunks[..i + 1])[|Concat(chunks[..i])|] == chunks[i][0];
    }
  }

  /** Alignment: at the first byte of every emitted instruction, the entry found through the
      program-counter index is the one synthesized from that very assembly item. */
  lemma {:induction false} YulMapAligned(
    items: seq<AsmItem>, chunks: seq<seq<byte>>, pcToIdx: seq<nat>, entries: seq<SourceMapEntry>, i: nat)
    requires Assembles(items, chunks) && MapsToInstructions(Concat(chunks), pcToIdx) && Synthesized(items, entries)
    requires i < |items| && !IsTag(items[i])
    ensures GetEntryForPc(entries, |Concat(chunks[..i])|, pcToIdx) == Some(EntryOf(items[i]))
  {
    var code, pc, n := Concat(chunks), |Concat(chunks[..i])|, Emitted(items[..i]);
    DisassemblyFollowsItems(items, chunks, i);
    FirstByte(items, chunks, i);
    NextInstruction(code, pc, n);
    IndexEqualsDisassembly(code, pcToIdx);
    assert Emits(items, i, entries);
  }

  /** So the source range found for an instruction's first byte is that of its assembly item. */
  lemma {:induction false} YulRangeFound(
    items: seq<AsmItem>, chunks: seq<seq<byte>>, pcToIdx: seq<nat>, entries: seq<SourceMapEntry>, i: nat,
    begin: I32, end: I32)
    requires Assembles(items, chunks) && MapsToInstructions(Concat(chunks), pcToIdx) && Synthesized(items, entries)
    requires i < |items| && !IsTag(items[i]) && 0 <= begin <= end
    requires items[i].begin == Some(begin) && items[i].end == Some(end)
    ensures var e := GetEntryForPc(entries, |Concat(chunks[..i])|, pcToIdx);
            && e.Some? && e.value.offset == begin && e.value.offset + e.value.length == end
            && (e.value.jumpType.Into? <==> items[i].jumpType == Some("[in]"))
            && (e.value.jumpType.OutOf? <==> items[i].jumpType == Some("[out]"))
  {
    YulMapAligned(items, chunks, pcToIdx, entries, i);
    EntryCovers(items[i], begin, end);
  }
}
