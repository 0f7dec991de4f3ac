/** Solidity source maps (src/source_map.rs): decoding the delta-compressed text. */
module SourceMap {
  import opened Basics
  import opened Numerals

  datatype JumpType = Into | OutOf | Regular

  datatype SourceMapEntry = SourceMapEntry(
    offset: I32,
    length: I32,
    fileIndex: I32,
    jumpType: JumpType,
    modifierDepth: I32)

  const DEFAULT_ENTRY := SourceMapEntry(0, 0, 0, Regular, 0)

  function ParseField(fields: seq<string>, i: nat, prev: I32): I32 {
    if i < |fields| && fields[i] != "" then
      var n := ParseI32(fields[i]);
      if n.Some? then n.value else prev
    else prev
  }

  function ParseJump(s: string): JumpType {
    if s == "i" then Into else if s == "o" then OutOf else Regular
  }

  function DecodePart(part: string, prev: SourceMapEntry): SourceMapEntry {
    var fields := Split(part, ':');
    SourceMapEntry(
      ParseField(fields, 0, prev.offset),
      ParseField(fields, 1, prev.length),
      ParseField(fields, 2, prev.fileIndex),
      if 3 < |fields| && fields[3] != "" then ParseJump(fields[3]) else prev.jumpType,
      ParseField(fields, 4, prev.modifierDepth))
  }

  /** Entry `k` of a list of parts: each part decoded against the entry before it. */
  function Decoded(parts: seq<string>, k: nat): SourceMapEntry
    requires k < |parts|
  {
    DecodePart(parts[k], if k == 0 then DEFAULT_ENTRY else Decoded(parts, k - 1))
  }

  method Parse(raw: string) returns (entries: seq<SourceMapEntry>)
    ensures |entries| == |Split(raw, ';')|
    ensures forall k :: 0 <= k < |entries| ==> entries[k] == Decoded(Split(raw, ';'), k)
  {
    entries := [];
    var prev := DEFAULT_ENTRY;
    var parts := Split(raw, ';');
    for i := 0 to |parts|
      invariant |entries| == i
      invariant forall k :: 0 <= k < i ==> entries[k] == Decoded(parts, k)
      invariant prev == if i == 0 then DEFAULT_ENTRY else Decoded(parts, i - 1)
    {
      var entry := DecodePart(parts[i], prev);
      prev := entry;
      entries := entries + [entry];
    }
  }

  /** Lookup by program counter, through an instruction index table. */
  function GetEntryForPc(entries: seq<SourceMapEntry>, pc: nat, pcToIdx: seq<nat>): Option<SourceMapEntry> {
    if pc < |pcToIdx| && pcToIdx[pc] < |entries| then Some(entries[pcToIdx[pc]]) else None
  }

  // ---- every text: a field is its nearest explicit value -------------------------------------

  /** The value of field `j` (offset, length, file, jump, modifier depth), jumps coded as 0, 1, 2. */
  function Field(e: SourceMapEntry, j: nat): int
    requires j < 5
  {
    match j
    case 0 => e.offset
    case 1 => e.length
    case 2 => e.fileIndex
    case 3 => JumpCode(e.jumpType)
    case _ => e.modifierDepth
  }

  function JumpCode(t: JumpType): int {
    match t
    case Into => 0
    case OutOf => 1
    case Regular => 2
  }

  /** What part `part` says about field `j` by itself: nothing when the field is absent, empty,
      or a number that is malformed or exceeds 32 bits. */
  function Explicit(part: string, j: nat): Option<int>
    requires j < 5
  {
    var fields := Split(part, ':');
    if |fields| <= j || fields[j] == "" then None
    else if j == 3 then Some(JumpCode(ParseJump(fields[j])))
    else
      var n := ParseI32(fields[j]);
      if n.Some? then Some(n.value) else None
  }

  /** The nearest part at or before `k` that states field `j`. */
  function Stating(parts: seq<string>, k: nat, j: nat): (r: Option<nat>)
    requires k < |parts| && j < 5
    ensures r.Some? ==>
            r.value <= k && Explicit(parts[r.value], j).Some?
            && forall t :: r.value < t <= k ==> Explicit(parts[t], j).None?
    ensures r.None? ==> forall t :: 0 <= t <= k ==> Explicit(parts[t], j).None?
  {
    if Explicit(parts[k], j).Some? then Some(k) else if k == 0 then None else Stating(parts, k - 1, j)
  }

  /** For every text, each field of each entry is the one stated by the nearest part at or before
      it that states one; when no such part exists, numbers are zero and the jump is a regular one. */
  lemma {:induction false} FieldIsNearestExplicit(parts: seq<string>, k: nat, j: nat)
    requires k < |parts| && j < 5
    ensures var s := Stating(parts, k, j);
            Field(Decoded(parts, k), j) == if s.Some? then Explicit(parts[s.value], j).value
              else if j == 3 then JumpCode(Regular) else 0
  {
    PartDecodesField(parts[k], if k == 0 then DEFAULT_ENTRY else Decoded(parts, k - 1), j);
    if k == 0 {
    } else {
      FieldIsNearestExplicit(parts, k - 1, j);
    }
  }

  lemma PartDecodesField(part: string, prev: SourceMapEntry, j: nat)
    requires j < 5
    ensures Field(DecodePart(part, prev), j) == if Explicit(part, j).Some? then Explicit(part, j).value
            else Field(prev, j)
  {
  }

  // ---- compression and its inverse ------------------------------------------------------------

  function FieldText(e: SourceMapEntry, j: nat): string
    requires j < 5
  {
    if j == 3 then (match e.jumpType case Into => "i" case OutOf => "o" case Regular => "-")
    else PrintInt(Field(e, j))
  }

  /** How a compressor may write one entry: the first `written` fields are present,
      those in `spelled` in full and the others empty. */
  datatype Choice = Choice(written: nat, spelled: set<nat>)

  /** A field may be left out only where the entry repeats its predecessor. */
  predicate Legal(e: SourceMapEntry, prev: SourceMapEntry, c: Choice) {
    && 1 <= c.written <= 5
    && forall j :: 0 <= j < 5 && !(j < c.written && j in c.spelled) ==> Field(e, j) == Field(prev, j)
  }

  function Before(entries: seq<SourceMapEntry>, i: nat): SourceMapEntry
    requires i <= |entries|
  {
    if i == 0 then DEFAULT_ENTRY else entries[i - 1]
  }

  predicate AllLegal(entries: seq<SourceMapEntry>, choices: seq<Choice>) {
    && |choices| == |entries|
    && forall i :: 0 <= i < |entries| ==> Legal(entries[i], Before(entries, i), choices[i])
  }

  function CompressedFields(e: SourceMapEntry, c: Choice): (r: seq<string>)
    requires 1 <= c.written <= 5
    ensures |r| == c.written
  {
    seq(c.written, j requires 0 <= j < c.written => if j in c.spelled then FieldText(e, j) else "")
  }

  function Compressed(entries: seq<SourceMapEntry>, choices: seq<Choice>): (r: seq<string>)
    requires AllLegal(entries, choices)
    ensures |r| == |entries|
  {
    seq(|entries|, i requires 0 <= i < |entries| => Join(CompressedFields(entries[i], choices[i]), ':'))
  }

  lemma FieldTextParses(e: SourceMapEntry, j: nat)
    requires j < 5
    ensures FieldText(e, j) != "" && ':' !in FieldText(e, j) && ';' !in FieldText(e, j)
    ensures j == 3 ==> ParseJump(FieldText(e, j)) == e.jumpType
    ensures j != 3 ==> ParseI32(FieldText(e, j)) == Some(Field(e, j))
  {
    if j != 3 {
      ParseI32OfPrint(Field(e, j));
      PrintIntChars(Field(e, j));
    }
  }

  lemma {:induction false} JoinFree(parts: seq<string>, sep: char, c: char)
    requires parts != [] && sep != c && forall p :: p in parts ==> c !in p
    ensures c !in Join(parts, sep)
  {
    if |parts| <= 1 {
    } else {
      JoinFree(parts[1..], sep, c);
    }
  }

  lemma DecodeCompressed(e: SourceMapEntry, prev: SourceMapEntry, c: Choice)
    requires Legal(e, prev, c)
    ensures DecodePart(Join(CompressedFields(e, c), ':'), prev) == e
    ensures ';' !in Join(CompressedFields(e, c), ':')
  {
    var fields := CompressedFields(e, c);
    forall j | 0 <= j < |fields| ensures ':' !in fields[j] && ';' !in fields[j] {
      FieldTextParses(e, j);
    }
    SplitJoin(fields, ':');
    JoinFree(fields, ':', ';');
    var decoded := DecodePart(Join(fields, ':'), prev);
    forall j | 0 <= j < 5 ensures Field(decoded, j) == Field(e, j) {
      PartDecodesField(Join(fields, ':'), prev, j);
      FieldTextParses(e, j);
    }
    assert Field(decoded, 0) == Field(e, 0) && Field(decoded, 1) == Field(e, 1) && Field(decoded, 2) == Field(e, 2);
    assert Field(decoded, 3) == Field(e, 3) && Field(decoded, 4) == Field(e, 4);
  }

  predicate DecodesAt(parts: seq<string>, entries: seq<SourceMapEntry>, i: nat)
    requires i < |parts| == |entries|
  {
    DecodePart(parts[i], Before(entries, i)) == entries[i]
  }

  lemma DecodedNext(parts: seq<string>, entries: seq<SourceMapEntry>, k: nat)
    requires k < |parts| == |entries| && DecodesAt(parts, entries, k)
    requires k > 0 ==> Decoded(parts, k - 1) == entries[k - 1]
    ensures Decoded(parts, k) == entries[k]
  {
  }

  /** Parts that each decode to their entry after its predecessor decode to the whole list. */
  lemma {:induction false} DecodedStepwise(parts: seq<string>, entries: seq<SourceMapEntry>, k: nat)
    requires |parts| == |entries| && k < |entries|
    requires forall i :: 0 <= i < |entries| ==> DecodesAt(parts, entries, i)
    ensures Decoded(parts, k) == entries[k]
  {
    if k == 0 {
    } else {
      DecodedStepwise(parts, entries, k - 1);
    }
    assert DecodesAt(parts, entries, k);
    DecodedNext(parts, entries, k);
  }

  /** Decoding inverts compression: whatever legal choice of omitted fields a compressor makes
      (the Solidity documentation's "Source Mappings" format), the text decodes to the entries. */
  lemma DecodingInvertsCompression(entries: seq<SourceMapEntry>, choices: seq<Choice>)
    requires entries != [] && AllLegal(entries, choices)
    ensures var parts := Split(Join(Compressed(entries, choices), ';'), ';');
            |parts| == |entries| && forall k :: 0 <= k < |entries| ==> Decoded(parts, k) == entries[k]
  {
    var parts := Compressed(entries, choices);
    forall i | 0 <= i < |parts| ensures ';' !in parts[i] && DecodesAt(parts, entries, i) {
      DecodeCompressed(entries[i], Before(entries, i), choices[i]);
    }
    SplitJoin(parts, ';');
    forall k | 0 <= k < |entries| ensures Decoded(parts, k) == entries[k] {
      DecodedStepwise(parts, entries, k);
    }
  }
}
