/** Byte offsets against lines and columns: the character scan of src/source_map.rs
    (offset_to_line_col) and the per-line length table of src/recorder.rs (compute_line_lengths)
    describe the same positions. */
module LineColumn {
  import opened Basics
  import opened SourceMap

  const NEWLINE: byte := 10

  predicate IsTail(b: byte) { 0x80 <= b <= 0xbf }

  /** One encoded character, by the grammar of section 4 of RFC 3629. */
  predicate IsUtf8Char(c: seq<byte>) {
    || (|c| == 1 && c[0] <= 0x7f)
    || (|c| == 2 && 0xc2 <= c[0] <= 0xdf && IsTail(c[1]))
    || (|c| == 3 && IsTail(c[2]) && (
          || (c[0] == 0xe0 && 0xa0 <= c[1] <= 0xbf)
          || (0xe1 <= c[0] <= 0xec && IsTail(c[1]))
          || (c[0] == 0xed && 0x80 <= c[1] <= 0x9f)
          || (0xee <= c[0] <= 0xef && IsTail(c[1]))))
    || (|c| == 4 && IsTail(c[2]) && IsTail(c[3]) && (
          || (c[0] == 0xf0 && 0x90 <= c[1] <= 0xbf)
          || (0xf1 <= c[0] <= 0xf3 && IsTail(c[1]))
          || (c[0] == 0xf4 && 0x80 <= c[1] <= 0x8f)))
  }

  type Utf8Char = c: seq<byte> | IsUtf8Char(c) witness [0]

  /** A source text as its sequence of characters. */
  type Source = seq<Utf8Char>

  /** A newline byte occurs only as the newline character. */
  lemma CharShape(c: Utf8Char)
    ensures 1 <= |c| <= 4
    ensures c == [NEWLINE] || NEWLINE !in c
  {
  }

  /** The bytes of a text. */
  function Encode(s: Source): seq<byte> {
    if s == [] then [] else Encode(s[..|s| - 1]) + s[|s| - 1]
  }

  // ---- lines of a byte text -------------------------------------------------------------------

  /** Lengths of the lines that are closed by a newline. */
  function FinishedLines(text: seq<byte>): seq<nat> {
    if text == [] then []
    else
      var init := text[..|text| - 1];
      if text[|text| - 1] == NEWLINE then FinishedLines(init) + [OpenLine(init)] else FinishedLines(init)
  }

  /** Length of what follows the last newline. */
  function OpenLine(text: seq<byte>): nat {
    if text == [] || text[|text| - 1] == NEWLINE then 0 else OpenLine(text[..|text| - 1]) + 1
  }

  /** One length per line, without newlines; an empty rest after the last newline is not a line. */
  function LineLengths(text: seq<byte>): seq<nat> {
    FinishedLines(text) + if OpenLine(text) > 0 then [OpenLine(text)] else []
  }

  /** Bytes of the given lines, each with its newline. */
  function BytesOf(lines: seq<nat>): nat {
    if lines == [] then 0 else BytesOf(lines[..|lines| - 1]) + lines[|lines| - 1] + 1
  }

  lemma {:induction false} LinesMeasureText(text: seq<byte>)
    ensures |text| == BytesOf(FinishedLines(text)) + OpenLine(text)
    ensures |FinishedLines(text)| + OpenLine(text) <= |text|
    ensures forall l :: l in FinishedLines(text) ==> l < |text|
  {
    if text == [] {
    } else {
      LinesMeasureText(text[..|text| - 1]);
      if text[|text| - 1] == NEWLINE {
        var before := FinishedLines(text[..|text| - 1]);
        assert (before + [OpenLine(text[..|text| - 1])])[..|before|] == before;
      }
    }
  }

  /** Lines of a prefix: its finished lines are finished in the whole text, and its open line is a
      part of the line the whole text has there. */
  lemma {:induction false} PrefixLines(text: seq<byte>, o: nat)
    requires o <= |text|
    ensures FinishedLines(text[..o]) <= FinishedLines(text)
    ensures var line, table := |FinishedLines(text[..o])|, LineLengths(text);
            && OpenLine(text[..o]) <= (if line < |FinishedLines(text)| then FinishedLines(text)[line]
               else OpenLine(text))
            && (if line < |table| then OpenLine(text[..o]) <= table[line]
                else line == |table| && OpenLine(text[..o]) == 0)
    decreases |text|
  {
    if o == |text| {
      assert text[..o] == text;
    } else {
      var init := text[..|text| - 1];
      PrefixLines(init, o);
      assert init[..o] == text[..o];
    }
  }

  method ComputeLineLengths(source: seq<byte>) returns (lengths: seq<nat>)
    ensures |source| < U32_BOUND ==> lengths == LineLengths(source)
  {
    lengths := [];
    var lineStart := 0;
    for i := 0 to |source|
      invariant lineStart <= i && OpenLine(source[..i]) == i - lineStart
      invariant |source| < U32_BOUND ==> lengths == FinishedLines(source[..i])
    {
      assert source[..i + 1][..i] == source[..i];
      if source[i] == NEWLINE {
        var lineLen := (i - lineStart) % U32_BOUND;
        lengths := lengths + [lineLen];
        lineStart := i + 1;
      }
    }
    assert source[..|source|] == source;
    if lineStart < |source| {
      lengths := lengths + [(|source| - lineStart) % U32_BOUND];
    }
  }

  /** Lines joined by newlines. */
  function JoinedLines(lines: seq<seq<byte>>): seq<byte>
    requires lines != []
  {
    if |lines| == 1 then lines[0] else JoinedLines(lines[..|lines| - 1]) + [NEWLINE] + lines[|lines| - 1]
  }

  function Lengths(lines: seq<seq<byte>>): (r: seq<nat>)
    ensures |r| == |lines|
  {
    seq(|lines|, i requires 0 <= i < |lines| => |lines[i]|)
  }

  lemma {:induction false} OneMoreLine(text: seq<byte>, line: seq<byte>)
    requires NEWLINE !in line
    ensures FinishedLines(text + [NEWLINE] + line) == FinishedLines(text) + [OpenLine(text)]
    ensures OpenLine(text + [NEWLINE] + line) == |line|
  {
    assert (text + [NEWLINE])[..|text|] == text;
    AppendedCharacter(text + [NEWLINE], line);
  }

  lemma {:induction false} JoinedLinesMeasured(lines: seq<seq<byte>>)
    requires lines != [] && forall l :: l in lines ==> NEWLINE !in l
    ensures FinishedLines(JoinedLines(lines)) == Lengths(lines[..|lines| - 1])
    ensures OpenLine(JoinedLines(lines)) == |lines[|lines| - 1]|
  {
    var n := |lines| - 1;
    if n == 0 {
      assert [] + lines[0] == lines[0];
      AppendedCharacter([], lines[0]);
    } else {
      JoinedLinesMeasured(lines[..n]);
      OneMoreLine(JoinedLines(lines[..n]), lines[n]);
      assert lines[..n][..n - 1] == lines[..n - 1];
      assert Lengths(lines[..n]) == Lengths(lines[..n - 1]) + [|lines[n - 1]|];
    }
  }

  /** The length table of a text is the lengths of its lines; nothing after the last newline is no line. */
  lemma {:induction false} TableOfLines(lines: seq<seq<byte>>)
    requires lines != [] && forall l :: l in lines ==> NEWLINE !in l
    ensures var last := |lines| - 1;
            LineLengths(JoinedLines(lines)) == Lengths(if lines[last] == [] then lines[..last] else lines)
  {
    var n := |lines| - 1;
    JoinedLinesMeasured(lines);
    assert lines == lines[..n] + [lines[n]];
    assert Lengths(lines) == Lengths(lines[..n]) + [|lines[n]|];
  }

  // ---- the character scan -----------------------------------------------------------------------

  /** The number of characters that start before byte `o`, counted from `k` on. */
  function CharsBefore(source: Source, o: nat, k: nat): (r: nat)
    requires k <= |source|
    ensures k <= r <= |source|
    decreases |source| - k
  {
    if k == |source| || o <= |Encode(source[..k])| then k else CharsBefore(source, o, k + 1)
  }

  lemma {:induction false} AppendedCharacter(text: seq<byte>, more: seq<byte>)
    requires NEWLINE !in more
    ensures FinishedLines(text + more) == FinishedLines(text)
    ensures OpenLine(text + more) == OpenLine(text) + |more|
    decreases |more|
  {
    if more == [] {
      assert text + more == text;
    } else {
      var init := more[..|more| - 1];
      AppendedCharacter(text, init);
      assert (text + more)[..|text + more| - 1] == text + init;
    }
  }

  lemma {:induction false} EncodePrefix(source: Source, k: nat)
    requires k < |source|
    ensures Encode(source[..k + 1]) == Encode(source[..k]) + source[k]
    ensures |Encode(source[..k + 1])| <= |Encode(source)|
    decreases |source|
  {
    assert source[..k + 1][..k] == source[..k];
    if k + 1 == |source| {
      assert source[..k + 1] == source;
    } else {
      var init := source[..|source| - 1];
      EncodePrefix(init, k);
      assert init[..k + 1] == source[..k + 1];
    }
  }

  lemma {:induction false} AppendedNewline(text: seq<byte>)
    ensures |FinishedLines(text + [NEWLINE])| == |FinishedLines(text)| + 1 && OpenLine(text + [NEWLINE]) == 0
  {
    assert (text + [NEWLINE])[..|text|] == text;
  }

  /** Line number after the first `k` characters. */
  function ScanLine(source: Source, k: nat): nat
    requires k <= |source|
  {
    |FinishedLines(Encode(source[..k]))| + 1
  }

  function ScanColumn(source: Source, k: nat): nat
    requires k <= |source|
  {
    OpenLine(Encode(source[..k]))
  }

  lemma ScanStep(source: Source, k: nat)
    requires k < |source|
    ensures |Encode(source[..k + 1])| == |Encode(source[..k])| + |source[k]|
    ensures source[k] == [NEWLINE] ==>
            ScanLine(source, k + 1) == ScanLine(source, k) + 1
            && ScanColumn(source, k + 1) == 0
    ensures source[k] != [NEWLINE] ==> ScanLine(source, k + 1) == ScanLine(source, k)
    ensures source[k] != [NEWLINE] ==> ScanColumn(source, k + 1) == ScanColumn(source, k) + |source[k]|
    ensures ScanLine(source, k + 1) <= |Encode(source)| + 1 && ScanColumn(source, k + 1) <= |Encode(source)|
  {
    var before, more := Encode(source[..k]), source[k];
    CharShape(more);
    EncodePrefix(source, k);
    LinesMeasureText(before + more);
    if source[k] == [NEWLINE] {
      AppendedNewline(before);
    } else {
      AppendedCharacter(before, more);
    }
  }

  method OffsetToLineCol(source: Source, byteOffset: nat) returns (line: nat, col: nat)
    ensures |Encode(source)| + 1 < U32_BOUND ==> (line, col) == Position(source, byteOffset)
  {
    line, col := 1, 0;
    var i := 0;
    var k := 0;
    ghost var small := |Encode(source)| + 1 < U32_BOUND;
    assert source[..0] == [];
    ghost var stop := CharsBefore(source, byteOffset, 0);
    while k < |source|
      invariant k <= |source| && i == |Encode(source[..k])|
      invariant stop == CharsBefore(source, byteOffset, k)
      invariant small ==> line == ScanLine(source, k) && col == ScanColumn(source, k)
    {
      if byteOffset <= i {
        break;
      }
      ScanStep(source, k);
      if source[k] == [NEWLINE] {
        line := (line + 1) % U32_BOUND;
        col := 0;
      } else {
        col := (col + |source[k]|) % U32_BOUND;
      }
      i := i + |source[k]|;
      k := k + 1;
    }
  }

  /** The position scanned for byte `o`: 1-based line and 0-based byte column. */
  function Position(source: Source, o: nat): (nat, nat) {
    var k := CharsBefore(source, o, 0);
    (ScanLine(source, k), ScanColumn(source, k))
  }

  // ---- agreement --------------------------------------------------------------------------------

  predicate IsBoundary(source: Source, o: nat) {
    exists k :: 0 <= k <= |source| && |Encode(source[..k])| == o
  }

  lemma {:induction false} EncodeGrows(source: Source, j: nat, k: nat)
    requires j < k <= |source|
    ensures |Encode(source[..j])| < |Encode(source[..k])| <= |Encode(source)| && Encode(source[..k]) <= Encode(source)
    decreases |source|, k
  {
    EncodePrefix(source, k - 1);
    CharShape(source[k - 1]);
    if j == k - 1 {
    } else {
      EncodeGrows(source, j, k - 1);
    }
    if k == |source| {
      assert source[..k] == source;
    } else {
      var init := source[..|source| - 1];
      EncodeGrows(init, j, k);
      assert init[..k] == source[..k] && init[..j] == source[..j];
    }
  }

  lemma {:induction false} CharsBeforeStops(source: Source, o: nat, k: nat)
    requires k <= |source| && o <= |Encode(source)|
    ensures var r := CharsBefore(source, o, k);
            o <= |Encode(source[..r])| && forall j :: k <= j < r ==> |Encode(source[..j])| < o
    decreases |source| - k
  {
    if k == |source| {
      assert source[..k] == source;
    } else if |Encode(source[..k])| < o {
      CharsBeforeStops(source, o, k + 1);
    }
  }

  /** The scanned position of any byte offset inside the text measures, against the length table,
      the first character boundary at or after the offset; its line is in the table, or it is the
      empty line after a final newline. */
  lemma {:induction false} PositionMeasuresBoundary(source: Source, o: nat)
    requires o <= |Encode(source)|
    ensures var (line, col) := Position(source, o);
            var table := LineLengths(Encode(source));
            && 1 <= line <= |table| + 1
            && col <= (if line <= |table| then table[line - 1] else 0)
            && BytesOf(table[..line - 1]) + col == |Encode(source[..CharsBefore(source, o, 0)])|
  {
    var text, k := Encode(source), CharsBefore(source, o, 0);
    var before := Encode(source[..k]);
    if k < |source| {
      EncodeGrows(source, k, k + 1);
    }
    if k > 0 {
      EncodeGrows(source, 0, k);
    }
    assert text[..|before|] == before;
    PrefixLines(text, |before|);
    LinesMeasureText(before);
    assert LineLengths(text)[..|FinishedLines(before)|] == FinishedLines(before);
  }

  lemma {:induction false} BoundaryReached(source: Source, o: nat)
    requires o <= |Encode(source)|
    ensures |Encode(source[..CharsBefore(source, o, 0)])| == o <==> IsBoundary(source, o)
  {
    CharsBeforeStops(source, o, 0);
    var r := CharsBefore(source, o, 0);
    if IsBoundary(source, o) {
      var k :| 0 <= k <= |source| && |Encode(source[..k])| == o;
      if r < k {
        EncodeGrows(source, r, k);
      }
    }
  }

  /** The byte offset that the length table assigns to a position. */
  function TableOffset(table: seq<nat>, line: nat, col: nat): nat
    requires 1 <= line <= |table| + 1
  {
    BytesOf(table[..line - 1]) + col
  }

  /** Column round trip: the table turns the scanned position back into the byte offset exactly
      for the offsets on a character boundary. */
  lemma {:induction false} OffsetRoundTripIff(source: Source, o: nat)
    requires o <= |Encode(source)|
    ensures var (line, col) := Position(source, o);
            1 <= line <= |LineLengths(Encode(source))| + 1
            && (TableOffset(LineLengths(Encode(source)), line, col) == o <==> IsBoundary(source, o))
  {
    PositionMeasuresBoundary(source, o);
    BoundaryReached(source, o);
  }

  /** Inside a two-byte character the position is that of the character's end. */
  lemma InsideCharacterMoves()
    ensures var source: Source := [[0xc3, 0xa9]];
            && Position(source, 1) == (1, 2) && !IsBoundary(source, 1)
            && TableOffset(LineLengths(Encode(source)), 1, 2) == 2
  {
    var c: Utf8Char := [0xc3, 0xa9];
    var source: Source := [c];
    assert source[..0] == [] && source[..1] == source;
    assert Encode(source[..0]) == [] && Encode(source) == [] + c == c;
    assert CharsBefore(source, 1, 0) == 1;
    assert c[..1] == [0xc3] && c[..1][..0] == [];
    assert FinishedLines(c[..1][..0]) == FinishedLines(c[..1]) == [] && OpenLine(c[..1]) == 1;
    assert OpenLine(c) == 2 && FinishedLines(c) == [];
    forall k | 0 <= k <= |source| ensures |Encode(source[..k])| != 1 {
      assert k == 0 || k == 1;
    }
  }

  /** Distinct boundary offsets have distinct positions. */
  lemma {:induction false} PositionsDistinct(source: Source, o: nat, p: nat)
    requires o <= |Encode(source)| && p <= |Encode(source)| && IsBoundary(source, o) && IsBoundary(source, p)
    ensures Position(source, o) == Position(source, p) <==> o == p
  {
    OffsetRoundTripIff(source, o);
    OffsetRoundTripIff(source, p);
  }

  // ---- resolving a program counter ----------------------------------------------------------------

  datatype SourceLocation = SourceLocation(fileIndex: I32, line: nat, column: nat)

  /** A program counter resolves exactly when it has an entry that points inside one of the files
      (compiler-generated code has file -1); on a character boundary, the file's length table
      turns the location back into the entry's byte offset. */
  method ResolvePc(entries: seq<SourceMapEntry>, pc: nat, pcToIdx: seq<nat>, sources: seq<Source>)
    returns (r: Option<SourceLocation>)
    requires forall s :: s in sources ==> |Encode(s)| + 1 < U32_BOUND
    ensures r.Some? <==> && GetEntryForPc(entries, pc, pcToIdx).Some?
                         && var e := GetEntryForPc(entries, pc, pcToIdx).value;
                            0 <= e.fileIndex < |sources| && 0 <= e.offset <= |Encode(sources[e.fileIndex])|
    ensures r.Some? ==>
              var e, l := GetEntryForPc(entries, pc, pcToIdx).value, r.value;
              var source := sources[e.fileIndex];
              && l.fileIndex == e.fileIndex && (l.line, l.column) == Position(source, e.offset)
              && 1 <= l.line <= |LineLengths(Encode(source))| + 1
              && (IsBoundary(source, e.offset)
                 <==> TableOffset(LineLengths(Encode(source)), l.line, l.column) == e.offset)
  {
    if |pcToIdx| <= pc || |entries| <= pcToIdx[pc] {
      return None;
    }
    var entry := entries[pcToIdx[pc]];
    if entry.fileIndex < 0 || |sources| <= entry.fileIndex {
      return None;
    }
    var source := sources[entry.fileIndex];
    // a negative offset is a huge `usize`
    if entry.offset < 0 || |Encode(source)| < entry.offset {
      return None;
    }
    var line, column := OffsetToLineCol(source, entry.offset);
    OffsetRoundTripIff(source, entry.offset);
    return Some(SourceLocation(entry.fileIndex, line, column));
  }
}
