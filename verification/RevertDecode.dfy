/** From the operands and memory of a REVERT step to a readable reason (src/recorder.rs,
    decode_struct_log_memory and decode_revert_opcode_payload; src/revert_decode.rs). */
module RevertDecode {
  import opened Basics
  import opened Numerals
  import opened Bytes

  // ---- memory snapshots -------------------------------------------------------------------------

  function Trimmed(w: string): string {
    if "0x" <= w then w[2..] else w
  }

  /** `u8::from_str_radix` on two characters; a leading plus is a sign. */
  function HexByte(high: char, low: char): Option<byte> {
    var l := DigitValue(low, 16);
    if high == '+' then l
    else
      var h := DigitValue(high, 16);
      if h.Some? && l.Some? && h.value < 16 && l.value < 16 then Some(16 * h.value + l.value) else None
  }

  /** Byte `i` of a memory word; missing or malformed digits read as zero. */
  function WordByte(w: string, i: nat): byte {
    var t := Trimmed(w);
    if i < |t| / 2 && HexByte(t[2 * i], t[2 * i + 1]).Some? then HexByte(t[2 * i], t[2 * i + 1]).value else 0
  }

  function WordBytes(w: string): (r: seq<byte>)
    ensures |r| == 32
  {
    seq(32, i requires 0 <= i => WordByte(w, i))
  }

  function MemoryBytes(words: seq<string>): (r: seq<byte>)
    ensures |r| == 32 * |words|
  {
    if words == [] then [] else MemoryBytes(words[..|words| - 1]) + WordBytes(words[|words| - 1])
  }

  function Snapshot(memory: Option<seq<string>>): seq<byte> {
    if memory.Some? then MemoryBytes(memory.value) else []
  }

  method DecodeStructLogMemory(memory: Option<seq<string>>) returns (out: seq<byte>)
    ensures out == Snapshot(memory)
  {
    out := [];
    if memory.None? {
      return;
    }
    var words := memory.value;
    for n := 0 to |words|
      invariant out == MemoryBytes(words[..n])
    {
      var trimmed := Trimmed(words[n]);
      var buf := new byte[32](_ => 0);
      var bytesCount := |trimmed| / 2;
      var filled := if bytesCount < 32 then bytesCount else 32;
      for i := 0 to filled
        invariant forall j :: 0 <= j < i ==> buf[j] == WordByte(words[n], j)
        invariant forall j :: i <= j < 32 ==> buf[j] == 0
      {
        var b := HexByte(trimmed[2 * i], trimmed[2 * i + 1]);
        if b.Some? {
          buf[i] := b.value;
        }
      }
      assert buf[..] == WordBytes(words[n]);
      assert words[..n + 1][..n] == words[..n];
      out := out + buf[..];
    }
    assert words[..|words|] == words;
  }

  function HexWord(bytes: seq<byte>, prefixed: bool): string {
    if prefixed then "0x" + HexText(bytes) else HexText(bytes)
  }

  /** Memory as a tracer dumps it: 32-byte words in hex, with or without the prefix. */
  function Dump(mem: seq<byte>, prefixed: bool): (r: seq<string>)
    requires |mem| % 32 == 0
    decreases |mem|
  {
    if mem == [] then []
    else Dump(mem[..|mem| - 32], prefixed) + [HexWord(mem[|mem| - 32..], prefixed)]
  }

  lemma HexByteRoundTrip(b: byte)
    ensures HexByte(DigitChar(b / 16), DigitChar(b % 16)) == Some(b)
  {
    DigitRoundTrip(b / 16, 16);
    DigitRoundTrip(b % 16, 16);
  }

  predicate IsHexDigit(c: char) {
    '0' <= c <= '9' || 'a' <= c <= 'f' || 'A' <= c <= 'F'
  }

  /** Which pairs of characters are a byte: two hex digits of either case, or a plus and one, which reads as zero in
      front of it. */
  lemma ReadablePairs(high: char, low: char)
    ensures HexByte(high, low).Some? <==> IsHexDigit(low) && (IsHexDigit(high) || high == '+')
    ensures HexByte('+', low) == HexByte('0', low)
    ensures 'A' <= low <= 'F' ==> HexByte(high, low) == HexByte(high, low + 32 as char)
    ensures 'A' <= high <= 'F' ==> HexByte(high, low) == HexByte(high + 32 as char, low)
  {
  }

  lemma TrimmedHexWord(bytes: seq<byte>, prefixed: bool)
    requires bytes != []
    ensures Trimmed(HexWord(bytes, prefixed)) == HexText(bytes)
  {
    var text := HexText(bytes);
    HexTextDigits(bytes, 0);
    if prefixed {
      assert ("0x" + text)[2..] == text;
    } else if "0x" <= text {
      assert text[1] == "0x"[1] == 'x';
      HexByteRoundTrip(bytes[0]);
    }
  }

  lemma WordRoundTrip(bytes: seq<byte>, prefixed: bool)
    requires |bytes| == 32
    ensures WordBytes(HexWord(bytes, prefixed)) == bytes
  {
    var w := HexWord(bytes, prefixed);
    TrimmedHexWord(bytes, prefixed);
    forall i | 0 <= i < 32 ensures WordByte(w, i) == bytes[i] {
      HexByteRoundTrip(bytes[i]);
      HexTextDigits(bytes, i);
    }
  }

  lemma {:induction false} MemoryBytesAppend(words: seq<string>, w: string)
    ensures MemoryBytes(words + [w]) == MemoryBytes(words) + WordBytes(w)
  {
    assert (words + [w])[..|words|] == words;
  }

  /** Reading a dump gives back the memory. */
  lemma {:induction false} DumpRoundTrip(mem: seq<byte>, prefixed: bool)
    requires |mem| % 32 == 0
    ensures MemoryBytes(Dump(mem, prefixed)) == mem
    decreases |mem|
  {
    if mem == [] {
    } else {
      var init, last := mem[..|mem| - 32], mem[|mem| - 32..];
      DumpRoundTrip(init, prefixed);
      WordRoundTrip(last, prefixed);
      MemoryBytesAppend(Dump(init, prefixed), HexWord(last, prefixed));
      assert mem == init + last;
    }
  }

  // ---- the payload of REVERT ----------------------------------------------------------------------

  function RevertPayload(stack: Option<seq<Word>>, memory: Option<seq<string>>): seq<byte> {
    if stack.None? || |stack.value| < 2 then []
    else
      var offset, size := stack.value[|stack.value| - 1], stack.value[|stack.value| - 2];
      if U64_BOUND <= offset || U64_BOUND <= size || size == 0 then []
      else
        var bytes := Snapshot(memory);
        var end := Min(offset + size, U64_BOUND - 1);
        if |bytes| < end then [] else bytes[offset..end]
  }

  /** What the EVM returns: the memory range, where memory is zero beyond its current end. */
  function ReturnData(mem: seq<byte>, offset: Word, size: Word): (r: seq<byte>)
    ensures |r| == size
  {
    seq(size, i requires 0 <= i < size => if offset + i < |mem| then mem[offset + i] else 0)
  }

  /** The payload is the EVM's return data exactly when the range lies inside the snapshot, which
      was taken before REVERT could extend memory; otherwise it is dropped. */
  lemma PayloadIsReturnDataIff(below: seq<Word>, offset: Word, size: Word, memory: Option<seq<string>>)
    requires |Snapshot(memory)| < U64_BOUND
    ensures RevertPayload(Some(below + [size, offset]), memory) == ReturnData(Snapshot(memory), offset, size)
            <==> (size == 0 || offset + size <= |Snapshot(memory)|)
    ensures |Snapshot(memory)| < U64_BOUND - 1 ==>
              RevertPayload(Some(below + [size, offset]), memory)
              == if offset + size <= |Snapshot(memory)| then Snapshot(memory)[offset..offset + size] else []
  {
    var stack := below + [size, offset];
    assert stack[|stack| - 1] == offset && stack[|stack| - 2] == size;
    var payload := RevertPayload(Some(stack), memory);
    if size != 0 && offset + size <= |Snapshot(memory)| {
      assert payload == Snapshot(memory)[offset..offset + size];
    }
  }

  /** Without a stack, or with less than two items on it, there is no payload. */
  lemma NoOperandsNoPayload(stack: Option<seq<Word>>, memory: Option<seq<string>>)
    requires stack.Some? ==> |stack.value| < 2
    ensures RevertPayload(stack, memory) == []
  {
  }

  /** A REVERT of one word of untouched memory: the EVM returns 32 zeros, the recorder sees no payload. */
  lemma UntouchedMemoryDropped()
    ensures RevertPayload(Some([32, 0]), Some([])) == [] && ReturnData(Snapshot(Some([])), 0, 32) == Zeros(32)
    ensures RevertPayload(Some([32, 0]), Some([])) != ReturnData(Snapshot(Some([])), 0, 32)
  {
    assert ReturnData([], 0, 32) == Zeros(32);
  }

  // ---- decoding the payload -----------------------------------------------------------------------

  /** `u256_to_usize`: `None` unless the 24 high bytes are zero. */
  function U256ToUsize(word: seq<byte>): Option<U64>
    requires |word| == 32
  {
    if exists i :: 0 <= i < 24 && word[i] != 0 then None
    else
      BigEndianBound(word[24..]);
      Some(BigEndian(word[24..]))
  }

  datatype CustomErrorDef = CustomErrorDef(name: string, paramTypes: seq<string>, paramNames: seq<string>)

  datatype DecodedRevert = DecodedRevert(kind: string, message: string)

  const ERROR_STRING_SELECTOR: seq<byte> := [0x08, 0xc3, 0x79, 0xa0]
  const PANIC_SELECTOR: seq<byte> := [0x4e, 0x48, 0x7b, 0x71]

  /** The body of an ABI-encoded `(string)`; `None` when it is truncated. */
  function DecodeErrorString(payload: seq<byte>): Option<seq<byte>> {
    if |payload| < 64 then None
    else
      var offset := U256ToUsize(payload[..32]);
      if offset.None? || |payload| < offset.value then None
      else
        var afterOffset := payload[offset.value..];
        if |afterOffset| < 32 then None
        else
          var length := U256ToUsize(afterOffset[..32]);
          var body := afterOffset[32..];
          if length.None? || |body| < length.value then None else Some(body[..length.value])
  }

  function PanicMnemonic(code: byte): Option<string> {
    match code
    case 0x00 => Some("generic")
    case 0x01 => Some("assert(false)")
    case 0x11 => Some("arithmetic over/underflow")
    case 0x12 => Some("division or modulo by zero")
    case 0x21 => Some("invalid enum conversion")
    case 0x22 => Some("storage byte array access")
    case 0x31 => Some("pop on empty array")
    case 0x32 => Some("out-of-bounds array access")
    case 0x41 => Some("memory allocation overflow")
    case 0x51 => Some("uninitialized internal function call")
    case _ => None
  }

  function PanicMessage(code: byte): string {
    "panic 0x" + HexText([code]) + (if PanicMnemonic(code).Some? then " (" + PanicMnemonic(code).value + ")" else "")
  }

  function RenderArgWord(word: seq<byte>, ty: string): string
    requires |word| == 32
  {
    if "uint" <= ty || "int" <= ty then Print(BigEndian(word), 10)
    else if ty == "address" || ty == "address payable" then "0x" + HexText(word[12..])
    else if ty == "bool" then (if exists b :: b in word && b != 0 then "true" else "false")
    else if ty == "string" || ty == "bytes" || (ty != "" && ty[|ty| - 1] == ']') then "<dynamic>"
    else "0x" + HexText(word)
  }

  /** Argument `i` as shown: a declared name in front of the rendered word. */
  function ShownArg(payload: seq<byte>, def: CustomErrorDef, i: nat): string
    requires i < |def.paramTypes| && 32 * i + 32 <= |payload|
  {
    var rendered := RenderArgWord(payload[32 * i..32 * i + 32], def.paramTypes[i]);
    var name := if i < |def.paramNames| then def.paramNames[i] else "";
    if name == "" then rendered else name + "=" + rendered
  }

  /** As many arguments as the payload has whole words for. */
  function ShownArgs(payload: seq<byte>, def: CustomErrorDef): (r: seq<string>) {
    var n := Min(|def.paramTypes|, |payload| / 32);
    seq(n, i requires 0 <= i < n => ShownArg(payload, def, i))
  }

  lemma WholeWords(length: nat, i: nat)
    ensures i < length / 32 <==> i * 32 + 32 <= length
  {
  }

  lemma ShownArgAt(payload: seq<byte>, def: CustomErrorDef, i: nat)
    requires i < |def.paramTypes|
    ensures i * 32 + 32 <= |payload| <==> i < |ShownArgs(payload, def)|
    ensures i * 32 + 32 <= |payload| ==> ShownArgs(payload, def)[i] == ShownArg(payload, def, i)
  {
    WholeWords(|payload|, i);
  }

  ghost predicate ShownSoFar(out: seq<string>, payload: seq<byte>, def: CustomErrorDef, n: nat) {
    n <= |ShownArgs(payload, def)| && out == ShownArgs(payload, def)[..n]
  }

  lemma ShownNext(out: seq<string>, payload: seq<byte>, def: CustomErrorDef, i: nat)
    requires ShownSoFar(out, payload, def, i) && i < |def.paramTypes| && 32 * i + 32 <= |payload|
    ensures ShownSoFar(out + [ShownArg(payload, def, i)], payload, def, i + 1)
  {
    var all := ShownArgs(payload, def);
    ShownArgAt(payload, def, i);
    assert all[..i + 1] == all[..i] + [all[i]];
  }

  lemma ShownAll(out: seq<string>, payload: seq<byte>, def: CustomErrorDef, i: nat)
    requires ShownSoFar(out, payload, def, i) && i <= |def.paramTypes|
    requires i < |def.paramTypes| ==> |payload| < 32 * i + 32
    ensures out == ShownArgs(payload, def)
  {
    if i < |def.paramTypes| {
      ShownArgAt(payload, def, i);
    }
    assert ShownArgs(payload, def)[..|ShownArgs(payload, def)|] == ShownArgs(payload, def);
  }

  method DecodeCustomErrorArgs(payload: seq<byte>, def: CustomErrorDef) returns (out: seq<string>)
    ensures out == ShownArgs(payload, def)
  {
    out := [];
    ghost var n := 0;
    for idx := 0 to |def.paramTypes|
      invariant n == idx && ShownSoFar(out, payload, def, n)
    {
      var slotOff := 32 * idx;
      if |payload| < slotOff + 32 {
        break;
      }
      ShownNext(out, payload, def, idx);
      out := out + [ShownArg(payload, def, idx)];
      n := n + 1;
    }
    ShownAll(out, payload, def, n);
  }

  function JoinedWith(parts: seq<string>, sep: string): string {
    if parts == [] then "" else if |parts| == 1 then parts[0] else parts[0] + sep + JoinedWith(parts[1..], sep)
  }

  /** `lossy` stands for `String::from_utf8_lossy`, `registry` for the custom errors of the ABI. */
  function DecodeRevert(
    output: seq<byte>, registry: map<seq<byte>, CustomErrorDef>, lossy: seq<byte> -> string): DecodedRevert
  {
    var raw := DecodedRevert("RevertRaw", "0x" + HexText(output));
    if output == [] then DecodedRevert("RevertEmpty", "")
    else if |output| < 4 then raw
    else
      var selector, payload := output[..4], output[4..];
      if selector == ERROR_STRING_SELECTOR then
        var text := DecodeErrorString(payload);
        if text.Some? then DecodedRevert("Revert", lossy(text.value)) else raw
      else if selector == PANIC_SELECTOR && 32 <= |payload| then DecodedRevert("Panic", PanicMessage(payload[31]))
      else if selector in registry then
        var def := registry[selector];
        var args := ShownArgs(payload, def);
        DecodedRevert("CustomError", if args == [] then def.name + "()"
          else def.name + "(" + JoinedWith(args, ", ") + ")")
      else raw
  }

  // ---- the inverse: ABI encoding --------------------------------------------------------------------

  /** `Error(string)`: selector, offset 0x20, length, the bytes, zero padding to whole words
      ("Formal Specification of the Encoding" of the Solidity ABI). */
  function EncodeError(m: seq<byte>): seq<byte> {
    [0x08, 0xc3, 0x79, 0xa0] + EncodeString(m)
  }

  function EncodeString(m: seq<byte>): seq<byte> {
    BytesOf(0x20, 32) + BytesOf(|m|, 32) + m + Zeros((32 - |m| % 32) % 32)
  }

  lemma {:induction false} UsizeRoundTrip(n: U64)
    ensures U256ToUsize(BytesOf(n, 32)) == Some(n)
  {
    PowersOf256();
    BytesOfSmall(n, 32, 24);
    BytesOfValue(n, 8);
    var w := BytesOf(n, 32);
    assert w[24..] == BytesOf(n, 8);
    assert forall i :: 0 <= i < 24 ==> w[i] == Zeros(24)[i];
  }

  /** The parts of an encoded string. */
  lemma {:induction false} StringParts(m: seq<byte>)
    ensures var payload := EncodeString(m);
            && 64 + |m| <= |payload| && payload[..32] == BytesOf(0x20, 32)
            && payload[32..][..32] == BytesOf(|m|, 32) && payload[32..][32..][..|m|] == m
  {
    var rest := BytesOf(|m|, 32) + m + Zeros((32 - |m| % 32) % 32);
    assert EncodeString(m) == BytesOf(0x20, 32) + rest;
    assert EncodeString(m)[32..] == rest;
  }

  lemma StringRoundTrip(m: seq<byte>)
    requires |m| < U64_BOUND
    ensures DecodeErrorString(EncodeString(m)) == Some(m)
  {
    StringParts(m);
    UsizeRoundTrip(0x20);
    UsizeRoundTrip(|m|);
  }

  /** Data anywhere in dumped memory is the payload of the REVERT that names it. */
  lemma {:induction false} PayloadInMemory(
    data: seq<byte>, before: seq<byte>, behind: seq<byte>, below: seq<Word>, prefixed: bool)
    requires |before + data + behind| % 32 == 0 && |before + data + behind| < U64_BOUND
    ensures RevertPayload(Some(below + [|data|, |before|]), Some(Dump(before + data + behind, prefixed))) == data
  {
    var mem := before + data + behind;
    DumpRoundTrip(mem, prefixed);
    PayloadIsReturnDataIff(below, |before|, |data|, Some(Dump(mem, prefixed)));
    assert ReturnData(mem, |before|, |data|) == data;
  }

  /** Revert round trip: whatever surrounds an encoded reason in memory, and however the words are
      dumped, the recorder recovers kind "Revert" and the reason's own bytes. */
  lemma {:induction false} RevertRoundTrip(
    m: seq<byte>, before: seq<byte>, behind: seq<byte>, below: seq<Word>, prefixed: bool,
                        registry: map<seq<byte>, CustomErrorDef>, lossy: seq<byte> -> string)
    requires |before + EncodeError(m) + behind| % 32 == 0
    requires |before + EncodeError(m) + behind| < U64_BOUND
    ensures var mem := before + EncodeError(m) + behind;
            DecodeRevert(RevertPayload(Some(below + [|EncodeError(m)|, |before|]), Some(Dump(mem, prefixed))),
              registry, lossy)
            == DecodedRevert("Revert", lossy(m))
  {
    var data := EncodeError(m);
    PayloadInMemory(data, before, behind, below, prefixed);
    assert data[..4] == ERROR_STRING_SELECTOR && data[4..] == EncodeString(m);
    StringRoundTrip(m);
  }

  // ---- panics --------------------------------------------------------------------------------------------

  /** `Panic(uint256)`: selector and code. */
  function EncodePanic(code: Word): seq<byte> {
    [0x4e, 0x48, 0x7b, 0x71] + BytesOf(code, 32)
  }

  /** Panic round trip: an encoded panic anywhere in dumped memory is shown as kind "Panic" with the two hex
      digits of the code's low byte, followed at most by a mnemonic in parentheses. */
  lemma {:induction false} PanicRoundTrip(
    code: Word, before: seq<byte>, behind: seq<byte>, below: seq<Word>, prefixed: bool,
    registry: map<seq<byte>, CustomErrorDef>, lossy: seq<byte> -> string)
    requires |before + EncodePanic(code) + behind| % 32 == 0 && |before + EncodePanic(code) + behind| < U64_BOUND
    ensures var mem, c := before + EncodePanic(code) + behind, code % 0x100;
            var r := DecodeRevert(RevertPayload(Some(below + [36, |before|]), Some(Dump(mem, prefixed))),
              registry, lossy);
            && r.kind == "Panic" && 10 <= |r.message| && r.message[..8] == "panic 0x"
            && Parse(r.message[8..10], 16) == Some(c) && r.message == PanicMessage(c)
            && (10 < |r.message| ==> r.message[10..12] == " (" && r.message[|r.message| - 1] == ')')
  {
    var data, c := EncodePanic(code), code % 0x100;
    PayloadInMemory(data, before, behind, below, prefixed);
    assert data[..4] == PANIC_SELECTOR && data[4..] == BytesOf(code, 32);
    assert BytesOf(code, 32)[31] == c;
    PanicText(c);
  }

  lemma PanicText(c: byte)
    ensures var m := PanicMessage(c);
            && 10 <= |m| && m[..8] == "panic 0x" && Parse(m[8..10], 16) == Some(c)
            && (10 < |m| ==> m[10..12] == " (" && m[|m| - 1] == ')')
  {
    var m, digits := PanicMessage(c), HexText([c]);
    HexTextParses([c]);
    assert [c][..0] == [] && BigEndian([c]) == c;
    assert m[8..10] == digits && m[..8] == "panic 0x";
    if PanicMnemonic(c).Some? {
      assert m == "panic 0x" + digits + " (" + PanicMnemonic(c).value + ")";
    }
  }

  /** The codes of the Solidity documentation ("Panic via assert and Error via require"), as shown. */
  lemma DocumentedPanics()
    ensures PanicMessage(0x00) == "panic 0x" + "00" + (" (" + "generic" + ")")
    ensures PanicMessage(0x01) == "panic 0x" + "01" + (" (" + "assert(false)" + ")")
    ensures PanicMessage(0x11) == "panic 0x" + "11" + (" (" + "arithmetic over/underflow" + ")")
    ensures PanicMessage(0x12) == "panic 0x" + "12" + (" (" + "division or modulo by zero" + ")")
    ensures PanicMessage(0x21) == "panic 0x" + "21" + (" (" + "invalid enum conversion" + ")")
    ensures PanicMessage(0x22) == "panic 0x" + "22" + (" (" + "storage byte array access" + ")")
    ensures PanicMessage(0x31) == "panic 0x" + "31" + (" (" + "pop on empty array" + ")")
    ensures PanicMessage(0x32) == "panic 0x" + "32" + (" (" + "out-of-bounds array access" + ")")
    ensures PanicMessage(0x41) == "panic 0x" + "41" + (" (" + "memory allocation overflow" + ")")
    ensures PanicMessage(0x51) == "panic 0x" + "51" + (" (" + "uninitialized internal function call" + ")")
    ensures forall c: byte :: c !in {0x00, 0x01, 0x11, 0x12, 0x21, 0x22, 0x31, 0x32, 0x41, 0x51} ==>
              PanicMessage(c) == "panic 0x" + HexText([c])
  {
    ByteText(0x00, 0, 0);
    ByteText(0x01, 0, 1);
    ByteText(0x11, 1, 1);
    ByteText(0x12, 1, 2);
    ByteText(0x21, 2, 1);
    ByteText(0x22, 2, 2);
    ByteText(0x31, 3, 1);
    ByteText(0x32, 3, 2);
    ByteText(0x41, 4, 1);
    ByteText(0x51, 5, 1);
  }

  lemma ByteText(c: byte, high: nat, low: nat)
    requires high < 16 && low < 16 && c == 16 * high + low
    ensures HexText([c]) == [DigitChar(high), DigitChar(low)]
  {
    assert c / 16 == high && c % 16 == low;
    HexTextDigits([c], 0);
  }

  // ---- custom errors -------------------------------------------------------------------------------------

  /** An argument of an elementary type. */
  datatype AbiArg = AbiUint(n: Word) | AbiAddress(account: Address) | AbiBool(b: bool)

  /** Its one word ("Formal Specification of the Encoding" of the Solidity ABI). */
  function EncodeArg(a: AbiArg): (r: seq<byte>)
    ensures |r| == 32
  {
    match a
    case AbiUint(n) => BytesOf(n, 32)
    case AbiAddress(account) => BytesOf(account, 32)
    case AbiBool(b) => BytesOf(if b then 1 else 0, 32)
  }

  function EncodeArgs(args: seq<AbiArg>): (r: seq<byte>)
    ensures |r| == 32 * |args|
  {
    if args == [] then [] else EncodeArgs(args[..|args| - 1]) + EncodeArg(args[|args| - 1])
  }

  /** The type text fits the argument. */
  predicate Types(ty: string, a: AbiArg) {
    match a
    case AbiUint(_) => "uint" <= ty
    case AbiAddress(_) => ty == "address" || ty == "address payable"
    case AbiBool(_) => ty == "bool"
  }

  /** What a reader wants to see: decimal digits, the 40 hex digits of an account, true or false. */
  function ArgText(a: AbiArg): string {
    match a
    case AbiUint(n) => Print(n, 10)
    case AbiAddress(account) => "0x" + HexText(BytesOf(account, 20))
    case AbiBool(b) => if b then "true" else "false"
  }

  /** The argument behind its declared name, if it has one. */
  function NamedText(names: seq<string>, args: seq<AbiArg>, i: nat): string
    requires i < |args|
  {
    if i < |names| && names[i] != "" then names[i] + "=" + ArgText(args[i]) else ArgText(args[i])
  }

  function Texts(names: seq<string>, args: seq<AbiArg>): (r: seq<string>)
    ensures |r| == |args|
  {
    seq(|args|, i requires 0 <= i < |args| => NamedText(names, args, i))
  }

  /** A list with separators between its parts, read from its end. */
  function Listed(parts: seq<string>, sep: string): string {
    if parts == [] then ""
    else if |parts| == 1 then parts[0]
    else Listed(parts[..|parts| - 1], sep) + sep + parts[|parts| - 1]
  }

  lemma {:induction false} AddressShown(account: Address, ty: string)
    requires ty == "address" || ty == "address payable"
    ensures RenderArgWord(BytesOf(account, 32), ty) == "0x" + HexText(BytesOf(account, 20))
  {
    assert ty[0] == 'a';
    PowerOf20();
    BytesOfSmall(account, 32, 12);
    assert BytesOf(account, 32)[12..] == BytesOf(account, 20);
  }

  lemma BoolShown(b: bool)
    ensures RenderArgWord(BytesOf(if b then 1 else 0, 32), "bool") == if b then "true" else "false"
  {
    BoolWord(if b then 1 else 0, 32);
    assert "bool"[0] == 'b';
  }

  lemma ArgRoundTrip(a: AbiArg, ty: string)
    requires Types(ty, a)
    ensures RenderArgWord(EncodeArg(a), ty) == ArgText(a)
  {
    match a
    case AbiUint(n) => IntegerArgShown(ty, n);
    case AbiAddress(account) => AddressShown(account, ty);
    case AbiBool(b) => BoolShown(b);
  }

  lemma PowerOf20()
    ensures Pow256(20) == U160_BOUND
  {
    assert Pow256(5) == 0x1_0000000000;
    assert Pow256(10) == 0x1_0000000000_0000000000;
    assert Pow256(15) == 0x1_0000000000_0000000000_0000000000;
  }

  lemma {:induction false} LastByte(n: nat, len: nat)
    requires 0 < len
    ensures BytesOf(n, len)[len - 1] == n % 0x100
  {
  }

  lemma {:induction false} BoolWord(n: nat, len: nat)
    requires n <= 1 && 0 < len
    ensures (exists x :: x in BytesOf(n, len) && x != 0) <==> n == 1
  {
    var word := BytesOf(n, len);
    if n == 1 {
      LastByte(n, len);
      assert word[len - 1] in word;
    } else {
      AllZeros(len);
      assert word == Zeros(len);
    }
  }

  lemma SliceOfEither<T>(a: seq<T>, b: seq<T>, from: nat, end: nat)
    requires from <= end <= |a + b|
    ensures end <= |a| ==> (a + b)[from..end] == a[from..end]
    ensures from == |a| && end == |a + b| ==> (a + b)[from..end] == b
  {
  }

  lemma {:induction false} ArgWordAt(args: seq<AbiArg>, i: nat)
    requires i < |args|
    ensures EncodeArgs(args)[32 * i..32 * i + 32] == EncodeArg(args[i])
  {
    var n := |args| - 1;
    var init, last := EncodeArgs(args[..n]), EncodeArg(args[n]);
    SliceOfEither(init, last, 32 * i, 32 * i + 32);
    if i < n {
      ArgWordAt(args[..n], i);
    }
  }

  lemma {:induction false} JoinedSnoc(parts: seq<string>, last: string, sep: string)
    requires parts != []
    ensures JoinedWith(parts + [last], sep) == JoinedWith(parts, sep) + sep + last
  {
    assert (parts + [last])[1..] == parts[1..] + [last];
    if |parts| > 1 {
      JoinedSnoc(parts[1..], last, sep);
    }
  }

  lemma {:induction false} JoinedIsListed(parts: seq<string>, sep: string)
    ensures JoinedWith(parts, sep) == Listed(parts, sep)
  {
    if |parts| <= 1 {
    } else {
      var init, last := parts[..|parts| - 1], parts[|parts| - 1];
      JoinedIsListed(init, sep);
      JoinedSnoc(init, last, sep);
      assert parts == init + [last];
    }
  }

  /** As many arguments as the payload has whole words for. */
  predicate Covers(args: seq<AbiArg>, rest: seq<byte>, def: CustomErrorDef) {
    && |args| <= |def.paramTypes| && (|args| < |def.paramTypes| ==> |rest| < 32)
    && forall i :: 0 <= i < |args| ==> Types(def.paramTypes[i], args[i])
  }

  lemma {:induction false} ArgWordIn(args: seq<AbiArg>, rest: seq<byte>, i: nat)
    requires i < |args|
    ensures (EncodeArgs(args) + rest)[32 * i..32 * i + 32] == EncodeArg(args[i])
  {
    ArgWordAt(args, i);
    SliceOfEither(EncodeArgs(args), rest, 32 * i, 32 * i + 32);
  }

  lemma ShownWithName(payload: seq<byte>, def: CustomErrorDef, i: nat, text: string)
    requires i < |def.paramTypes| && 32 * i + 32 <= |payload|
    requires RenderArgWord(payload[32 * i..32 * i + 32], def.paramTypes[i]) == text
    ensures ShownArg(payload, def, i)
            == if i < |def.paramNames| && def.paramNames[i] != "" then def.paramNames[i] + "=" + text else text
  {
  }

  lemma {:induction false} ShownArgIs(args: seq<AbiArg>, rest: seq<byte>, def: CustomErrorDef, i: nat)
    requires Covers(args, rest, def) && i < |args|
    ensures ShownArg(EncodeArgs(args) + rest, def, i) == NamedText(def.paramNames, args, i)
  {
    ArgWordIn(args, rest, i);
    ArgRoundTrip(args[i], def.paramTypes[i]);
    ShownWithName(EncodeArgs(args) + rest, def, i, ArgText(args[i]));
  }

  lemma {:induction false} ShownArgsAre(args: seq<AbiArg>, rest: seq<byte>, def: CustomErrorDef)
    requires Covers(args, rest, def)
    ensures ShownArgs(EncodeArgs(args) + rest, def) == Texts(def.paramNames, args)
  {
    var payload := EncodeArgs(args) + rest;
    if |args| < |def.paramTypes| {
      ShownArgAt(payload, def, |args|);
    }
    if args != [] {
      ShownArgAt(payload, def, |args| - 1);
    }
    assert |ShownArgs(payload, def)| == |args|;
    forall i | 0 <= i < |args| ensures ShownArgs(payload, def)[i] == NamedText(def.paramNames, args, i) {
      ShownArgIs(args, rest, def, i);
      ShownArgAt(payload, def, i);
    }
  }

  /** Custom-error round trip: a registered error with elementary arguments, ABI-encoded anywhere in dumped
      memory, is shown with its name and every argument as a reader would write it, behind its declared name; of
      data that is cut off, with the arguments that are whole. */
  lemma {:induction false} CustomErrorRoundTrip(
    selector: seq<byte>, args: seq<AbiArg>, rest: seq<byte>, before: seq<byte>, behind: seq<byte>, below: seq<Word>,
    prefixed: bool, registry: map<seq<byte>, CustomErrorDef>, lossy: seq<byte> -> string)
    requires |selector| == 4 && selector != ERROR_STRING_SELECTOR && selector != PANIC_SELECTOR && selector in registry
    requires Covers(args, rest, registry[selector])
    requires var data := selector + (EncodeArgs(args) + rest);
             |before + data + behind| % 32 == 0 && |before + data + behind| < U64_BOUND
    ensures var data, def := selector + (EncodeArgs(args) + rest), registry[selector];
            DecodeRevert(RevertPayload(Some(below + [|data|, |before|]), Some(Dump(before + data + behind, prefixed))),
                         registry, lossy)
            == DecodedRevert("CustomError", def.name + "(" + Listed(Texts(def.paramNames, args), ", ") + ")")
  {
    var data := selector + (EncodeArgs(args) + rest);
    PayloadInMemory(data, before, behind, below, prefixed);
    CustomErrorShown(selector, args, rest, data, registry, lossy);
  }

  lemma {:induction false} CustomErrorShown(
    selector: seq<byte>, args: seq<AbiArg>, rest: seq<byte>, data: seq<byte>,
    registry: map<seq<byte>, CustomErrorDef>, lossy: seq<byte> -> string)
    requires |selector| == 4 && selector != ERROR_STRING_SELECTOR && selector != PANIC_SELECTOR && selector in registry
    requires Covers(args, rest, registry[selector]) && data == selector + (EncodeArgs(args) + rest)
    ensures var def := registry[selector];
            DecodeRevert(data, registry, lossy)
            == DecodedRevert("CustomError", def.name + "(" + Listed(Texts(def.paramNames, args), ", ") + ")")
  {
    var def := registry[selector];
    assert data[..4] == selector && data[4..] == EncodeArgs(args) + rest;
    ShownArgsAre(args, rest, def);
    JoinedIsListed(Texts(def.paramNames, args), ", ");
    if args == [] {
      assert def.name + "(" + "" + ")" == def.name + "()";
    }
  }

  /** Arguments of other types: strings, byte strings and arrays are not shown, and any other word is shown whole. */
  lemma OtherArgShown(word: seq<byte>, ty: string)
    requires |word| == 32 && !("uint" <= ty) && !("int" <= ty) && ty !in {"address", "address payable", "bool"}
    ensures RenderArgWord(word, ty)
            == if ty in {"string", "bytes"} || (ty != "" && ty[|ty| - 1] == ']') then "<dynamic>"
               else "0x" + HexText(word)
  {
  }

  /** An array of integers is shown as one number, the position of its elements. */
  lemma IntegerArrayMisread()
    ensures RenderArgWord(BytesOf(0x40, 32), "uint256[]") == "64"
  {
    var ty := "uint256[]";
    assert ty[..4] == "uint";
    IntegerArgShown(ty, 0x40);
    assert Print(6, 10) == "6" && Print(0x40, 10) == Print(6, 10) + ['4'];
  }

  /** What cannot be decoded is shown whole: no data, and as hex anything shorter than a selector, with an unknown
      selector, or with a reason or panic that is cut off. */
  lemma UndecodedShown(
    output: seq<byte>, registry: map<seq<byte>, CustomErrorDef>, lossy: seq<byte> -> string)
    ensures output == [] ==> DecodeRevert(output, registry, lossy) == DecodedRevert("RevertEmpty", "")
    ensures 0 < |output| < 4
            || (4 <= |output| && output[..4] == ERROR_STRING_SELECTOR && forall m :: !Carries(output[4..], m))
            || (4 <= |output| && output[..4] !in registry && output[..4] != ERROR_STRING_SELECTOR
                && (output[..4] == PANIC_SELECTOR ==> |output| < 36)) ==>
              |output| < U64_BOUND ==>
                DecodeRevert(output, registry, lossy) == DecodedRevert("RevertRaw", "0x" + HexText(output))
  {
    if 4 <= |output| < U64_BOUND {
      var text := DecodeErrorString(output[4..]);
      if text.Some? {
        DecodesIffCarries(output[4..], text.value);
      }
    }
  }

  /** What it takes for a payload to carry the string `m`: two 64-bit words, the first the position
      of the second, which is the length of the bytes that follow it. */
  ghost predicate Carries(payload: seq<byte>, m: seq<byte>) {
    && 64 <= |payload|
    && BigEndian(payload[..32]) + 32 + |m| <= |payload|
    && var at := BigEndian(payload[..32]);
       BigEndian(payload[at..at + 32]) == |m| && payload[at + 32..at + 32 + |m|] == m
  }

  lemma {:induction false} UsizeIsValue(word: seq<byte>)
    requires |word| == 32
    ensures U256ToUsize(word) == if BigEndian(word) < U64_BOUND then Some(BigEndian(word)) else None
  {
    LeadingZeros(word, 24);
    BigEndianBound(word[24..]);
    PowersOf256();
  }

  /** Decoding is total and exact: a reason is found exactly when the payload carries one. */
  lemma DecodesIffCarries(payload: seq<byte>, m: seq<byte>)
    requires |payload| < U64_BOUND
    ensures DecodeErrorString(payload) == Some(m) <==> Carries(payload, m)
  {
    if 64 <= |payload| {
      UsizeIsValue(payload[..32]);
      var at := BigEndian(payload[..32]);
      if at + 32 <= |payload| {
        assert payload[at..][..32] == payload[at..at + 32];
        UsizeIsValue(payload[at..at + 32]);
        var length := BigEndian(payload[at..at + 32]);
        if at + 32 + length <= |payload| {
          assert payload[at..][32..][..length] == payload[at + 32..at + 32 + length];
        }
      }
    }
  }

  /** An integer argument of a custom error is shown with the digits of the encoded word. */
  lemma {:induction false} IntegerArgShown(ty: string, n: Word)
    requires "uint" <= ty || "int" <= ty
    ensures RenderArgWord(BytesOf(n, 32), ty) == Print(n, 10)
  {
    PowersOf256();
    BytesOfValue(n, 32);
  }

  /** Two's complement, as the ABI encodes a signed integer of any width. */
  function SignedWord(v: int): Word
    requires -U256_BOUND / 2 <= v < U256_BOUND / 2
  {
    if v < 0 then v + U256_BOUND else v
  }

  /** A signed argument is shown as its value exactly when it is not negative. */
  lemma SignedArgShownIff(ty: string, v: int)
    requires "int" <= ty && -U256_BOUND / 2 <= v < U256_BOUND / 2
    ensures RenderArgWord(BytesOf(SignedWord(v), 32), ty) == PrintInt(v) <==> 0 <= v
  {
    IntegerArgShown(ty, SignedWord(v));
    if v < 0 {
      var digits := Print(SignedWord(v), 10);
      PrintedDigits(SignedWord(v));
      assert digits[0] in digits && PrintInt(v)[0] == '-';
    }
  }

  /** The argument -1 is shown as 2^256 - 1. */
  lemma MinusOneShown()
    ensures RenderArgWord(BytesOf(SignedWord(-1), 32), "int256") == Print(U256_BOUND - 1, 10) != PrintInt(-1)
  {
    IntegerArgShown("int256", SignedWord(-1));
    SignedArgShownIff("int256", -1);
  }
}
