/** Names of mapping slots (src/recorder.rs, format_mapping_key and the KECCAK256 handler): every
    cached hash carries the name of the key chain it was derived from. */
module MappingNames {
  import opened Basics
  import opened Numerals
  import opened Bytes
  import opened StorageLayout

  type Key = k: seq<byte> | |k| == 32 witness seq(32, _ => 0)

  /** KECCAK256 as a function of its input. */
  type Hash = seq<byte> -> Word

  predicate IsAddressType(keyType: string) {
    keyType == "address" || keyType == "address payable"
  }

  predicate IsIntegerType(keyType: string) {
    "uint" <= keyType || "int" <= keyType || keyType == "bool"
  }

  function FormatMappingKey(keyType: string, key: Key): string {
    if IsAddressType(keyType) then "0x" + HexText(key[12..])
    else if IsIntegerType(keyType) then "0x" + Print(BigEndian(key), 16)
    else "0x" + HexText(key)
  }

  /** The preimage of a mapping slot: key, then base slot. */
  function HashInput(key: Key, base: Word): (r: seq<byte>)
    ensures |r| == 64
  {
    key + BytesOf(base, 32)
  }

  function WordOf(bytes: Key): Word {
    BigEndianBound(bytes);
    PowersOf256();
    BigEndian(bytes)
  }

  /** The key and base slot that a KECCAK256 step hashes, when it hashes 64 captured bytes. */
  function KeccakOperands(stack: seq<Word>, memory: seq<byte>): Option<(Key, Word)> {
    if |stack| < 2 then None
    else
      var offset, size := stack[|stack| - 1], stack[|stack| - 2];
      if size != 64 || |memory| < 64 || |memory| - 64 < offset then None
      else Some((memory[offset..offset + 32], WordOf(memory[offset + 32..offset + 64])))
  }

  /** What a key hashed onto `base` continues: the declared mapping with its key type, or a cached
      name, whose inner keys are taken for addresses. */
  function Parent(layout: Layout, cache: map<Word, string>, base: Word): Option<(string, string)> {
    if base < U64_BOUND && IsMapping(layout, base) then MappingAtBase(layout, base)
    else if base in cache then Some((cache[base], "address"))
    else None
  }

  /** The cache after hashing `key` onto `base`. */
  function Recorded(layout: Layout, hash: Hash, cache: map<Word, string>, key: Key, base: Word): map<Word, string> {
    var parent := Parent(layout, cache, base);
    if parent.None? then cache
    else cache[hash(HashInput(key, base)) := parent.value.0 + "[" + FormatMappingKey(parent.value.1, key) + "]"]
  }

  /** The cache after a KECCAK256 step. */
  function Handled(layout: Layout, hash: Hash, cache: map<Word, string>, stack: seq<Word>, memory: seq<byte>)
    : map<Word, string>
  {
    var hashed := KeccakOperands(stack, memory);
    if hashed.Some? then Recorded(layout, hash, cache, hashed.value.0, hashed.value.1) else cache
  }

  function RecordedAll(layout: Layout, hash: Hash, hashed: seq<(Key, Word)>): map<Word, string> {
    if hashed == [] then map[]
    else
      var last := hashed[|hashed| - 1];
      Recorded(layout, hash, RecordedAll(layout, hash, hashed[..|hashed| - 1]), last.0, last.1)
  }

  /** The KECCAK256 handler on a step's operands, as the recorder runs it. */
  method RecordMappingSlot(layout: Layout, hash: Hash, cache: map<Word, string>, stack: seq<Word>, memory: seq<byte>)
    returns (after: map<Word, string>)
    requires |memory| < U64_BOUND - 1
    ensures after == Handled(layout, hash, cache, stack, memory)
  {
    after := cache;
    if 2 <= |stack| {
      var offset, size := stack[|stack| - 1], stack[|stack| - 2];
      if size == 64 && offset < U64_BOUND {
        var end := if offset + 64 < U64_BOUND then offset + 64 else U64_BOUND - 1;
        if end <= |memory| {
          var input := memory[offset..end];
          var keyBytes: Key, slotBytes: Key := input[..32], input[32..];
          var baseSlot := WordOf(slotBytes);
          var derivedSlot := hash(input);
          assert slotBytes == memory[offset + 32..offset + 64] && keyBytes == memory[offset..offset + 32];
          WordRoundTrip(slotBytes);
          assert HashInput(keyBytes, baseSlot) == input;
          var mapping := if baseSlot < U64_BOUND then MappingAtBase(layout, baseSlot) else None;
          if mapping.Some? {
            after := cache[derivedSlot := mapping.value.0 + "[" + FormatMappingKey(mapping.value.1, keyBytes) + "]"];
          } else if baseSlot in cache {
            after := cache[derivedSlot := cache[baseSlot] + "[" + FormatMappingKey("address", keyBytes) + "]"];
          }
        }
      }
    }
  }

  /** What KECCAK256 pushes: the hash of its memory range, with the offset on top of the stack and the size below. */
  function Keccak(hash: Hash, stack: seq<Word>, memory: seq<byte>): Word
    requires 2 <= |stack| && stack[|stack| - 1] + stack[|stack| - 2] <= |memory|
  {
    hash(memory[stack[|stack| - 1]..][..stack[|stack| - 2]])
  }

  lemma {:induction false} KeyAndBase(before: seq<byte>, key: Key, base: Word, behind: seq<byte>)
    ensures var memory, at := before + key + BytesOf(base, 32) + behind, |before|;
            && memory[at..at + 32] == key && memory[at + 32..at + 64] == BytesOf(base, 32)
            && memory[at..][..64] == key + BytesOf(base, 32) && BigEndian(BytesOf(base, 32)) == base
  {
    PowersOf256();
    BytesOfValue(base, 32);
  }

  /** The names once the slot `derived` of `key` under `base` is known: it is called after the mapping declared at
      the base, with its key type; otherwise after the name that the base has itself, with the key as an address;
      otherwise it stays unnamed. */
  function Named(layout: Layout, cache: map<Word, string>, key: Key, base: Word, derived: Word): map<Word, string> {
    if base < U64_BOUND && MappingAtBase(layout, base).Some? then
      var (name, keyType) := MappingAtBase(layout, base).value;
      cache[derived := name + "[" + FormatMappingKey(keyType, key) + "]"]
    else if base in cache then cache[derived := cache[base] + "[" + FormatMappingKey("address", key) + "]"]
    else cache
  }

  /** Hashing a key that lies in front of a base slot in memory, whatever surrounds them, names the very slot that
      the EVM computes. */
  lemma {:induction false} HashNamesSlot(
    layout: Layout, hash: Hash, cache: map<Word, string>, below: seq<Word>, before: seq<byte>, key: Key, base: Word,
    behind: seq<byte>)
    requires |before| < U256_BOUND
    ensures var memory, stack := before + key + BytesOf(base, 32) + behind, below + [64, |before|];
            Handled(layout, hash, cache, stack, memory) == Named(layout, cache, key, base, Keccak(hash, stack, memory))
    ensures Keccak(hash, below + [64, |before|], before + key + BytesOf(base, 32) + behind)
            == hash(key + BytesOf(base, 32))
  {
    var memory, stack := before + key + BytesOf(base, 32) + behind, below + [64, |before|];
    KeyAndBase(before, key, base, behind);
    assert stack[|stack| - 1] == |before| && stack[|stack| - 2] == 64;
    assert KeccakOperands(stack, memory) == Some((key, base));
  }

  /** Any other KECCAK256 names nothing: too few operands, another size, or a range beyond the snapshot. */
  lemma OtherHashNamesNothing(
    layout: Layout, hash: Hash, cache: map<Word, string>, below: seq<Word>, offset: Word, size: Word, memory: seq<byte>)
    ensures |below| < 2 ==> Handled(layout, hash, cache, below, memory) == cache
    ensures size != 64 || |memory| < offset + 64 ==>
              Handled(layout, hash, cache, below + [size, offset], memory) == cache
  {
    var stack := below + [size, offset];
    assert stack[|stack| - 1] == offset && stack[|stack| - 2] == size;
  }

  // ---- key texts --------------------------------------------------------------------------------------

  /** An address key is shown as "0x" and the 40 lower-case digits of its low 20 bytes. */
  lemma AddressKeyText(keyType: string, key: Key)
    requires keyType == "address" || keyType == "address payable"
    ensures var text := FormatMappingKey(keyType, key);
            && |text| == 42 && text[..2] == "0x" && Parse(text[2..], 16) == Some(BigEndian(key[12..]))
            && forall c :: c in text[2..] ==> IsLowerDigit(c)
  {
    HexTextParses(key[12..]);
    HexTextLower(key[12..]);
    PrefixedText(HexText(key[12..]));
  }

  /** An integer or bool key is shown as "0x" and the shortest lower-case digits of its value. */
  lemma {:induction false} IntegerKeyText(keyType: string, key: Key)
    requires "uint" <= keyType || "int" <= keyType || keyType == "bool"
    ensures var text := FormatMappingKey(keyType, key);
            && 3 <= |text| && text[..2] == "0x" && Parse(text[2..], 16) == Some(BigEndian(key))
            && (text[2] == '0' ==> text == "0x0") && forall c :: c in text[2..] ==> IsLowerDigit(c)
  {
    assert keyType[0] == 'u' || keyType[0] == 'i' || keyType[0] == 'b';
    ParsePrint(BigEndian(key), 16);
    PrintShortest(BigEndian(key), 16);
    PrefixedText(Print(BigEndian(key), 16));
  }

  /** Any other key is shown as "0x" and all its 64 lower-case digits. */
  lemma {:induction false} OtherKeyText(keyType: string, key: Key)
    requires keyType !in {"address", "address payable", "bool"} && !("uint" <= keyType) && !("int" <= keyType)
    ensures var text := FormatMappingKey(keyType, key);
            && |text| == 66 && text[..2] == "0x" && Parse(text[2..], 16) == Some(BigEndian(key))
            && forall c :: c in text[2..] ==> IsLowerDigit(c)
  {
    HexTextParses(key);
    HexTextLower(key);
    PrefixedText(HexText(key));
  }

  lemma PrefixedText(digits: string)
    ensures var text := "0x" + digits;
            |text| == |digits| + 2 && text[..2] == "0x" && text[2..] == digits
              && (digits != "" ==> text[2] == digits[0])
  {
  }

  // ---- key chains -------------------------------------------------------------------------------------

  /** The slot of `m[k1]..[kn]`, where m is declared at `base`. */
  function ChainSlot(hash: Hash, base: U64, keys: seq<Key>): Word {
    if keys == [] then base else hash(HashInput(keys[|keys| - 1], ChainSlot(hash, base, keys[..|keys| - 1])))
  }

  predicate IsMapping(layout: Layout, base: U64) {
    MappingAtBase(layout, base).Some?
  }

  /** The key at a level as written: the declared key type first, addresses at every inner level. */
  function ShownKey(layout: Layout, base: U64, level: nat, key: Key): string
    requires IsMapping(layout, base)
  {
    FormatMappingKey(if level == 0 then MappingAtBase(layout, base).value.1 else "address", key)
  }

  /** The name of `m[k1]..[kn]`. */
  function ChainName(layout: Layout, base: U64, keys: seq<Key>): string
    requires IsMapping(layout, base)
  {
    if keys == [] then MappingAtBase(layout, base).value.0
    else
      var n := |keys| - 1;
      ChainName(layout, base, keys[..n]) + "[" + ShownKey(layout, base, n, keys[n]) + "]"
  }

  /** The 64-byte inputs hashed in a run. */
  type Inputs = set<seq<byte>>

  predicate AllSeen(seen: Inputs, hashed: seq<(Key, Word)>) {
    forall h :: h in hashed ==> HashInput(h.0, h.1) in seen
  }

  /** Every link of the chain was hashed. */
  predicate Linked(hash: Hash, seen: Inputs, base: U64, keys: seq<Key>) {
    keys == [] ||
    (var n := |keys| - 1;
     HashInput(keys[n], ChainSlot(hash, base, keys[..n])) in seen && Linked(hash, seen, base, keys[..n]))
  }

  /** The hash behaves like one on what was hashed: no collisions, no output that is a mapping's base slot. */
  ghost predicate CollisionFree(layout: Layout, hash: Hash, seen: Inputs) {
    && (forall a, b :: a in seen && b in seen ==> NoCollision(hash, a, b))
    && (forall a :: a in seen ==> NotABase(layout, hash, a))
  }

  predicate NoCollision(hash: Hash, a: seq<byte>, b: seq<byte>) {
    hash(a) == hash(b) ==> a == b
  }

  predicate NotABase(layout: Layout, hash: Hash, a: seq<byte>) {
    hash(a) < U64_BOUND ==> !IsMapping(layout, hash(a))
  }

  lemma WordRoundTrip(bytes: Key)
    ensures BytesOf(WordOf(bytes), 32) == bytes
  {
    PowersOf256();
    BytesOfValue(WordOf(bytes), 32);
    BigEndianInjective(BytesOf(WordOf(bytes), 32), bytes);
  }

  lemma HashInputInjective(k: Key, a: Word, l: Key, b: Word)
    requires HashInput(k, a) == HashInput(l, b)
    ensures k == l && a == b
  {
    assert HashInput(k, a)[..32] == k && HashInput(l, b)[..32] == l;
    assert HashInput(k, a)[32..] == BytesOf(a, 32) && HashInput(l, b)[32..] == BytesOf(b, 32);
    PowersOf256();
    BytesOfValue(a, 32);
    BytesOfValue(b, 32);
  }

  lemma HashedApart(layout: Layout, hash: Hash, seen: Inputs, k: Key, a: Word, l: Key, b: Word)
    requires CollisionFree(layout, hash, seen) && HashInput(k, a) in seen && HashInput(l, b) in seen
    requires hash(HashInput(k, a)) == hash(HashInput(l, b))
    ensures k == l && a == b
  {
    assert NoCollision(hash, HashInput(k, a), HashInput(l, b));
    HashInputInjective(k, a, l, b);
  }

  lemma {:induction false} DerivedIsNoBase(
    layout: Layout, hash: Hash, seen: Inputs, base: U64, keys: seq<Key>, other: U64)
    requires CollisionFree(layout, hash, seen) && Linked(hash, seen, base, keys)
             && IsMapping(layout, other) && keys != []
    ensures ChainSlot(hash, base, keys) != other
  {
    var n := |keys| - 1;
    assert NotABase(layout, hash, HashInput(keys[n], ChainSlot(hash, base, keys[..n])));
  }

  /** Equal slots come from equal last links. */
  lemma {:induction false} LastLink(
    layout: Layout, hash: Hash, seen: Inputs, base: U64, keys: seq<Key>, base': U64, keys': seq<Key>)
    requires CollisionFree(layout, hash, seen) && keys != [] && keys' != []
    requires Linked(hash, seen, base, keys) && Linked(hash, seen, base', keys')
    requires ChainSlot(hash, base, keys) == ChainSlot(hash, base', keys')
    ensures keys[|keys| - 1] == keys'[|keys'| - 1]
    ensures ChainSlot(hash, base, keys[..|keys| - 1]) == ChainSlot(hash, base', keys'[..|keys'| - 1])
  {
    var n, n' := |keys| - 1, |keys'| - 1;
    HashedApart(layout, hash, seen, keys[n], ChainSlot(hash, base, keys[..n]), keys'[n'],
      ChainSlot(hash, base', keys'[..n']));
  }

  /** A slot has at most one hashed chain. */
  lemma {:induction false} ChainUnique(
    layout: Layout, hash: Hash, seen: Inputs, base: U64, keys: seq<Key>, base': U64, keys': seq<Key>)
    requires CollisionFree(layout, hash, seen) && IsMapping(layout, base) && IsMapping(layout, base')
    requires Linked(hash, seen, base, keys) && Linked(hash, seen, base', keys')
    requires ChainSlot(hash, base, keys) == ChainSlot(hash, base', keys')
    ensures base == base' && keys == keys'
  {
    if keys != [] {
      DerivedIsNoBase(layout, hash, seen, base, keys, base');
    }
    if keys' != [] {
      DerivedIsNoBase(layout, hash, seen, base', keys', base);
    }
    if keys == [] {
    } else {
      var n, n' := |keys| - 1, |keys'| - 1;
      LastLink(layout, hash, seen, base, keys, base', keys');
      ChainUnique(layout, hash, seen, base, keys[..n], base', keys'[..n']);
      assert keys == keys[..n] + [keys[n]] && keys' == keys'[..n'] + [keys'[n']];
    }
  }

  // ---- provenance over runs -----------------------------------------------------------------------------

  /** `h` is the slot of that chain and is cached under its name. */
  predicate Derives(
    layout: Layout, hash: Hash, seen: Inputs, cache: map<Word, string>, h: Word, base: U64, keys: seq<Key>)
  {
    && IsMapping(layout, base) && keys != [] && Linked(hash, seen, base, keys)
    && ChainSlot(hash, base, keys) == h
    && h in cache && cache[h] == ChainName(layout, base, keys)
  }

  ghost predicate Provenance(layout: Layout, hash: Hash, seen: Inputs, cache: map<Word, string>) {
    forall h :: h in cache ==> exists base, keys :: Derives(layout, hash, seen, cache, h, base, keys)
  }

  /** The empty chain, or a chain whose slot is cached under its name. */
  predicate Known(layout: Layout, hash: Hash, seen: Inputs, cache: map<Word, string>, base: U64, keys: seq<Key>) {
    IsMapping(layout, base)
      && (keys == [] || Derives(layout, hash, seen, cache, ChainSlot(hash, base, keys), base, keys))
  }

  lemma {:induction false} KnownParent(
    layout: Layout, hash: Hash, seen: Inputs, cache: map<Word, string>, base: U64, keys: seq<Key>)
    requires CollisionFree(layout, hash, seen) && Known(layout, hash, seen, cache, base, keys)
    ensures Parent(layout, cache, ChainSlot(hash, base, keys))
            == Some((ChainName(layout, base, keys),
                     if keys == [] then MappingAtBase(layout, base).value.1 else "address"))
  {
    if keys == [] {
      var m := MappingAtBase(layout, base).value;
      assert m == (m.0, m.1);
    } else {
      var n := |keys| - 1;
      assert NotABase(layout, hash, HashInput(keys[n], ChainSlot(hash, base, keys[..n])));
    }
  }

  lemma {:induction false} LongerChain(layout: Layout, hash: Hash, seen: Inputs, base: U64, keys: seq<Key>, key: Key)
    requires IsMapping(layout, base)
    ensures ChainSlot(hash, base, keys + [key]) == hash(HashInput(key, ChainSlot(hash, base, keys)))
    ensures Linked(hash, seen, base, keys + [key])
            <==> HashInput(key, ChainSlot(hash, base, keys)) in seen && Linked(hash, seen, base, keys)
    ensures ChainName(layout, base, keys + [key])
            == ChainName(layout, base, keys) + "[" + ShownKey(layout, base, |keys|, key) + "]"
  {
    assert (keys + [key])[..|keys|] == keys;
  }

  lemma RecordedAt(
    layout: Layout, hash: Hash, cache: map<Word, string>, key: Key, slot: Word, name: string, keyType: string)
    requires Parent(layout, cache, slot) == Some((name, keyType))
    ensures var h, after := hash(HashInput(key, slot)), Recorded(layout, hash, cache, key, slot);
            h in after && after[h] == name + "[" + FormatMappingKey(keyType, key) + "]"
  {
  }

  /** Hashing the next key onto a known chain caches the longer chain. */
  lemma {:induction false} ChainStep(
    layout: Layout, hash: Hash, seen: Inputs, cache: map<Word, string>, base: U64, keys: seq<Key>, key: Key)
    requires CollisionFree(layout, hash, seen) && Known(layout, hash, seen, cache, base, keys)
    requires HashInput(key, ChainSlot(hash, base, keys)) in seen
    ensures var slot := ChainSlot(hash, base, keys);
            Derives(layout, hash, seen, Recorded(layout, hash, cache, key, slot),
              hash(HashInput(key, slot)), base, keys + [key])
  {
    var keyType := if keys == [] then MappingAtBase(layout, base).value.1 else "address";
    KnownParent(layout, hash, seen, cache, base, keys);
    LongerChain(layout, hash, seen, base, keys, key);
    RecordedAt(layout, hash, cache, key, ChainSlot(hash, base, keys), ChainName(layout, base, keys), keyType);
  }

  lemma ChainOf(layout: Layout, hash: Hash, seen: Inputs, cache: map<Word, string>, h: Word)
    returns (base: U64, keys: seq<Key>)
    requires Provenance(layout, hash, seen, cache) && h in cache
    ensures Derives(layout, hash, seen, cache, h, base, keys)
  {
    base, keys :| Derives(layout, hash, seen, cache, h, base, keys);
  }

  /** The known chain that a parent stands for. */
  lemma ParentChain(layout: Layout, hash: Hash, seen: Inputs, cache: map<Word, string>, slot: Word)
    returns (base: U64, keys: seq<Key>)
    requires Provenance(layout, hash, seen, cache) && Parent(layout, cache, slot).Some?
    ensures Known(layout, hash, seen, cache, base, keys) && ChainSlot(hash, base, keys) == slot
  {
    if slot < U64_BOUND && IsMapping(layout, slot) {
      base, keys := slot, [];
    } else {
      base, keys := ChainOf(layout, hash, seen, cache, slot);
    }
  }

  /** Where the entry added by a step comes from. */
  lemma NewEntry(layout: Layout, hash: Hash, seen: Inputs, cache: map<Word, string>, key: Key, slot: Word)
    returns (base: U64, keys: seq<Key>)
    requires CollisionFree(layout, hash, seen) && Provenance(layout, hash, seen, cache)
             && Parent(layout, cache, slot).Some?
    requires HashInput(key, slot) in seen
    ensures Derives(layout, hash, seen, Recorded(layout, hash, cache, key, slot),
            hash(HashInput(key, slot)), base, keys)
  {
    var parentKeys;
    base, parentKeys := ParentChain(layout, hash, seen, cache, slot);
    ChainStep(layout, hash, seen, cache, base, parentKeys, key);
    keys := parentKeys + [key];
  }

  lemma RecordedElsewhere(layout: Layout, hash: Hash, cache: map<Word, string>, key: Key, slot: Word, h: Word)
    requires h != hash(HashInput(key, slot)) || Parent(layout, cache, slot).None?
    ensures h in Recorded(layout, hash, cache, key, slot) <==> h in cache
    ensures h in cache ==> Recorded(layout, hash, cache, key, slot)[h] == cache[h]
  {
  }

  /** A cached slot keeps its name, even when it is hashed again. */
  lemma RecordedKeepsName(
    layout: Layout, hash: Hash, seen: Inputs, cache: map<Word, string>, key: Key, slot: Word, h: Word)
    requires CollisionFree(layout, hash, seen) && Provenance(layout, hash, seen, cache)
             && h in cache && HashInput(key, slot) in seen
    ensures h in Recorded(layout, hash, cache, key, slot) && Recorded(layout, hash, cache, key, slot)[h] == cache[h]
  {
    if h != hash(HashInput(key, slot)) || Parent(layout, cache, slot).None? {
      RecordedElsewhere(layout, hash, cache, key, slot, h);
    } else {
      var base', keys' := NewEntry(layout, hash, seen, cache, key, slot);
      var base, keys := ChainOf(layout, hash, seen, cache, h);
      ChainUnique(layout, hash, seen, base, keys, base', keys');
    }
  }

  lemma RecordedKeeps(layout: Layout, hash: Hash, seen: Inputs, cache: map<Word, string>, key: Key, slot: Word)
    requires CollisionFree(layout, hash, seen) && Provenance(layout, hash, seen, cache) && HashInput(key, slot) in seen
    ensures Provenance(layout, hash, seen, Recorded(layout, hash, cache, key, slot))
  {
    var after := Recorded(layout, hash, cache, key, slot);
    forall h | h in after ensures exists base, keys :: Derives(layout, hash, seen, after, h, base, keys) {
      if h in cache {
        RecordedKeepsName(layout, hash, seen, cache, key, slot, h);
        var base, keys := ChainOf(layout, hash, seen, cache, h);
        assert Derives(layout, hash, seen, after, h, base, keys);
      } else {
        if h != hash(HashInput(key, slot)) || Parent(layout, cache, slot).None? {
          RecordedElsewhere(layout, hash, cache, key, slot, h);
        }
        var base, keys := NewEntry(layout, hash, seen, cache, key, slot);
      }
    }
  }

  predicate Extends(before: map<Word, string>, now: map<Word, string>) {
    forall h :: h in before ==> h in now && now[h] == before[h]
  }

  /** Provenance over whole runs: every cached slot carries the name of the one chain it is the
      slot of, and once cached a slot keeps its name. */
  lemma {:induction false} NamesHaveProvenance(
    layout: Layout, hash: Hash, seen: Inputs, hashed: seq<(Key, Word)>, earlier: nat)
    requires CollisionFree(layout, hash, seen) && AllSeen(seen, hashed) && earlier <= |hashed|
    ensures Provenance(layout, hash, seen, RecordedAll(layout, hash, hashed))
    ensures Extends(RecordedAll(layout, hash, hashed[..earlier]), RecordedAll(layout, hash, hashed))
    decreases |hashed|
  {
    if earlier == |hashed| {
      assert hashed[..earlier] == hashed;
    }
    if hashed == [] {
    } else {
      var init, last := hashed[..|hashed| - 1], hashed[|hashed| - 1];
      NamesHaveProvenance(layout, hash, seen, init, Min(earlier, |init|));
      var was := RecordedAll(layout, hash, init);
      RecordedKeeps(layout, hash, seen, was, last.0, last.1);
      if earlier < |hashed| {
        assert init[..earlier] == hashed[..earlier];
        forall h | h in was
          ensures h in RecordedAll(layout, hash, hashed) && RecordedAll(layout, hash, hashed)[h] == was[h]
        {
          RecordedKeepsName(layout, hash, seen, was, last.0, last.1, h);
        }
      }
    }
  }

  /** The hashes that derive a chain's slot, outermost key first. */
  function ChainHashes(hash: Hash, base: U64, keys: seq<Key>): seq<(Key, Word)> {
    if keys == [] then []
    else
      var init := keys[..|keys| - 1];
      ChainHashes(hash, base, init) + [(keys[|keys| - 1], ChainSlot(hash, base, init))]
  }

  lemma {:induction false} HashedStep(layout: Layout, hash: Hash, seen: Inputs, base: U64, keys: seq<Key>, key: Key)
    requires CollisionFree(layout, hash, seen)
             && Known(layout, hash, seen, RecordedAll(layout, hash, ChainHashes(hash, base, keys)), base, keys)
    requires HashInput(key, ChainSlot(hash, base, keys)) in seen
    ensures Known(layout, hash, seen, RecordedAll(layout, hash, ChainHashes(hash, base, keys + [key])),
            base, keys + [key])
  {
    var longer := ChainHashes(hash, base, keys + [key]);
    assert (keys + [key])[..|keys|] == keys;
    assert longer[..|longer| - 1] == ChainHashes(hash, base, keys);
    ChainStep(layout, hash, seen, RecordedAll(layout, hash, ChainHashes(hash, base, keys)), base, keys, key);
  }

  /** Hashing a chain level by level leaves its slot cached under its name. */
  lemma {:induction false} HashedChainIsCached(layout: Layout, hash: Hash, seen: Inputs, base: U64, keys: seq<Key>)
    requires CollisionFree(layout, hash, seen) && IsMapping(layout, base) && Linked(hash, seen, base, keys)
    ensures Known(layout, hash, seen, RecordedAll(layout, hash, ChainHashes(hash, base, keys)), base, keys)
  {
    if keys == [] {
    } else {
      var init, key := keys[..|keys| - 1], keys[|keys| - 1];
      HashedChainIsCached(layout, hash, seen, base, init);
      HashedStep(layout, hash, seen, base, init, key);
      assert keys == init + [key];
    }
  }

  // ---- when names are distinct ----------------------------------------------------------------------------

  /** Keys that the formatting of a level cannot tell apart: addresses lose their upper 12 bytes. */
  predicate LooksLike(keyType: string, a: Key, b: Key) {
    if IsAddressType(keyType) then a[12..] == b[12..] else a == b
  }

  lemma PrefixedEqualIff(a: string, b: string)
    ensures "0x" + a == "0x" + b <==> a == b
  {
    assert ("0x" + a)[2..] == a && ("0x" + b)[2..] == b;
  }

  lemma {:induction false} IntegerTextInjective(a: Key, b: Key)
    ensures Print(BigEndian(a), 16) == Print(BigEndian(b), 16) <==> a == b
  {
    if Print(BigEndian(a), 16) == Print(BigEndian(b), 16) {
      PrintInjective(BigEndian(a), BigEndian(b), 16);
      BigEndianInjective(a, b);
    }
  }

  lemma FormatInjective(keyType: string, a: Key, b: Key)
    ensures FormatMappingKey(keyType, a) == FormatMappingKey(keyType, b) <==> LooksLike(keyType, a, b)
  {
    if IsAddressType(keyType) {
      PrefixedEqualIff(HexText(a[12..]), HexText(b[12..]));
      HexTextInjective(a[12..], b[12..]);
    } else if IsIntegerType(keyType) {
      PrefixedEqualIff(Print(BigEndian(a), 16), Print(BigEndian(b), 16));
      IntegerTextInjective(a, b);
    } else {
      PrefixedEqualIff(HexText(a), HexText(b));
      HexTextInjective(a, b);
    }
  }

  lemma {:induction false} PrintHasNoBracket(n: nat)
    ensures ']' !in Print(n, 16)
  {
    assert DigitValue(']', 16).None?;
  }

  lemma FormatHasNoBracket(keyType: string, a: Key)
    ensures ']' !in FormatMappingKey(keyType, a)
  {
    PrintHasNoBracket(BigEndian(a));
    assert ']' !in "0x" && ']' !in HexText(a[12..]) && ']' !in HexText(a);
  }

  function Brackets(parts: seq<string>): string {
    if parts == [] then "" else "[" + parts[0] + "]" + Brackets(parts[1..])
  }

  lemma {:induction false} BracketsAppend(parts: seq<string>, last: string)
    ensures Brackets(parts + [last]) == Brackets(parts) + "[" + last + "]"
  {
    if parts == [] {
      assert ([] + [last])[1..] == [];
    } else {
      BracketsAppend(parts[1..], last);
      assert (parts + [last])[1..] == parts[1..] + [last];
    }
  }

  function ShownKeys(layout: Layout, base: U64, keys: seq<Key>): (r: seq<string>)
    requires IsMapping(layout, base)
    ensures |r| == |keys|
  {
    seq(|keys|, i requires 0 <= i < |keys| => ShownKey(layout, base, i, keys[i]))
  }

  lemma Regrouped(a: string, b: string, key: string)
    ensures a + b + "[" + key + "]" == a + (b + "[" + key + "]")
  {
  }

  lemma {:induction false} ChainNameIsBracketed(layout: Layout, base: U64, keys: seq<Key>)
    requires IsMapping(layout, base)
    ensures ChainName(layout, base, keys)
            == MappingAtBase(layout, base).value.0 + Brackets(ShownKeys(layout, base, keys))
  {
    if keys == [] {
      assert ShownKeys(layout, base, keys) == [];
    } else {
      var n := |keys| - 1;
      var shown, last := ShownKeys(layout, base, keys[..n]), ShownKey(layout, base, n, keys[n]);
      var mapping := MappingAtBase(layout, base).value.0;
      assert ShownKeys(layout, base, keys) == shown + [last];
      BracketsAppend(shown, last);
      ChainNameIsBracketed(layout, base, keys[..n]);
      Regrouped(mapping, Brackets(shown), last);
    }
  }

  lemma {:induction false} BracketsInjective(a: seq<string>, b: seq<string>)
    requires forall p :: p in a || p in b ==> ']' !in p
    requires Brackets(a) == Brackets(b)
    ensures a == b
  {
    if a == [] || b == [] {
      assert a == [] && b == [];
    } else {
      var ra, rb := Brackets(a[1..]), Brackets(b[1..]);
      assert Brackets(a)[1..] == a[0] + [']'] + ra && Brackets(b)[1..] == b[0] + [']'] + rb;
      FirstSeparator(a[0], ra, b[0], rb, ']');
      BracketsInjective(a[1..], b[1..]);
      assert a == [a[0]] + a[1..] && b == [b[0]] + b[1..];
    }
  }

  predicate ChainsLookAlike(layout: Layout, base: U64, keys: seq<Key>, keys': seq<Key>)
    requires IsMapping(layout, base)
  {
    && |keys| == |keys'|
    && forall i :: 0 <= i < |keys| ==>
       LooksLike(if i == 0 then MappingAtBase(layout, base).value.1 else "address", keys[i], keys'[i])
  }

  /** Mapping labels are identifiers and differ between base slots. */
  ghost predicate LabelsDistinct(layout: Layout) {
    forall a: U64, b: U64 :: IsMapping(layout, a) && IsMapping(layout, b) ==>
      IsIdentifier(MappingAtBase(layout, a).value.0)
        && (MappingAtBase(layout, a).value.0 == MappingAtBase(layout, b).value.0 ==> a == b)
  }

  lemma ShownKeysPlain(layout: Layout, base: U64, keys: seq<Key>)
    requires IsMapping(layout, base)
    ensures forall p :: p in ShownKeys(layout, base, keys) ==> ']' !in p
  {
    var shown := ShownKeys(layout, base, keys);
    forall i | 0 <= i < |shown| ensures ']' !in shown[i] {
      FormatHasNoBracket(if i == 0 then MappingAtBase(layout, base).value.1 else "address", keys[i]);
    }
  }

  lemma ShownKeysEqualIff(layout: Layout, base: U64, keys: seq<Key>, keys': seq<Key>)
    requires IsMapping(layout, base)
    ensures ShownKeys(layout, base, keys) == ShownKeys(layout, base, keys')
            <==> ChainsLookAlike(layout, base, keys, keys')
  {
    var shown, shown' := ShownKeys(layout, base, keys), ShownKeys(layout, base, keys');
    if |keys| == |keys'| {
      forall i | 0 <= i < |keys|
        ensures shown[i] == shown'[i]
                <==> LooksLike(if i == 0 then MappingAtBase(layout, base).value.1 else "address", keys[i], keys'[i])
      {
        FormatInjective(if i == 0 then MappingAtBase(layout, base).value.1 else "address", keys[i], keys'[i]);
      }
    }
  }

  lemma Opened(head: string, parts: seq<string>) returns (rest: string)
    requires parts != []
    ensures Brackets(parts) == ['['] + rest && head + Brackets(parts) == head + ['['] + rest
  {
    rest := Brackets(parts)[1..];
  }

  /** A bracketed name determines its head and its bracketed parts. */
  lemma {:induction false} BracketedNameParts(head: string, parts: seq<string>, head': string, parts': seq<string>)
    requires '[' !in head && '[' !in head' && parts != [] && parts' != []
    requires forall p :: p in parts || p in parts' ==> ']' !in p
    requires head + Brackets(parts) == head' + Brackets(parts')
    ensures head == head' && parts == parts'
  {
    var rest := Opened(head, parts);
    var rest' := Opened(head', parts');
    FirstSeparator(head, rest, head', rest', '[');
    BracketsInjective(parts, parts');
  }

  /** Two chains share a name exactly when they start at the same mapping, are equally long, and
      their keys differ at most in bytes that formatting drops. */
  lemma {:induction false} SameNameIff(layout: Layout, base: U64, keys: seq<Key>, base': U64, keys': seq<Key>)
    requires LabelsDistinct(layout) && IsMapping(layout, base) && IsMapping(layout, base') && keys != [] && keys' != []
    ensures ChainName(layout, base, keys) == ChainName(layout, base', keys')
            <==> base == base' && ChainsLookAlike(layout, base, keys, keys')
  {
    ChainNameIsBracketed(layout, base, keys);
    ChainNameIsBracketed(layout, base', keys');
    if ChainName(layout, base, keys) == ChainName(layout, base', keys') {
      ShownKeysPlain(layout, base, keys);
      ShownKeysPlain(layout, base', keys');
      BracketedNameParts(MappingAtBase(layout, base).value.0, ShownKeys(layout, base, keys),
                         MappingAtBase(layout, base').value.0, ShownKeys(layout, base', keys'));
    }
    if base == base' {
      ShownKeysEqualIff(layout, base, keys, keys');
    }
  }

  /** A key that is an address: its upper 12 bytes are zero. */
  predicate IsNarrow(k: Key) {
    k[..12] == Zeros(12)
  }

  /** Keys that are shown as addresses fit in 160 bits. */
  predicate NarrowWhereShort(layout: Layout, base: U64, keys: seq<Key>)
    requires IsMapping(layout, base)
  {
    forall i :: 0 <= i < |keys| && (i > 0 || IsAddressType(MappingAtBase(layout, base).value.1)) ==> IsNarrow(keys[i])
  }

  /** Then distinct chains, hence distinct slots, have distinct names. */
  lemma {:induction false} NarrowChainsNamedApart(
    layout: Layout, base: U64, keys: seq<Key>, base': U64, keys': seq<Key>)
    requires LabelsDistinct(layout) && IsMapping(layout, base) && IsMapping(layout, base') && keys != [] && keys' != []
    requires NarrowWhereShort(layout, base, keys) && NarrowWhereShort(layout, base', keys')
    ensures ChainName(layout, base, keys) == ChainName(layout, base', keys') <==> (base == base' && keys == keys')
  {
    SameNameIff(layout, base, keys, base', keys');
    if base == base' && ChainsLookAlike(layout, base, keys, keys') {
      forall i | 0 <= i < |keys| ensures keys[i] == keys'[i] {
        assert keys[i] == keys[i][..12] + keys[i][12..] && keys'[i] == keys'[i][..12] + keys'[i][12..];
      }
    }
  }

  /** Without the width condition two slots of one nested mapping share a name: inner keys that
      differ only above 160 bits. */
  lemma {:induction false} WideInnerKeysCollide(layout: Layout, hash: Hash, seen: Inputs, base: U64, outer: Key)
    requires LabelsDistinct(layout) && CollisionFree(layout, hash, seen) && IsMapping(layout, base)
    requires Linked(hash, seen, base, [outer, Zeros(32)]) && Linked(hash, seen, base, [outer, [1] + Zeros(31)])
    ensures var a, b := Zeros(32), [1] + Zeros(31);
            && ChainName(layout, base, [outer, a]) == ChainName(layout, base, [outer, b])
            && ChainSlot(hash, base, [outer, a]) != ChainSlot(hash, base, [outer, b])
  {
    var a: Key, b: Key := Zeros(32), [1] + Zeros(31);
    assert a[12..] == b[12..];
    SameNameIff(layout, base, [outer, a], base, [outer, b]);
    assert [outer, a][1] != [outer, b][1] by {
      assert a[0] != b[0];
    }
    if ChainSlot(hash, base, [outer, a]) == ChainSlot(hash, base, [outer, b]) {
      ChainUnique(layout, hash, seen, base, [outer, a], base, [outer, b]);
    }
  }
}
