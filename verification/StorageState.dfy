/** Storage carry-forward (src/recorder.rs, the SSTORE handler and build_compound_value): the cached
    variables agree with the last writes. */
module StorageState {
  import opened Basics
  import opened Numerals
  import opened StorageLayout
  import opened MappingNames

  datatype Value = Raw(word: Word) | Sequence(elements: seq<Word>) | Struct(fields: seq<Word>)

  /** `storage_state` and `slot_values` of one frame. */
  datatype State = State(variables: map<string, Value>, slots: map<U64, Word>)

  const EMPTY := State(map[], map[])

  function SlotValue(slots: map<U64, Word>, slot: U64): Word {
    if slot in slots then slots[slot] else 0
  }

  /** The values of `count` consecutive slots. */
  function RangeValues(slots: map<U64, Word>, base: U64, count: U64): (r: seq<Word>)
    ensures |r| == count && forall k :: 0 <= k < count ==> r[k] == SlotValue(slots, SumU64(base, k))
  {
    if count == 0 then [] else RangeValues(slots, base, count - 1) + [SlotValue(slots, SumU64(base, count - 1))]
  }

  /** The values of struct members at their own offsets; `None` when an offset is not a number. */
  function MemberValues(slots: map<U64, Word>, base: U64, offsets: seq<Option<U64>>): Option<seq<Word>> {
    if offsets == [] then Some([])
    else
      var init, last := MemberValues(slots, base, offsets[..|offsets| - 1]), offsets[|offsets| - 1];
      if init.None? || last.None? then None else Some(init.value + [SlotValue(slots, SumU64(base, last.value))])
  }

  function Offsets(ms: seq<StorageEntry>): (r: seq<Option<U64>>)
    ensures |r| == |ms|
  {
    seq(|ms|, i requires 0 <= i < |ms| => ParseU64(ms[i].slot))
  }

  /** One member without a numeric offset makes the whole struct unavailable. */
  lemma {:induction false} MissingOffset(slots: map<U64, Word>, base: U64, offsets: seq<Option<U64>>, i: nat)
    requires i < |offsets| && offsets[i].None?
    ensures MemberValues(slots, base, offsets) == None
  {
    if i == |offsets| - 1 {
    } else {
      MissingOffset(slots, base, offsets[..|offsets| - 1], i);
    }
  }

  /** A compound assembled from the slot index. */
  function CompoundValue(ti: StorageTypeInfo, base: U64, count: U64, slots: map<U64, Word>): Option<Value> {
    if ti.members.Some? then
      var fields := MemberValues(slots, base, Offsets(ti.members.value));
      if fields.Some? then Some(Struct(fields.value)) else None
    else if ti.base.Some? then Some(Sequence(RangeValues(slots, base, count)))
    else None
  }

  method BuildCompoundValue(ti: StorageTypeInfo, base: U64, count: U64, slots: map<U64, Word>)
    returns (r: Option<Value>)
    ensures r == CompoundValue(ti, base, count, slots)
  {
    if ti.members.Some? {
      var ms := ti.members.value;
      ghost var offsets := Offsets(ms);
      var fields: seq<Word> := [];
      for i := 0 to |ms|
        invariant MemberValues(slots, base, offsets[..i]) == Some(fields)
      {
        assert offsets[..i + 1][..i] == offsets[..i];
        var offset := ParseU64(ms[i].slot);
        if offset.None? {
          MissingOffset(slots, base, offsets, i);
          return None;
        }
        fields := fields + [SlotValue(slots, SumU64(base, offset.value))];
      }
      assert offsets[..|ms|] == offsets;
      return Some(Struct(fields));
    } else if ti.base.Some? {
      var elements: seq<Word> := [];
      for offset := 0 to count
        invariant elements == RangeValues(slots, base, offset)
      {
        elements := elements + [SlotValue(slots, SumU64(base, offset))];
      }
      return Some(Sequence(elements));
    }
    return None;
  }

  /** The snapshot recorded beside a write to `slot`: parent label and assembled value. */
  function Snapshot(layout: Layout, slot: U64, slots: map<U64, Word>): Option<(string, Value)> {
    var parent := ContainingCompound(layout, slot);
    if parent.None? || layout.TypeInfo(parent.value).None? || CompoundSlots(layout, parent.value).None? then None
    else
      var e := parent.value;
      var base := if BaseSlot(e).Some? then BaseSlot(e).value else 0;
      var v := CompoundValue(layout.TypeInfo(e).value, base, CompoundSlots(layout, e).value, slots);
      if v.Some? then Some((e.name, v.value)) else None
  }

  function Stored(layout: Option<Layout>, cache: map<Word, string>, st: State, slot: Word, value: Word): State {
    var variables := st.variables[SlotName(layout, cache, slot) := Raw(value)];
    if layout.None? || U64_BOUND <= slot then st.(variables := variables)
    else
      var slots := st.slots[slot := value];
      var snapshot := Snapshot(layout.value, slot, slots);
      State(if snapshot.Some? then variables[snapshot.value.0 := snapshot.value.1] else variables, slots)
  }

  /** The SSTORE handler on a step's stack. */
  method HandleSstore(layout: Option<Layout>, cache: map<Word, string>, st: State, stack: seq<Word>)
    returns (after: State)
    ensures after == if |stack| < 2 then st else Stored(layout, cache, st, stack[|stack| - 1], stack[|stack| - 2])
  {
    after := st;
    if 2 <= |stack| {
      var slot, value := stack[|stack| - 1], stack[|stack| - 2];
      var variables, slots := st.variables[SlotName(layout, cache, slot) := Raw(value)], st.slots;
      ParseU64OfPrint(slot);
      var parsed := ParseU64(Print(slot, 10));
      if parsed.Some? && layout.Some? {
        slots := slots[parsed.value := value];
        var parent := ContainingCompound(layout.value, parsed.value);
        if parent.Some? && layout.value.TypeInfo(parent.value).Some?
          && CompoundSlots(layout.value, parent.value).Some? {
          var base := if BaseSlot(parent.value).Some? then BaseSlot(parent.value).value else 0;
          var compound := BuildCompoundValue(layout.value.TypeInfo(parent.value).value,
            base, CompoundSlots(layout.value, parent.value).value, slots);
          if compound.Some? {
            variables := variables[parent.value.name := compound.value];
          }
        }
      }
      after := State(variables, slots);
    }
  }

  // ---- runs of writes -------------------------------------------------------------------------------------

  type Writes = seq<(Word, Word)>

  function After(layout: Layout, cache: map<Word, string>, writes: Writes): State {
    if writes == [] then EMPTY
    else
      var last := writes[|writes| - 1];
      Stored(Some(layout), cache, After(layout, cache, writes[..|writes| - 1]), last.0, last.1)
  }

  /** What the EVM's storage holds, as far as the run wrote it. */
  function LastWrite(writes: Writes, slot: Word): Option<Word> {
    if writes == [] then None
    else if writes[|writes| - 1].0 == slot then Some(writes[|writes| - 1].1)
    else LastWrite(writes[..|writes| - 1], slot)
  }

  function ValueAt(writes: Writes, slot: Word): Word {
    if LastWrite(writes, slot).Some? then LastWrite(writes, slot).value else 0
  }

  /** Element i is the last write to base + i, or zero. */
  function LastWritten(writes: Writes, base: U64, count: U64): (r: seq<Word>)
    requires base + count < U64_BOUND
    ensures |r| == count && forall k :: 0 <= k < count ==> r[k] == ValueAt(writes, base + k)
  {
    if count == 0 then [] else LastWritten(writes, base, count - 1) + [ValueAt(writes, base + count - 1)]
  }

  function TrueCompound(layout: Layout, e: StorageEntry, writes: Writes): Value
    requires RangeOk(layout, e)
  {
    var words := LastWritten(writes, BaseSlot(e).value, Slots(layout, e));
    if Members(layout, e).Some? then Struct(words) else Sequence(words)
  }

  predicate IsCompound(layout: Layout, e: StorageEntry) {
    CompoundSlots(layout, e).Some?
  }

  predicate Touched(layout: Layout, e: StorageEntry, writes: Writes) {
    exists i :: 0 <= i < |writes| && Owns(layout, e, writes[i].0)
  }

  // ---- names do not collide ---------------------------------------------------------------------------------

  /** Cached names are bracketed names of mappings, differ, and belong to slots outside the layout. */
  ghost predicate CacheFits(layout: Layout, cache: map<Word, string>) {
    && (forall h, i :: h in cache && 0 <= i < |layout.storage| ==> !Owns(layout, layout.storage[i], h))
    && (forall h :: h in cache ==> exists i :: 0 <= i < |layout.storage| && !IsCompound(layout, layout.storage[i])
                                            && layout.storage[i].name + "[" <= cache[h])
    && (forall g, h :: g in cache && h in cache && cache[g] == cache[h] ==> g == h)
  }

  /** A name is an identifier, alone or followed by a dot or a bracket. */
  predicate Headed(name: string, head: string) {
    head <= name && IsIdentifier(head) && (name == head || name[|head|] == '.' || name[|head|] == '[')
  }

  lemma HeadUnique(name: string, a: string, b: string)
    requires Headed(name, a) && Headed(name, b)
    ensures a == b
  {
    assert forall k :: 0 <= k < |a| ==> name[k] == a[k] && a[k] in a;
    assert forall k :: 0 <= k < |b| ==> name[k] == b[k] && b[k] in b;
  }

  /** The owner of a slot, if it is declared. */
  ghost function Owner(layout: Layout, slot: Word): (r: Option<nat>)
    ensures r.Some? ==> r.value < |layout.storage| && Owns(layout, layout.storage[r.value], slot)
    ensures r.None? ==> forall i :: 0 <= i < |layout.storage| ==> !Owns(layout, layout.storage[i], slot)
  {
    if i :| 0 <= i < |layout.storage| && Owns(layout, layout.storage[i], slot) then Some(i) else None
  }

  lemma OwnedNameHeaded(layout: Layout, cache: map<Word, string>, slot: Word, i: nat)
    requires WellFormed(layout) && CacheFits(layout, cache)
    requires i < |layout.storage| && Owns(layout, layout.storage[i], slot)
    ensures Headed(SlotName(Some(layout), cache, slot), layout.storage[i].name)
    ensures !IsCompound(layout, layout.storage[i]) ==> SlotName(Some(layout), cache, slot) == layout.storage[i].name
    ensures BaseSlot(layout.storage[i]) == Some(slot) ==> SlotName(Some(layout), cache, slot) == layout.storage[i].name
  {
    assert slot !in cache && LabelledAt(layout, i);
    OwnedSlotName(layout, cache, slot, i);
  }

  /** The head of an undeclared slot's name: a mapping's label (the entry `mapping`) or "storage". */
  lemma FreeNameHeaded(layout: Layout, cache: map<Word, string>, slot: Word)
    returns (head: string, mapping: Option<nat>)
    requires WellFormed(layout) && CacheFits(layout, cache) && Owner(layout, slot).None?
    ensures Headed(SlotName(Some(layout), cache, slot), head) && head + "[" <= SlotName(Some(layout), cache, slot)
    ensures mapping.Some? <==> slot in cache
    ensures mapping.Some? ==> && SlotName(Some(layout), cache, slot) == cache[slot]
                              && mapping.value < |layout.storage| && !IsCompound(layout, layout.storage[mapping.value])
                              && layout.storage[mapping.value].name == head
    ensures mapping.None? ==>
            SlotName(Some(layout), cache, slot) == "storage[" + Print(slot, 10) + "]"
            && head == "storage"
  {
    FreeSlotName(layout, cache, slot);
    if slot in cache {
      var i := CachedHead(layout, cache, slot);
      head, mapping := layout.storage[i].name, Some(i);
    } else {
      head, mapping := "storage", None;
      UnnamedHead(Print(slot, 10));
    }
  }

  lemma CachedHead(layout: Layout, cache: map<Word, string>, slot: Word) returns (i: nat)
    requires WellFormed(layout) && CacheFits(layout, cache) && slot in cache
    ensures i < |layout.storage| && !IsCompound(layout, layout.storage[i])
    ensures Headed(cache[slot], layout.storage[i].name) && layout.storage[i].name + "[" <= cache[slot]
  {
    i :| 0 <= i < |layout.storage| && !IsCompound(layout, layout.storage[i])
      && layout.storage[i].name + "[" <= cache[slot];
    assert LabelledAt(layout, i);
    BracketHeads(cache[slot], layout.storage[i].name);
  }

  lemma UnnamedHead(decimal: string)
    ensures Headed("storage[" + decimal + "]", "storage") && "storage" + "[" <= "storage[" + decimal + "]"
  {
    BracketHeads("storage[" + decimal + "]", "storage");
  }

  lemma BracketHeads(name: string, head: string)
    requires head + "[" <= name && IsIdentifier(head)
    ensures Headed(name, head)
  {
    assert name[|head|] == (head + "[")[|head|];
  }

  lemma OwnedNamesApart(layout: Layout, e: StorageEntry, s: Word, t: Word)
    requires RangeOk(layout, e) && Owns(layout, e, s) && Owns(layout, e, t)
    requires OwnedName(layout, e, s) == OwnedName(layout, e, t)
    ensures s == t
  {
    var k, l := s - BaseSlot(e).value, t - BaseSlot(e).value;
    if k != 0 && l != 0 {
      if Members(layout, e).Some? {
        var ms := Members(layout, e).value;
        SuffixEqual(e.name + ".", ms[k].name, ms[l].name, "");
      } else {
        SuffixEqual(e.name + "[", Print(k, 10), Print(l, 10), "]");
        PrintInjective(k, l, 10);
      }
    } else {
      assert |OwnedName(layout, e, s)| == |OwnedName(layout, e, t)|;
    }
  }

  lemma SuffixEqual(head: string, a: string, b: string, tail: string)
    ensures head + a + tail == head + b + tail ==> a == b
    ensures tail == "" && head + a == head + b ==> a == b
  {
    assert (head + a + tail)[|head|..|head + a + tail| - |tail|] == a;
    assert (head + b + tail)[|head|..|head + b + tail| - |tail|] == b;
    assert (head + a)[|head|..] == a && (head + b)[|head|..] == b;
  }

  lemma SameOwnerNames(layout: Layout, cache: map<Word, string>, s: Word, t: Word, i: nat)
    requires WellFormed(layout) && CacheFits(layout, cache) && i < |layout.storage|
    requires Owns(layout, layout.storage[i], s) && Owns(layout, layout.storage[i], t)
    requires SlotName(Some(layout), cache, s) == SlotName(Some(layout), cache, t)
    ensures s == t
  {
    assert s !in cache && t !in cache;
    OwnedSlotName(layout, cache, s, i);
    OwnedSlotName(layout, cache, t, i);
    OwnedNamesApart(layout, layout.storage[i], s, t);
  }

  lemma LabelsDiffer(layout: Layout, i: nat, j: nat)
    requires WellFormed(layout) && i < |layout.storage| && j < |layout.storage|
    ensures layout.storage[i].name != "storage"
    ensures layout.storage[i].name == layout.storage[j].name ==> i == j
  {
    assert LabelledAt(layout, i);
    if i != j {
      assert ApartAt(layout, i, j);
    }
  }

  lemma OwnedVersusFree(layout: Layout, cache: map<Word, string>, s: Word, t: Word, i: nat)
    requires WellFormed(layout) && CacheFits(layout, cache) && i < |layout.storage|
    requires Owns(layout, layout.storage[i], s) && Owner(layout, t).None?
    ensures SlotName(Some(layout), cache, s) != SlotName(Some(layout), cache, t)
  {
    OwnedNameHeaded(layout, cache, s, i);
    var head, mapping := FreeNameHeaded(layout, cache, t);
    LabelsDiffer(layout, i, if mapping.Some? then mapping.value else i);
    if SlotName(Some(layout), cache, s) == SlotName(Some(layout), cache, t) {
      HeadUnique(SlotName(Some(layout), cache, s), layout.storage[i].name, head);
    }
  }

  lemma FreeNamesApart(layout: Layout, cache: map<Word, string>, s: Word, t: Word)
    requires WellFormed(layout) && CacheFits(layout, cache) && Owner(layout, s).None? && Owner(layout, t).None?
    requires SlotName(Some(layout), cache, s) == SlotName(Some(layout), cache, t)
    ensures s == t
  {
    var head, mapping := FreeNameHeaded(layout, cache, s);
    var head', mapping' := FreeNameHeaded(layout, cache, t);
    HeadUnique(SlotName(Some(layout), cache, s), head, head');
    if mapping.Some? {
      LabelsDiffer(layout, mapping.value, mapping.value);
    }
    if mapping'.Some? {
      LabelsDiffer(layout, mapping'.value, mapping'.value);
    }
    if mapping.None? && mapping'.None? {
      SuffixEqual("storage[", Print(s, 10), Print(t, 10), "]");
      PrintInjective(s, t, 10);
    }
  }

  /** Distinct slots never share a name. */
  lemma SlotNamesDistinct(layout: Layout, cache: map<Word, string>, s: Word, t: Word)
    requires WellFormed(layout) && CacheFits(layout, cache)
    ensures SlotName(Some(layout), cache, s) == SlotName(Some(layout), cache, t) <==> s == t
  {
    if SlotName(Some(layout), cache, s) == SlotName(Some(layout), cache, t) {
      var i, j := Owner(layout, s), Owner(layout, t);
      if i.Some? && j.Some? {
        OwnedNameHeaded(layout, cache, s, i.value);
        OwnedNameHeaded(layout, cache, t, j.value);
        HeadUnique(SlotName(Some(layout), cache, s), layout.storage[i.value].name, layout.storage[j.value].name);
        LabelsDiffer(layout, i.value, j.value);
        SameOwnerNames(layout, cache, s, t, i.value);
      } else if i.Some? {
        OwnedVersusFree(layout, cache, s, t, i.value);
      } else if j.Some? {
        OwnedVersusFree(layout, cache, t, s, j.value);
      } else {
        FreeNamesApart(layout, cache, s, t);
      }
    }
  }

  // ---- agreement ----------------------------------------------------------------------------------------------

  /** `slot_values` is the last-write map on 64-bit slots. */
  ghost predicate SlotsAgree(st: State, writes: Writes) {
    forall slot: U64 :: (slot in st.slots <==> LastWrite(writes, slot).Some?)
      && (slot in st.slots ==> st.slots[slot] == ValueAt(writes, slot))
  }

  predicate IsCompoundBase(layout: Layout, slot: Word) {
    exists i :: 0 <= i < |layout.storage| && IsCompound(layout, layout.storage[i])
      && BaseSlot(layout.storage[i]) == Some(slot)
  }

  /** Every written slot that is not the first of a compound is cached under its name with its last value. */
  ghost predicate PlainAgree(layout: Layout, cache: map<Word, string>, st: State, writes: Writes) {
    forall slot: Word :: LastWrite(writes, slot).Some? && !IsCompoundBase(layout, slot) ==>
      SlotName(Some(layout), cache, slot) in st.variables
        && st.variables[SlotName(Some(layout), cache, slot)] == Raw(ValueAt(writes, slot))
  }

  predicate HoldsCompound(layout: Layout, e: StorageEntry, st: State, writes: Writes)
    requires RangeOk(layout, e)
  {
    e.name in st.variables && st.variables[e.name] == TrueCompound(layout, e, writes)
  }

  /** Every touched compound is cached under its label as a snapshot of the last writes. */
  ghost predicate CompoundsAgree(layout: Layout, st: State, writes: Writes)
    requires WellFormed(layout)
  {
    forall i :: 0 <= i < |layout.storage| ==> CompoundAgrees(layout, i, st, writes)
  }

  ghost predicate CompoundAgrees(layout: Layout, i: nat, st: State, writes: Writes)
    requires WellFormed(layout) && i < |layout.storage|
  {
    assert RangedAt(layout, i);
    IsCompound(layout, layout.storage[i]) && Touched(layout, layout.storage[i], writes) ==>
      HoldsCompound(layout, layout.storage[i], st, writes)
  }

  lemma {:induction false} LastWriteStep(writes: Writes, slot: Word, value: Word, other: Word)
    ensures LastWrite(writes + [(slot, value)], other) == if other == slot then Some(value)
            else LastWrite(writes, other)
  {
    assert (writes + [(slot, value)])[..|writes|] == writes;
  }

  lemma SlotsStep(layout: Layout, cache: map<Word, string>, st: State, writes: Writes, slot: Word, value: Word)
    requires SlotsAgree(st, writes)
    ensures SlotsAgree(Stored(Some(layout), cache, st, slot, value), writes + [(slot, value)])
  {
    forall other: U64
      ensures LastWrite(writes + [(slot, value)], other) == if other == slot then Some(value)
              else LastWrite(writes, other)
    {
      LastWriteStep(writes, slot, value, other);
    }
  }

  /** What a snapshot contains, once the slot index agrees with the writes. */
  lemma SnapshotIsTrue(layout: Layout, slots: map<U64, Word>, writes: Writes, slot: U64, i: nat)
    requires WellFormed(layout) && i < |layout.storage| && IsCompound(layout, layout.storage[i])
             && Owns(layout, layout.storage[i], slot)
    requires SlotsAgree(State(map[], slots), writes)
    ensures RangeOk(layout, layout.storage[i])
    ensures Snapshot(layout, slot, slots)
            == Some((layout.storage[i].name, TrueCompound(layout, layout.storage[i], writes)))
  {
    var e := layout.storage[i];
    assert RangedAt(layout, i);
    CompoundIsOwner(layout, slot);
    CompoundValueIsTrue(layout, e, slots, writes);
  }

  lemma CompoundValueIsTrue(layout: Layout, e: StorageEntry, slots: map<U64, Word>, writes: Writes)
    requires RangeOk(layout, e) && IsCompound(layout, e) && SlotsAgree(State(map[], slots), writes)
    ensures CompoundValue(layout.TypeInfo(e).value, BaseSlot(e).value, CompoundSlots(layout, e).value, slots)
            == Some(TrueCompound(layout, e, writes))
  {
    if Members(layout, e).Some? {
      MemberOffsets(Members(layout, e).value);
      MembersAreTrue(slots, writes, BaseSlot(e).value, Offsets(Members(layout, e).value));
    } else {
      RangeIsTrue(slots, writes, BaseSlot(e).value, Slots(layout, e));
    }
  }

  lemma MemberOffsets(ms: seq<StorageEntry>)
    requires MembersOk(ms, |ms|) && |ms| < U64_BOUND
    ensures forall k :: 0 <= k < |ms| ==> Offsets(ms)[k] == Some(k)
  {
    forall k | 0 <= k < |ms| ensures Offsets(ms)[k] == Some(k) {
      assert MemberOk(ms, k);
      ParseU64OfPrint(k);
    }
  }

  lemma SlotValueIsTrue(slots: map<U64, Word>, writes: Writes, slot: U64)
    requires SlotsAgree(State(map[], slots), writes)
    ensures SlotValue(slots, slot) == ValueAt(writes, slot)
  {
    assert slot in slots <==> LastWrite(writes, slot).Some?;
  }

  lemma {:induction false} RangeIsTrue(slots: map<U64, Word>, writes: Writes, base: U64, count: U64)
    requires SlotsAgree(State(map[], slots), writes) && base + count < U64_BOUND
    ensures RangeValues(slots, base, count) == LastWritten(writes, base, count)
  {
    if count == 0 {
    } else {
      RangeIsTrue(slots, writes, base, count - 1);
      SlotValueIsTrue(slots, writes, base + count - 1);
    }
  }

  lemma {:induction false} MembersAreTrue(slots: map<U64, Word>, writes: Writes, base: U64, offsets: seq<Option<U64>>)
    requires SlotsAgree(State(map[], slots), writes) && base + |offsets| < U64_BOUND
    requires forall k :: 0 <= k < |offsets| ==> offsets[k] == Some(k)
    ensures MemberValues(slots, base, offsets) == Some(LastWritten(writes, base, |offsets|))
  {
    if offsets == [] {
    } else {
      var k := |offsets| - 1;
      MembersAreTrue(slots, writes, base, offsets[..k]);
      SlotValueIsTrue(slots, writes, base + k);
    }
  }

  lemma NoSnapshot(layout: Layout, slots: map<U64, Word>, slot: U64)
    requires WellFormed(layout)
    requires Owner(layout, slot).None? || !IsCompound(layout, layout.storage[Owner(layout, slot).value])
    ensures Snapshot(layout, slot, slots) == None
  {
    CompoundIsOwner(layout, slot);
    var o := Owner(layout, slot);
    forall i | 0 <= i < |layout.storage| && Owns(layout, layout.storage[i], slot)
      ensures !IsCompound(layout, layout.storage[i])
    {
      if i != o.value {
        SoleOwner(layout, o.value, i, slot);
      }
    }
  }

  /** A write outside every compound changes the variable of its own name. */
  lemma PlainVariables(layout: Layout, cache: map<Word, string>, st: State, slot: Word, value: Word)
    requires WellFormed(layout)
    requires Owner(layout, slot).None? || !IsCompound(layout, layout.storage[Owner(layout, slot).value])
    ensures Stored(Some(layout), cache, st, slot, value).variables
            == st.variables[SlotName(Some(layout), cache, slot) := Raw(value)]
  {
    if slot < U64_BOUND {
      NoSnapshot(layout, st.slots[slot := value], slot);
    }
  }

  /** A write inside a compound changes the variable of its own name, then the compound's. */
  lemma CompoundVariables(
    layout: Layout, cache: map<Word, string>, st: State, writes: Writes, slot: Word, value: Word, i: nat)
    requires WellFormed(layout) && SlotsAgree(st, writes)
    requires Owner(layout, slot) == Some(i) && IsCompound(layout, layout.storage[i])
    ensures RangeOk(layout, layout.storage[i])
    ensures Stored(Some(layout), cache, st, slot, value).variables
            == st.variables[SlotName(Some(layout), cache, slot) := Raw(value)]
                           [layout.storage[i].name := TrueCompound(layout, layout.storage[i], writes + [(slot, value)])]
  {
    assert RangedAt(layout, i);
    SlotsStep(layout, cache, st, writes, slot, value);
    SnapshotIsTrue(layout, st.slots[slot := value], writes + [(slot, value)], slot, i);
  }

  lemma LabelIsBaseName(layout: Layout, cache: map<Word, string>, i: nat)
    requires WellFormed(layout) && CacheFits(layout, cache) && i < |layout.storage|
    ensures BaseSlot(layout.storage[i]).Some?
            && layout.storage[i].name == SlotName(Some(layout), cache, BaseSlot(layout.storage[i]).value)
  {
    assert LabelledAt(layout, i);
    OwnsBase(layout, layout.storage[i], BaseSlot(layout.storage[i]).value);
    OwnedNameHeaded(layout, cache, BaseSlot(layout.storage[i]).value, i);
  }

  /** A write touches the variables of its own name and of the compound that owns it, and no others. */
  lemma OtherVariablesKept(
    layout: Layout, cache: map<Word, string>, st: State, writes: Writes, slot: Word, value: Word, name: string)
    requires WellFormed(layout) && SlotsAgree(st, writes) && name != SlotName(Some(layout), cache, slot)
    requires var o := Owner(layout, slot);
             o.Some? && IsCompound(layout, layout.storage[o.value]) ==> name != layout.storage[o.value].name
    ensures var after := Stored(Some(layout), cache, st, slot, value).variables;
            name in after <==> name in st.variables
    ensures name in st.variables ==> Stored(Some(layout), cache, st, slot, value).variables[name] == st.variables[name]
  {
    var o := Owner(layout, slot);
    if o.Some? && IsCompound(layout, layout.storage[o.value]) {
      CompoundVariables(layout, cache, st, writes, slot, value, o.value);
    } else {
      PlainVariables(layout, cache, st, slot, value);
    }
  }

  lemma NotBaseName(layout: Layout, cache: map<Word, string>, other: Word, o: nat)
    requires WellFormed(layout) && CacheFits(layout, cache) && o < |layout.storage|
    requires BaseSlot(layout.storage[o]) != Some(other)
    ensures layout.storage[o].name != SlotName(Some(layout), cache, other)
  {
    LabelIsBaseName(layout, cache, o);
    SlotNamesDistinct(layout, cache, BaseSlot(layout.storage[o]).value, other);
  }

  /** The written slot's own variable, unless a compound's label took it over. */
  lemma OwnVariable(layout: Layout, cache: map<Word, string>, st: State, writes: Writes, slot: Word, value: Word)
    requires WellFormed(layout) && CacheFits(layout, cache) && SlotsAgree(st, writes) && !IsCompoundBase(layout, slot)
    ensures var name, after :=
            SlotName(Some(layout), cache, slot), Stored(Some(layout), cache, st, slot, value).variables;
            name in after && after[name] == Raw(value)
  {
    var o := Owner(layout, slot);
    if o.Some? && IsCompound(layout, layout.storage[o.value]) {
      CompoundVariables(layout, cache, st, writes, slot, value, o.value);
      NotBaseName(layout, cache, slot, o.value);
    } else {
      PlainVariables(layout, cache, st, slot, value);
    }
  }

  lemma {:induction false} PlainStep(
    layout: Layout, cache: map<Word, string>, st: State, writes: Writes, slot: Word, value: Word, other: Word)
    requires WellFormed(layout) && CacheFits(layout, cache) && SlotsAgree(st, writes)
             && PlainAgree(layout, cache, st, writes)
    requires LastWrite(writes + [(slot, value)], other).Some? && !IsCompoundBase(layout, other)
    ensures var name, after :=
            SlotName(Some(layout), cache, other), Stored(Some(layout), cache, st, slot, value).variables;
            name in after && after[name] == Raw(ValueAt(writes + [(slot, value)], other))
  {
    LastWriteStep(writes, slot, value, other);
    if slot == other {
      OwnVariable(layout, cache, st, writes, slot, value);
    } else {
      var o := Owner(layout, slot);
      if o.Some? && IsCompound(layout, layout.storage[o.value]) {
        NotBaseName(layout, cache, other, o.value);
      }
      SlotNamesDistinct(layout, cache, slot, other);
      OtherVariablesKept(layout, cache, st, writes, slot, value, SlotName(Some(layout), cache, other));
    }
  }

  lemma CompoundStep(
    layout: Layout, cache: map<Word, string>, st: State, writes: Writes, slot: Word, value: Word, i: nat)
    requires WellFormed(layout) && CacheFits(layout, cache) && SlotsAgree(st, writes)
             && CompoundsAgree(layout, st, writes)
    requires i < |layout.storage| && IsCompound(layout, layout.storage[i])
             && Touched(layout, layout.storage[i], writes + [(slot, value)])
    ensures RangeOk(layout, layout.storage[i])
    ensures HoldsCompound(layout, layout.storage[i], Stored(Some(layout), cache, st, slot, value),
            writes + [(slot, value)])
  {
    var e, now, o := layout.storage[i], writes + [(slot, value)], Owner(layout, slot);
    assert RangedAt(layout, i);
    if o == Some(i) {
      CompoundVariables(layout, cache, st, writes, slot, value, i);
    } else {
      if o.Some? {
        SoleOwner(layout, o.value, i, slot);
      }
      OwnsBase(layout, e, BaseSlot(e).value);
      assert HoldsCompound(layout, e, st, writes) by {
        var w :| 0 <= w < |now| && Owns(layout, e, now[w].0);
        assert w < |writes| && writes[w] == now[w];
        assert CompoundAgrees(layout, i, st, writes);
      }
      OtherCompoundSame(layout, e, writes, slot, value);
      NotBaseName(layout, cache, slot, i);
      if o.Some? {
        LabelsDiffer(layout, i, o.value);
      }
      OtherVariablesKept(layout, cache, st, writes, slot, value, e.name);
    }
  }

  lemma OtherCompoundSame(layout: Layout, e: StorageEntry, writes: Writes, slot: Word, value: Word)
    requires RangeOk(layout, e) && !Owns(layout, e, slot)
    ensures TrueCompound(layout, e, writes + [(slot, value)]) == TrueCompound(layout, e, writes)
  {
    var base, count := BaseSlot(e).value, Slots(layout, e);
    var now, was := LastWritten(writes + [(slot, value)], base, count), LastWritten(writes, base, count);
    forall k | 0 <= k < count ensures now[k] == was[k] {
      assert Owns(layout, e, base + k);
      LastWriteStep(writes, slot, value, base + k);
    }
    assert now == was;
  }

  lemma CompoundsStep(
    layout: Layout, cache: map<Word, string>, st: State, writes: Writes, slot: Word, value: Word)
    requires WellFormed(layout) && CacheFits(layout, cache) && SlotsAgree(st, writes)
             && CompoundsAgree(layout, st, writes)
    ensures CompoundsAgree(layout, Stored(Some(layout), cache, st, slot, value), writes + [(slot, value)])
  {
    var now, after := writes + [(slot, value)], Stored(Some(layout), cache, st, slot, value);
    forall i | 0 <= i < |layout.storage| ensures CompoundAgrees(layout, i, after, now) {
      if IsCompound(layout, layout.storage[i]) && Touched(layout, layout.storage[i], now) {
        CompoundStep(layout, cache, st, writes, slot, value, i);
      }
    }
  }

  /** Carry-forward agrees with the last writes, after every run of SSTOREs. */
  lemma {:induction false} CarryForwardAgrees(layout: Layout, cache: map<Word, string>, writes: Writes)
    requires WellFormed(layout) && CacheFits(layout, cache)
    ensures SlotsAgree(After(layout, cache, writes), writes)
    ensures PlainAgree(layout, cache, After(layout, cache, writes), writes)
    ensures CompoundsAgree(layout, After(layout, cache, writes), writes)
  {
    if writes == [] {
    } else {
      var init, last := writes[..|writes| - 1], writes[|writes| - 1];
      var st := After(layout, cache, init);
      CarryForwardAgrees(layout, cache, init);
      assert writes == init + [(last.0, last.1)];
      SlotsStep(layout, cache, st, init, last.0, last.1);
      forall slot: Word | LastWrite(writes, slot).Some? && !IsCompoundBase(layout, slot)
        ensures SlotName(Some(layout), cache, slot) in After(layout, cache, writes).variables
        ensures After(layout, cache, writes).variables[SlotName(Some(layout), cache, slot)]
                == Raw(ValueAt(writes, slot))
      {
        PlainStep(layout, cache, st, init, last.0, last.1, slot);
      }
      CompoundsStep(layout, cache, st, init, last.0, last.1);
    }
  }

  // ---- writes and hashes interleaved ------------------------------------------------------------------------------

  datatype Op = Hashed(key: Key, base: Word) | Write(slot: Word, value: Word)

  function HashesOf(ops: seq<Op>): seq<(Key, Word)> {
    if ops == [] then []
    else
      var last := ops[|ops| - 1];
      HashesOf(ops[..|ops| - 1]) + if last.Hashed? then [(last.key, last.base)] else []
  }

  function WritesOf(ops: seq<Op>): Writes {
    if ops == [] then []
    else
      var last := ops[|ops| - 1];
      WritesOf(ops[..|ops| - 1]) + if last.Write? then [(last.slot, last.value)] else []
  }

  /** The frame's caches after a run in which hashing and writing alternate freely. */
  function Run(layout: Layout, hash: Hash, ops: seq<Op>): (map<Word, string>, State) {
    if ops == [] then (map[], EMPTY)
    else
      var (cache, st) := Run(layout, hash, ops[..|ops| - 1]);
      match ops[|ops| - 1]
      case Hashed(key, base) => (Recorded(layout, hash, cache, key, base), st)
      case Write(slot, value) => (cache, Stored(Some(layout), cache, st, slot, value))
  }

  lemma {:induction false} RunCache(layout: Layout, hash: Hash, ops: seq<Op>)
    ensures Run(layout, hash, ops).0 == RecordedAll(layout, hash, HashesOf(ops))
  {
    if ops == [] {
    } else {
      var init := ops[..|ops| - 1];
      RunCache(layout, hash, init);
      if ops[|ops| - 1].Hashed? {
        assert HashesOf(ops)[..|HashesOf(ops)| - 1] == HashesOf(init);
      } else {
        assert HashesOf(ops) == HashesOf(init);
      }
    }
  }

  lemma {:induction false} HashesPrefix(ops: seq<Op>, i: nat)
    requires i <= |ops|
    ensures HashesOf(ops[..i]) <= HashesOf(ops)
    decreases |ops|
  {
    if i == |ops| {
      assert ops[..i] == ops;
    } else {
      HashesPrefix(ops[..|ops| - 1], i);
      assert ops[..|ops| - 1][..i] == ops[..i];
    }
  }

  lemma {:induction false} RunCacheExtends(layout: Layout, hash: Hash, seen: Inputs, ops: seq<Op>, i: nat)
    requires CollisionFree(layout, hash, seen) && AllSeen(seen, HashesOf(ops)) && i <= |ops|
    ensures Extends(Run(layout, hash, ops[..i]).0, Run(layout, hash, ops).0)
  {
    RunCache(layout, hash, ops);
    RunCache(layout, hash, ops[..i]);
    HashesPrefix(ops, i);
    var hashed := HashesOf(ops);
    assert HashesOf(ops[..i]) == hashed[..|HashesOf(ops[..i])|];
    NamesHaveProvenance(layout, hash, seen, hashed, |HashesOf(ops[..i])|);
  }

  lemma MappingEntry(layout: Layout, base: U64) returns (i: nat)
    requires WellFormed(layout) && IsMapping(layout, base)
    ensures i < |layout.storage| && BaseSlot(layout.storage[i]) == Some(base) && !IsCompound(layout, layout.storage[i])
    ensures MappingAtBase(layout, base).value.0 == layout.storage[i].name
  {
    var f := (e: StorageEntry) => MappingIn(layout, base, e);
    var e :| e in layout.storage && f(e).Some?;
    i :| 0 <= i < |layout.storage| && layout.storage[i] == e;
    forall j | 0 <= j < |layout.storage| && j != i ensures f(layout.storage[j]).None? {
      OwnsBase(layout, e, base);
      SoleOwner(layout, i, j, base);
    }
    OnlyHit(layout.storage, f, i);
  }

  lemma WellFormedLabels(layout: Layout)
    requires WellFormed(layout)
    ensures LabelsDistinct(layout)
  {
    forall a: U64, b: U64 | IsMapping(layout, a) && IsMapping(layout, b)
      ensures IsIdentifier(MappingAtBase(layout, a).value.0)
      ensures MappingAtBase(layout, a).value.0 == MappingAtBase(layout, b).value.0 ==> a == b
    {
      var i := MappingEntry(layout, a);
      var j := MappingEntry(layout, b);
      assert LabelledAt(layout, i);
      LabelsDiffer(layout, i, j);
    }
  }

  /** Every chain behind a cached name has keys that fit its formatting. */
  ghost predicate NarrowCache(layout: Layout, hash: Hash, seen: Inputs, cache: map<Word, string>) {
    forall h, base, keys :: Derives(layout, hash, seen, cache, h, base, keys) ==> NarrowWhereShort(layout, base, keys)
  }

  lemma {:induction false} ChainNameHead(layout: Layout, base: U64, keys: seq<Key>)
    requires IsMapping(layout, base) && keys != []
    ensures MappingAtBase(layout, base).value.0 + "[" <= ChainName(layout, base, keys)
  {
    var init := keys[..|keys| - 1];
    if init == [] {
    } else {
      ChainNameHead(layout, base, init);
    }
    assert ChainName(layout, base, init) <= ChainName(layout, base, keys);
  }

  /** A cache with provenance fits its layout when hashes miss the declared slots and keys are narrow. */
  lemma ProvenanceFits(layout: Layout, hash: Hash, seen: Inputs, cache: map<Word, string>)
    requires WellFormed(layout) && CollisionFree(layout, hash, seen) && Provenance(layout, hash, seen, cache)
             && NarrowCache(layout, hash, seen, cache)
    requires forall h, i :: h in cache && 0 <= i < |layout.storage| ==> !Owns(layout, layout.storage[i], h)
    ensures CacheFits(layout, cache)
  {
    WellFormedLabels(layout);
    forall h | h in cache
      ensures exists i ::
              0 <= i < |layout.storage| && !IsCompound(layout, layout.storage[i])
              && layout.storage[i].name + "[" <= cache[h]
    {
      var base, keys := ChainOf(layout, hash, seen, cache, h);
      ChainNameHead(layout, base, keys);
      var i := MappingEntry(layout, base);
    }
    forall g, h | g in cache && h in cache && cache[g] == cache[h] ensures g == h {
      var base, keys := ChainOf(layout, hash, seen, cache, g);
      var base', keys' := ChainOf(layout, hash, seen, cache, h);
      NarrowChainsNamedApart(layout, base, keys, base', keys');
    }
  }

  // ---- names at the time of a write -------------------------------------------------------------------------

  /** The slots that the mapping cache knew when they were last written. */
  function KnownWhenWritten(layout: Layout, hash: Hash, ops: seq<Op>): set<Word> {
    if ops == [] then {}
    else
      var init, last := ops[..|ops| - 1], ops[|ops| - 1];
      var before := KnownWhenWritten(layout, hash, init);
      if last.Hashed? then before
      else if last.slot in Run(layout, hash, init).0 then before + {last.slot}
      else before - {last.slot}
  }

  /** Every written slot that ends up in the mapping cache was in it when it was last written. */
  ghost predicate HashedInTime(layout: Layout, hash: Hash, ops: seq<Op>) {
    forall slot :: slot in Run(layout, hash, ops).0 && LastWrite(WritesOf(ops), slot).Some? ==>
      slot in KnownWhenWritten(layout, hash, ops)
  }

  /** What a slot is called while the cache knows it, or does not. */
  function NameWhen(layout: Layout, cache: map<Word, string>, known: bool, slot: Word): string {
    SlotName(Some(layout), if known then cache else cache - {slot}, slot)
  }

  lemma SameNameUnder(layout: Layout, a: map<Word, string>, b: map<Word, string>, slot: Word)
    requires slot in a <==> slot in b
    requires slot in a ==> a[slot] == b[slot]
    ensures SlotName(Some(layout), a, slot) == SlotName(Some(layout), b, slot)
  {
  }

  lemma NameNow(layout: Layout, before: map<Word, string>, cache: map<Word, string>, slot: Word)
    requires Extends(before, cache)
    ensures SlotName(Some(layout), before, slot) == NameWhen(layout, cache, slot in before, slot)
  {
    SameNameUnder(layout, before, if slot in before then cache else cache - {slot}, slot);
  }

  lemma SubcacheFits(layout: Layout, before: map<Word, string>, cache: map<Word, string>)
    requires CacheFits(layout, cache) && Extends(before, cache)
    ensures CacheFits(layout, before)
  {
  }

  /** Slots are told apart by their names even when these were given at different times. */
  lemma NamesApart(layout: Layout, cache: map<Word, string>, known: bool, s: Word, known': bool, t: Word)
    requires WellFormed(layout) && CacheFits(layout, cache) && s != t
    ensures NameWhen(layout, cache, known, s) != NameWhen(layout, cache, known', t)
  {
    var sub := cache - ((if known then {} else {s}) + (if known' then {} else {t}));
    SubcacheFits(layout, sub, cache);
    SameNameUnder(layout, sub, if known then cache else cache - {s}, s);
    SameNameUnder(layout, sub, if known' then cache else cache - {t}, t);
    SlotNamesDistinct(layout, sub, s, t);
  }

  /** A cached slot's name is the cached one, and differs from the one it had before it was cached. */
  lemma CachedNameIsNew(layout: Layout, cache: map<Word, string>, slot: Word)
    requires WellFormed(layout) && CacheFits(layout, cache) && slot in cache
    ensures NameWhen(layout, cache, true, slot) == cache[slot] != NameWhen(layout, cache, false, slot)
    ensures !IsCompoundBase(layout, slot)
  {
    FreeSlotName(layout, cache, slot);
    FreeSlotName(layout, cache - {slot}, slot);
    var i := CachedHead(layout, cache, slot);
    UnnamedHead(Print(slot, 10));
    LabelsDiffer(layout, i, i);
    if cache[slot] == NameWhen(layout, cache, false, slot) {
      HeadUnique(cache[slot], layout.storage[i].name, "storage");
    }
    NoBase(layout, slot);
  }

  lemma NoBase(layout: Layout, slot: Word)
    requires WellFormed(layout) && forall i :: 0 <= i < |layout.storage| ==> !Owns(layout, layout.storage[i], slot)
    ensures forall i :: 0 <= i < |layout.storage| ==> BaseSlot(layout.storage[i]) != Some(slot)
  {
    forall i | 0 <= i < |layout.storage| ensures BaseSlot(layout.storage[i]) != Some(slot) {
      assert RangedAt(layout, i);
      if BaseSlot(layout.storage[i]) == Some(slot) {
        OwnsBase(layout, layout.storage[i], slot);
      }
    }
  }

  /** Every written slot is stored under the name it had when it was last written. */
  ghost predicate NamedThen(layout: Layout, cache: map<Word, string>, known: set<Word>, st: State, writes: Writes) {
    forall slot: Word :: LastWrite(writes, slot).Some? && !IsCompoundBase(layout, slot) ==>
      StoredAs(st, NameWhen(layout, cache, slot in known, slot), ValueAt(writes, slot))
  }

  predicate StoredAs(st: State, name: string, value: Word) {
    name in st.variables && st.variables[name] == Raw(value)
  }

  /** The names of slots that were unknown when written, or not written at all, are not stored. */
  ghost predicate NotNamedSince(cache: map<Word, string>, known: set<Word>, st: State) {
    forall slot :: slot in cache && slot !in known ==> cache[slot] !in st.variables
  }

  /** A name other than that of the written slot and of the compound that owns it is left alone. */
  lemma NameLeftAlone(
    layout: Layout, before: map<Word, string>, cache: map<Word, string>, st: State, writes: Writes, slot: Word,
    value: Word, known: bool, other: Word)
    requires WellFormed(layout) && CacheFits(layout, cache) && Extends(before, cache) && SlotsAgree(st, writes)
    requires !IsCompoundBase(layout, other)
    requires NameWhen(layout, cache, known, other) != SlotName(Some(layout), before, slot)
    ensures var name, after :=
              NameWhen(layout, cache, known, other), Stored(Some(layout), before, st, slot, value).variables;
            (name in after <==> name in st.variables) && (name in st.variables ==> after[name] == st.variables[name])
  {
    var sub, o := if known then cache else cache - {other}, Owner(layout, slot);
    if o.Some? && IsCompound(layout, layout.storage[o.value]) {
      SubcacheFits(layout, sub, cache);
      NotBaseName(layout, sub, other, o.value);
    }
    OtherVariablesKept(layout, before, st, writes, slot, value, NameWhen(layout, cache, known, other));
  }

  lemma NamedThenStep(
    layout: Layout, before: map<Word, string>, cache: map<Word, string>, known: set<Word>, st: State, writes: Writes,
    slot: Word, value: Word)
    requires WellFormed(layout) && CacheFits(layout, cache) && Extends(before, cache) && SlotsAgree(st, writes)
    requires NamedThen(layout, cache, known, st, writes)
    ensures NamedThen(layout, cache, if slot in before then known + {slot} else known - {slot},
                      Stored(Some(layout), before, st, slot, value), writes + [(slot, value)])
  {
    var now, after := if slot in before then known + {slot} else known - {slot},
      Stored(Some(layout), before, st, slot, value);
    NameNow(layout, before, cache, slot);
    forall other: Word | LastWrite(writes + [(slot, value)], other).Some? && !IsCompoundBase(layout, other)
      ensures StoredAs(after, NameWhen(layout, cache, other in now, other), ValueAt(writes + [(slot, value)], other))
    {
      LastWriteStep(writes, slot, value, other);
      if other == slot {
        SubcacheFits(layout, before, cache);
        OwnVariable(layout, before, st, writes, slot, value);
      } else {
        assert StoredAs(st, NameWhen(layout, cache, other in known, other), ValueAt(writes, other));
        NamesApart(layout, cache, other in known, other, slot in before, slot);
        NameLeftAlone(layout, before, cache, st, writes, slot, value, other in known, other);
      }
    }
  }

  lemma NotNamedStep(
    layout: Layout, before: map<Word, string>, cache: map<Word, string>, known: set<Word>, st: State, writes: Writes,
    slot: Word, value: Word)
    requires WellFormed(layout) && CacheFits(layout, cache) && Extends(before, cache) && SlotsAgree(st, writes)
    requires NotNamedSince(cache, known, st) && known <= before.Keys
    ensures NotNamedSince(cache, if slot in before then known + {slot} else known - {slot},
                          Stored(Some(layout), before, st, slot, value))
  {
    var now, after := if slot in before then known + {slot} else known - {slot},
      Stored(Some(layout), before, st, slot, value);
    NameNow(layout, before, cache, slot);
    forall other | other in cache && other !in now ensures cache[other] !in after.variables {
      CachedNameIsNew(layout, cache, other);
      if other != slot {
        NamesApart(layout, cache, true, other, slot in before, slot);
      }
      NameLeftAlone(layout, before, cache, st, writes, slot, value, true, other);
    }
  }

  /** What holds after a run under every cache that extends the run's own. */
  ghost predicate Carried(layout: Layout, cache: map<Word, string>, known: set<Word>, st: State, writes: Writes)
    requires WellFormed(layout)
  {
    && SlotsAgree(st, writes) && CompoundsAgree(layout, st, writes)
    && NamedThen(layout, cache, known, st, writes) && NotNamedSince(cache, known, st)
  }

  lemma CarriedStep(
    layout: Layout, before: map<Word, string>, cache: map<Word, string>, known: set<Word>, st: State, writes: Writes,
    slot: Word, value: Word)
    requires WellFormed(layout) && CacheFits(layout, cache) && Extends(before, cache) && known <= before.Keys
    requires Carried(layout, cache, known, st, writes)
    ensures Carried(layout, cache, if slot in before then known + {slot} else known - {slot},
                    Stored(Some(layout), before, st, slot, value), writes + [(slot, value)])
  {
    SubcacheFits(layout, before, cache);
    SlotsStep(layout, before, st, writes, slot, value);
    CompoundsStep(layout, before, st, writes, slot, value);
    NamedThenStep(layout, before, cache, known, st, writes, slot, value);
    NotNamedStep(layout, before, cache, known, st, writes, slot, value);
  }

  lemma {:induction false} KnownIsCached(layout: Layout, hash: Hash, seen: Inputs, ops: seq<Op>)
    requires CollisionFree(layout, hash, seen) && AllSeen(seen, HashesOf(ops))
    ensures KnownWhenWritten(layout, hash, ops) <= Run(layout, hash, ops).0.Keys
  {
    if ops == [] {
    } else {
      var init := ops[..|ops| - 1];
      HashesPrefix(ops, |ops| - 1);
      KnownIsCached(layout, hash, seen, init);
      RunCacheExtends(layout, hash, seen, ops, |ops| - 1);
    }
  }

  /** A cache that extends a run's own extends that of the run without its last operation. */
  lemma {:induction false} ExtendsInit(
    layout: Layout, hash: Hash, seen: Inputs, ops: seq<Op>, init: seq<Op>, op: Op, cache: map<Word, string>)
    requires CollisionFree(layout, hash, seen) && AllSeen(seen, HashesOf(ops)) && ops == init + [op]
    requires Extends(Run(layout, hash, ops).0, cache)
    ensures AllSeen(seen, HashesOf(init)) && Extends(Run(layout, hash, init).0, cache)
  {
    assert ops[..|init|] == init;
    HashesPrefix(ops, |init|);
    RunCacheExtends(layout, hash, seen, ops, |init|);
  }

  /** The last operation of a run. */
  lemma {:induction false} RunLast(layout: Layout, hash: Hash, ops: seq<Op>, init: seq<Op>, op: Op)
    requires ops == init + [op]
    ensures var (before, st), known := Run(layout, hash, init), KnownWhenWritten(layout, hash, init);
            match op
            case Hashed(_, _) =>
              && Run(layout, hash, ops).1 == st && WritesOf(ops) == WritesOf(init)
              && KnownWhenWritten(layout, hash, ops) == known
            case Write(slot, value) =>
              && Run(layout, hash, ops).1 == Stored(Some(layout), before, st, slot, value)
              && WritesOf(ops) == WritesOf(init) + [(slot, value)]
              && KnownWhenWritten(layout, hash, ops) == if slot in before then known + {slot} else known - {slot}
  {
    assert ops[..|ops| - 1] == init;
  }

  lemma {:induction false} RunCarries(layout: Layout, hash: Hash, seen: Inputs, ops: seq<Op>, cache: map<Word, string>)
    requires WellFormed(layout) && CollisionFree(layout, hash, seen) && AllSeen(seen, HashesOf(ops))
    requires CacheFits(layout, cache) && Extends(Run(layout, hash, ops).0, cache)
    ensures Carried(layout, cache, KnownWhenWritten(layout, hash, ops), Run(layout, hash, ops).1, WritesOf(ops))
  {
    if ops == [] {
      NothingCarried(layout, cache);
    } else {
      var init, op := ops[..|ops| - 1], ops[|ops| - 1];
      assert ops == init + [op];
      ExtendsInit(layout, hash, seen, ops, init, op, cache);
      RunCarries(layout, hash, seen, init, cache);
      RunLast(layout, hash, ops, init, op);
      if op.Write? {
        var (before, st) := Run(layout, hash, init);
        KnownIsCached(layout, hash, seen, init);
        CarriedStep(layout, before, cache, KnownWhenWritten(layout, hash, init), st, WritesOf(init), op.slot, op.value);
      }
    }
  }

  /** The slot index alone needs nothing of the layout or the hash. */
  lemma {:induction false} RunSlotsAgree(layout: Layout, hash: Hash, ops: seq<Op>)
    ensures SlotsAgree(Run(layout, hash, ops).1, WritesOf(ops))
  {
    if ops == [] {
    } else {
      var init, op := ops[..|ops| - 1], ops[|ops| - 1];
      assert ops == init + [op];
      RunSlotsAgree(layout, hash, init);
      RunLast(layout, hash, ops, init, op);
      if op.Write? {
        var (cache, st) := Run(layout, hash, init);
        SlotsStep(layout, cache, st, WritesOf(init), op.slot, op.value);
      }
    }
  }

  lemma NothingCarried(layout: Layout, cache: map<Word, string>)
    requires WellFormed(layout)
    ensures Carried(layout, cache, {}, EMPTY, [])
  {
  }

  /** The final names show the last writes exactly when the slots they name were known in time. */
  lemma {:induction false} PlainIffKnown(
    layout: Layout, cache: map<Word, string>, known: set<Word>, st: State, writes: Writes)
    requires WellFormed(layout) && CacheFits(layout, cache) && Carried(layout, cache, known, st, writes)
    ensures PlainAgree(layout, cache, st, writes)
            <==> forall slot :: slot in cache && LastWrite(writes, slot).Some? ==> slot in known
  {
    forall slot: Word | LastWrite(writes, slot).Some? && !IsCompoundBase(layout, slot)
      ensures StoredAs(st, NameWhen(layout, cache, slot in known, slot), ValueAt(writes, slot))
      ensures slot !in cache ==> SlotName(Some(layout), cache, slot) == NameWhen(layout, cache, slot in known, slot)
    {
      if slot !in cache {
        SameNameUnder(layout, cache, cache - {slot}, slot);
      }
    }
    forall slot | slot in cache && LastWrite(writes, slot).Some? && slot !in known
      ensures !PlainAgree(layout, cache, st, writes)
    {
      CachedNameIsNew(layout, cache, slot);
      assert SlotName(Some(layout), cache, slot) !in st.variables;
    }
  }

  /** The whole story for one frame, hashes and writes interleaved in any order, starting empty: the slot
      index and the compounds agree with the last writes, the names tell all slots apart, and every other
      variable agrees with the last write of the slot it names exactly when each written slot that is in
      the mapping cache at the end was in it when it was last written. */
  lemma {:induction false} RunAgrees(layout: Layout, hash: Hash, seen: Inputs, ops: seq<Op>)
    requires WellFormed(layout) && CollisionFree(layout, hash, seen) && AllSeen(seen, HashesOf(ops))
    requires CacheFits(layout, Run(layout, hash, ops).0)
    ensures var (cache, st) := Run(layout, hash, ops);
            && SlotsAgree(st, WritesOf(ops))
            && CompoundsAgree(layout, st, WritesOf(ops))
            && (PlainAgree(layout, cache, st, WritesOf(ops)) <==> HashedInTime(layout, hash, ops))
            && forall s: Word, t: Word :: SlotName(Some(layout), cache, s) == SlotName(Some(layout), cache, t) ==>
               s == t
  {
    var (cache, st) := Run(layout, hash, ops);
    RunCarries(layout, hash, seen, ops, cache);
    PlainIffKnown(layout, cache, KnownWhenWritten(layout, hash, ops), st, WritesOf(ops));
    forall s: Word, t: Word | SlotName(Some(layout), cache, s) == SlotName(Some(layout), cache, t) ensures s == t {
      SlotNamesDistinct(layout, cache, s, t);
    }
  }

  /** The failing order: the value of `m[key]` is written before its slot is hashed, and stays under a
      synthetic name although the slot is then known. */
  lemma {:induction false} WriteBeforeHashFails(layout: Layout, hash: Hash, base: U64, key: Key, value: Word)
    requires WellFormed(layout) && IsMapping(layout, base)
    requires forall i :: 0 <= i < |layout.storage| ==> !Owns(layout, layout.storage[i], hash(HashInput(key, base)))
    ensures var h, m := hash(HashInput(key, base)), MappingAtBase(layout, base).value;
            var (cache, st) := Run(layout, hash, [Write(h, value), Hashed(key, base)]);
            && cache == map[h := m.0 + "[" + FormatMappingKey(m.1, key) + "]"]
            && st.variables == map["storage[" + Print(h, 10) + "]" := Raw(value)]
            && SlotName(Some(layout), cache, h) == cache[h] && cache[h] !in st.variables
            && !PlainAgree(layout, cache, st, [(h, value)])
  {
    var h, m := hash(HashInput(key, base)), MappingAtBase(layout, base).value;
    var cache := map[h := m.0 + "[" + FormatMappingKey(m.1, key) + "]"];
    var st := Stored(Some(layout), map[], EMPTY, h, value);
    assert Run(layout, hash, [Write(h, value), Hashed(key, base)]) == (cache, st) by {
      TwoOps(layout, hash, Write(h, value), Hashed(key, base));
      assert Recorded(layout, hash, map[], key, base) == cache;
    }
    FreeSlotName(layout, map[], h);
    FreeSlotName(layout, cache, h);
    PlainVariables(layout, map[], EMPTY, h, value);
    NotSynthetic(layout, base, cache[h], Print(h, 10));
    NoBase(layout, h);
    assert LastWrite([(h, value)], h) == Some(value);
  }

  lemma {:induction false} TwoOps(layout: Layout, hash: Hash, first: Op, second: Op)
    requires first.Write? && second.Hashed?
    ensures Run(layout, hash, [first, second])
            == (Recorded(layout, hash, map[], second.key, second.base),
                Stored(Some(layout), map[], EMPTY, first.slot, first.value))
  {
    assert [first, second][..1] == [first] && [first][..0] == [];
    assert Run(layout, hash, []) == (map[], EMPTY);
    assert Run(layout, hash, [first]) == (map[], Stored(Some(layout), map[], EMPTY, first.slot, first.value));
  }

  lemma NotSynthetic(layout: Layout, base: U64, name: string, decimal: string)
    requires WellFormed(layout) && IsMapping(layout, base) && MappingAtBase(layout, base).value.0 + "[" <= name
    ensures name != "storage[" + decimal + "]"
  {
    var i := MappingEntry(layout, base);
    assert LabelledAt(layout, i);
    LabelsDiffer(layout, i, i);
    BracketHeads(name, layout.storage[i].name);
    UnnamedHead(decimal);
    if name == "storage[" + decimal + "]" {
      HeadUnique(name, layout.storage[i].name, "storage");
    }
  }

  /** A run's own cache fits its layout when hashes miss the declared slots and keys are narrow. */
  lemma {:induction false} RunCacheFits(layout: Layout, hash: Hash, seen: Inputs, ops: seq<Op>)
    requires WellFormed(layout) && CollisionFree(layout, hash, seen) && AllSeen(seen, HashesOf(ops))
    requires NarrowCache(layout, hash, seen, Run(layout, hash, ops).0)
    requires forall h, i :: h in Run(layout, hash, ops).0 && 0 <= i < |layout.storage| ==>
             !Owns(layout, layout.storage[i], h)
    ensures CacheFits(layout, Run(layout, hash, ops).0)
  {
    RunCache(layout, hash, ops);
    NamesHaveProvenance(layout, hash, seen, HashesOf(ops), |HashesOf(ops)|);
    ProvenanceFits(layout, hash, seen, Run(layout, hash, ops).0);
  }

  // ---- frames without a layout ------------------------------------------------------------------------

  /** The caches of a frame without a layout, in which no mapping slot is ever named. */
  function RunWithout(writes: Writes): State {
    if writes == [] then EMPTY
    else
      var last := writes[|writes| - 1];
      Stored(None, map[], RunWithout(writes[..|writes| - 1]), last.0, last.1)
  }

  function SyntheticName(slot: Word): string {
    "storage[" + Print(slot, 10) + "]"
  }

  lemma SyntheticNamesDistinct(a: Word, b: Word)
    ensures SyntheticName(a) == SyntheticName(b) <==> a == b
  {
    if SyntheticName(a) == SyntheticName(b) {
      var pa, pb := Print(a, 10), Print(b, 10);
      assert SyntheticName(a)[8..|SyntheticName(a)| - 1] == pa && SyntheticName(b)[8..|SyntheticName(b)| - 1] == pb;
      PrintInjective(a, b, 10);
    }
  }

  /** Without a layout the variables are the written slots under their numbers, each with its last word, and there
      is no slot index. */
  lemma {:induction false} RunWithoutAgrees(writes: Writes, slot: Word)
    ensures var st := RunWithout(writes);
            && st.slots == map[]
            && (SyntheticName(slot) in st.variables <==> LastWrite(writes, slot).Some?)
            && (SyntheticName(slot) in st.variables ==> st.variables[SyntheticName(slot)] == Raw(ValueAt(writes, slot)))
  {
    if writes == [] {
    } else {
      var last := writes[|writes| - 1];
      RunWithoutAgrees(writes[..|writes| - 1], slot);
      UnlaidSlotName(map[], last.0);
      SyntheticNamesDistinct(last.0, slot);
    }
  }
}
