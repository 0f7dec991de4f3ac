/** Looking up solc's storage layout (src/storage_layout.rs), and the name that an SSTORE to a
    slot is recorded under. */
module StorageLayout {
  import opened Basics
  import opened Numerals

  /** `name` is what solc calls the label. */
  datatype StorageEntry = StorageEntry(name: string, slot: string, offset: U64, typeName: string)

  datatype StorageTypeInfo = StorageTypeInfo(
    encoding: string,
    name: string,
    numberOfBytes: string,
    key: Option<string>,
    value: Option<string>,
    base: Option<string>,
    members: Option<seq<StorageEntry>>)

  datatype Layout = Layout(storage: seq<StorageEntry>, types: map<string, StorageTypeInfo>) {
    function TypeInfo(e: StorageEntry): Option<StorageTypeInfo> {
      if e.typeName in types then Some(types[e.typeName]) else None
    }
  }

  /** A `for entry in &self.storage` search loop: the first entry that yields something. */
  function FirstSome<T>(entries: seq<StorageEntry>, f: StorageEntry -> Option<T>): (r: Option<T>)
    ensures r.None? <==> forall e :: e in entries ==> f(e).None?
  {
    if entries == [] then None
    else
      assert forall e :: e in entries <==> e == entries[0] || e in entries[1..];
      if f(entries[0]).Some? then f(entries[0]) else FirstSome(entries[1..], f)
  }

  lemma {:induction false} OnlyHit<T>(entries: seq<StorageEntry>, f: StorageEntry -> Option<T>, i: nat)
    requires i < |entries| && f(entries[i]).Some?
    requires forall j :: 0 <= j < |entries| && j != i ==> f(entries[j]).None?
    ensures FirstSome(entries, f) == f(entries[i])
  {
    if i == 0 {
    } else {
      forall j | 0 <= j < |entries[1..]| && j != i - 1 ensures f(entries[1..][j]).None? {
        assert entries[1..][j] == entries[j + 1];
      }
      OnlyHit(entries[1..], f, i - 1);
    }
  }

  /** The search stops at the first entry that yields something. */
  lemma {:induction false} FirstSomeIsFirst<T>(entries: seq<StorageEntry>, f: StorageEntry -> Option<T>, i: nat)
    requires i < |entries| && f(entries[i]).Some? && forall j :: 0 <= j < i ==> f(entries[j]).None?
    ensures FirstSome(entries, f) == f(entries[i])
  {
    if i == 0 {
    } else {
      forall j | 0 <= j < i - 1 ensures f(entries[1..][j]).None? {
        assert entries[1..][j] == entries[j + 1];
      }
      FirstSomeIsFirst(entries[1..], f, i - 1);
    }
  }

  function BaseSlot(e: StorageEntry): Option<U64> {
    ParseU64(e.slot)
  }

  function ResolveSlot(layout: Layout, slot: string): Option<StorageEntry> {
    FirstSome(layout.storage, (e: StorageEntry) => if e.slot == slot then Some(e) else None)
  }

  /** What one member contributes to the search. */
  function MemberHit(base: U64, slot: U64, m: StorageEntry): Option<StorageEntry> {
    var o := ParseU64(m.slot);
    if o.Some? && Min(base + o.value, U64_BOUND - 1) == slot then Some(m) else None
  }

  function MemberAt(members: seq<StorageEntry>, base: U64, slot: U64): Option<StorageEntry> {
    FirstSome(members, (m: StorageEntry) => MemberHit(base, slot, m))
  }

  function StructMemberIn(layout: Layout, slot: U64, e: StorageEntry): Option<(string, string)> {
    var base, ti := BaseSlot(e), layout.TypeInfo(e);
    if base.None? || ti.None? || ti.value.encoding != "inplace" || ti.value.members.None? then None
    else
      var m := MemberAt(ti.value.members.value, base.value, slot);
      if m.Some? then Some((e.name, m.value.name)) else None
  }

  function StructMemberAt(layout: Layout, slot: U64): Option<(string, string)> {
    FirstSome(layout.storage, (e: StorageEntry) => StructMemberIn(layout, slot, e))
  }

  /** Whole 32-byte slots. */
  function SlotsFor(bytes: U64): U64 {
    (bytes + 31) / 32
  }

  function ArrayElementIn(layout: Layout, slot: U64, e: StorageEntry): Option<(string, U64)> {
    var base, ti := BaseSlot(e), layout.TypeInfo(e);
    if base.None? || ti.None? || ti.value.encoding != "inplace" || ti.value.base.None? then None
    else
      var total := ParseU64(ti.value.numberOfBytes);
      if total.Some? && base.value <= slot < SumU64(base.value, SlotsFor(total.value))
      then Some((e.name, slot - base.value)) else None
  }

  function ArrayElementAt(layout: Layout, slot: U64): Option<(string, U64)> {
    FirstSome(layout.storage, (e: StorageEntry) => ArrayElementIn(layout, slot, e))
  }

  function MappingIn(layout: Layout, baseSlot: U64, e: StorageEntry): Option<(string, string)> {
    var ti := layout.TypeInfo(e);
    if BaseSlot(e) != Some(baseSlot) || ti.None? || ti.value.encoding != "mapping" || ti.value.key.None? then None
    else
      var key := ti.value.key.value;
      Some((e.name, if key in layout.types then layout.types[key].name else "uint256"))
  }

  /** Label and key type label of the mapping declared at a base slot. */
  function MappingAtBase(layout: Layout, baseSlot: U64): Option<(string, string)> {
    FirstSome(layout.storage, (e: StorageEntry) => MappingIn(layout, baseSlot, e))
  }

  /** The number of slots of an in-place array or struct that spans more than one slot. */
  function CompoundSlots(layout: Layout, e: StorageEntry): Option<U64> {
    var ti := layout.TypeInfo(e);
    if ti.None? then None
    else
      var total := ParseU64(ti.value.numberOfBytes);
      if total.None? || SlotsFor(total.value) <= 1 || ti.value.encoding != "inplace"
         || (ti.value.members.None? && ti.value.base.None?) then None
      else Some(SlotsFor(total.value))
  }

  function CompoundIn(layout: Layout, slot: U64, e: StorageEntry): Option<StorageEntry> {
    var base, count := BaseSlot(e), CompoundSlots(layout, e);
    if base.Some? && count.Some? && base.value <= slot < SumU64(base.value, count.value) then Some(e) else None
  }

  /** The array or struct whose slot range covers `slot`. */
  function ContainingCompound(layout: Layout, slot: U64): Option<StorageEntry> {
    FirstSome(layout.storage, (e: StorageEntry) => CompoundIn(layout, slot, e))
  }

  // ---- the recorded name of a slot ------------------------------------------------------------------

  /** The recorder's chain of attempts: a declared slot, a cached mapping slot, a struct member,
      an array element, a synthetic name. */
  function SlotName(layout: Option<Layout>, cache: map<Word, string>, slot: Word): string {
    var decimal := Print(slot, 10);
    var declared := if layout.Some? then ResolveSlot(layout.value, decimal) else None;
    if declared.Some? then declared.value.name
    else if slot in cache then cache[slot]
    else
      var parsed := ParseU64(decimal);
      var member := if layout.Some? && parsed.Some? then StructMemberAt(layout.value, parsed.value) else None;
      var element := if layout.Some? && parsed.Some? then ArrayElementAt(layout.value, parsed.value) else None;
      if member.Some? then member.value.0 + "." + member.value.1
      else if element.Some? then element.value.0 + "[" + Print(element.value.1, 10) + "]"
      else "storage[" + decimal + "]"
  }

  // ---- well-formed layouts ----------------------------------------------------------------------------

  predicate IsIdentifier(s: string) {
    s != "" && '.' !in s && '[' !in s && ']' !in s
  }

  /** Slots an entry owns. */
  function Slots(layout: Layout, e: StorageEntry): U64 {
    var count := CompoundSlots(layout, e);
    if count.Some? then count.value else 1
  }

  function Members(layout: Layout, e: StorageEntry): Option<seq<StorageEntry>> {
    var ti := layout.TypeInfo(e);
    if ti.Some? && ti.value.encoding == "inplace" then ti.value.members else None
  }

  predicate MemberOk(members: seq<StorageEntry>, k: nat)
    requires k < |members|
  {
    members[k].slot == Print(k, 10) && IsIdentifier(members[k].name)
  }

  /** One 32-byte member per slot, in order. */
  predicate MembersOk(members: seq<StorageEntry>, count: nat) {
    && |members| == count
    && (forall k :: 0 <= k < count ==> MemberOk(members, k))
    && (forall k, l :: 0 <= k < l < count ==> members[k].name != members[l].name)
  }

  /** A slot range below 2^64, with members that fill it. */
  predicate RangeOk(layout: Layout, e: StorageEntry) {
    && BaseSlot(e).Some? && BaseSlot(e).value + Slots(layout, e) < U64_BOUND
    && (Members(layout, e).Some? ==> MembersOk(Members(layout, e).value, Slots(layout, e)))
  }

  /** A canonical slot number and an identifier label. */
  predicate LabelOk(e: StorageEntry) {
    BaseSlot(e).Some? && e.slot == Print(BaseSlot(e).value, 10) && IsIdentifier(e.name) && e.name != "storage"
  }

  predicate Owns(layout: Layout, e: StorageEntry, slot: Word) {
    BaseSlot(e).Some? && BaseSlot(e).value <= slot < BaseSlot(e).value + Slots(layout, e)
  }

  predicate RangedAt(layout: Layout, i: nat)
    requires i < |layout.storage|
  {
    RangeOk(layout, layout.storage[i])
  }

  predicate LabelledAt(layout: Layout, i: nat)
    requires i < |layout.storage|
  {
    LabelOk(layout.storage[i])
  }

  ghost predicate ApartAt(layout: Layout, i: nat, j: nat)
    requires i < |layout.storage| && j < |layout.storage|
  {
    && layout.storage[i].name != layout.storage[j].name
    && forall slot: Word :: Owns(layout, layout.storage[i], slot) ==> !Owns(layout, layout.storage[j], slot)
  }

  /** Canonical slot numbers, disjoint slot ranges, distinct identifier labels. */
  ghost predicate WellFormed(layout: Layout) {
    && (forall i :: 0 <= i < |layout.storage| ==> RangedAt(layout, i))
    && (forall i :: 0 <= i < |layout.storage| ==> LabelledAt(layout, i))
    && (forall i, j :: 0 <= i < |layout.storage| && 0 <= j < |layout.storage| && i != j ==> ApartAt(layout, i, j))
  }

  /** The member of an owned slot, when its owner is a struct. */
  function MemberNamed(layout: Layout, e: StorageEntry, slot: Word): (r: Option<(string, string)>)
    requires RangeOk(layout, e) && Owns(layout, e, slot)
    ensures r.Some? <==> Members(layout, e).Some?
    ensures r.Some? ==> r.value.0 == e.name
  {
    if Members(layout, e).Some? then Some((e.name, Members(layout, e).value[slot - BaseSlot(e).value].name)) else None
  }

  /** What a slot is called, by its owner. */
  function OwnedName(layout: Layout, e: StorageEntry, slot: Word): string
    requires RangeOk(layout, e) && Owns(layout, e, slot)
  {
    var k := slot - BaseSlot(e).value;
    if k == 0 then e.name else InnerName(e.name, k, MemberNamed(layout, e, slot))
  }

  /** The name of element or member `k` of a variable. */
  function InnerName(name: string, k: nat, member: Option<(string, string)>): string {
    if member.Some? then name + "." + member.value.1 else name + "[" + Print(k, 10) + "]"
  }

  lemma {:induction false} SlotTextUnique(e: StorageEntry, slot: nat)
    requires BaseSlot(e).Some? && e.slot == Print(BaseSlot(e).value, 10)
    ensures e.slot == Print(slot, 10) <==> BaseSlot(e).value == slot
  {
    if e.slot == Print(slot, 10) {
      PrintInjective(BaseSlot(e).value, slot, 10);
    }
  }

  lemma OwnsBase(layout: Layout, e: StorageEntry, slot: Word)
    requires BaseSlot(e) == Some(slot)
    ensures Owns(layout, e, slot)
  {
  }

  lemma SoleOwner(layout: Layout, i: nat, j: nat, slot: Word)
    requires WellFormed(layout) && i < |layout.storage| && j < |layout.storage| && i != j
             && Owns(layout, layout.storage[i], slot)
    ensures !Owns(layout, layout.storage[j], slot) && BaseSlot(layout.storage[j]) != Some(slot)
  {
    assert ApartAt(layout, i, j);
    if BaseSlot(layout.storage[j]) == Some(slot) {
      OwnsBase(layout, layout.storage[j], slot);
    }
  }

  lemma {:induction false} ResolveFindsBase(layout: Layout, slot: Word)
    requires WellFormed(layout)
    ensures var r := ResolveSlot(layout, Print(slot, 10));
            && (forall i :: 0 <= i < |layout.storage| && BaseSlot(layout.storage[i]) == Some(slot) ==>
               r == Some(layout.storage[i]))
            && ((forall i :: 0 <= i < |layout.storage| ==> BaseSlot(layout.storage[i]) != Some(slot)) ==> r == None)
  {
    var f := (e: StorageEntry) => if e.slot == Print(slot, 10) then Some(e) else None;
    forall i | 0 <= i < |layout.storage|
      ensures f(layout.storage[i]).Some? <==> BaseSlot(layout.storage[i]) == Some(slot)
    {
      assert LabelledAt(layout, i);
      SlotTextUnique(layout.storage[i], slot);
    }
    forall i | 0 <= i < |layout.storage| && BaseSlot(layout.storage[i]) == Some(slot)
      ensures ResolveSlot(layout, Print(slot, 10)) == Some(layout.storage[i])
    {
      OwnsBase(layout, layout.storage[i], slot);
      forall j | 0 <= j < |layout.storage| && j != i ensures f(layout.storage[j]).None? {
        SoleOwner(layout, i, j, slot);
      }
      OnlyHit(layout.storage, f, i);
    }
  }

  lemma {:induction false} NumberedMember(base: U64, slot: U64, m: StorageEntry, k: nat)
    requires m.slot == Print(k, 10) && base + k < U64_BOUND - 1
    ensures MemberHit(base, slot, m) == if base + k == slot then Some(m) else None
  {
    ParseU64OfPrint(k);
  }

  /** The sum of base and offset stops at 64 bits. */
  lemma {:induction false} SaturatedMember(base: U64, slot: U64, m: StorageEntry, k: U64)
    requires m.slot == Print(k, 10) && U64_BOUND <= base + k
    ensures MemberHit(base, slot, m) == if slot == U64_BOUND - 1 then Some(m) else None
  {
    ParseU64OfPrint(k);
  }

  lemma MembersInOrder(members: seq<StorageEntry>, base: U64, slot: U64)
    requires base + |members| < U64_BOUND && forall k :: 0 <= k < |members| ==> members[k].slot == Print(k, 10)
    ensures MemberAt(members, base, slot)
            == if base <= slot < base + |members| then Some(members[slot - base]) else None
  {
    forall k | 0 <= k < |members|
      ensures MemberHit(base, slot, members[k]) == if base + k == slot then Some(members[k]) else None
    {
      NumberedMember(base, slot, members[k], k);
    }
    if base <= slot < base + |members| {
      OnlyHit(members, (m: StorageEntry) => MemberHit(base, slot, m), slot - base);
    }
  }

  lemma MemberAtIndex(members: seq<StorageEntry>, count: nat, base: U64, slot: U64)
    requires MembersOk(members, count) && base + count < U64_BOUND
    ensures MemberAt(members, base, slot) == if base <= slot < base + count then Some(members[slot - base]) else None
  {
    forall k | 0 <= k < count ensures members[k].slot == Print(k, 10) {
      assert MemberOk(members, k);
    }
    MembersInOrder(members, base, slot);
  }

  lemma MemberOfStruct(layout: Layout, e: StorageEntry, slot: U64, base: U64, members: seq<StorageEntry>)
    requires BaseSlot(e) == Some(base) && Members(layout, e) == Some(members)
    requires MembersOk(members, |members|) && base + |members| < U64_BOUND
    ensures StructMemberIn(layout, slot, e)
            == if base <= slot < base + |members| then Some((e.name, members[slot - base].name)) else None
  {
    MemberAtIndex(members, |members|, base, slot);
  }

  lemma MemberLookup(layout: Layout, e: StorageEntry, slot: U64)
    requires RangeOk(layout, e)
    ensures StructMemberIn(layout, slot, e) == if Owns(layout, e, slot) then MemberNamed(layout, e, slot) else None
  {
    if Members(layout, e).Some? {
      MemberOfStruct(layout, e, slot, BaseSlot(e).value, Members(layout, e).value);
    }
  }

  lemma ElementLookup(layout: Layout, e: StorageEntry, slot: U64)
    requires RangeOk(layout, e)
    ensures ArrayElementIn(layout, slot, e).Some? ==> Owns(layout, e, slot)
    ensures Owns(layout, e, slot) && BaseSlot(e) != Some(slot) && Members(layout, e).None?
            ==> ArrayElementIn(layout, slot, e) == Some((e.name, slot - BaseSlot(e).value))
    ensures CompoundIn(layout, slot, e).Some? <==> Owns(layout, e, slot) && CompoundSlots(layout, e).Some?
  {
  }

  lemma OwnedMember(layout: Layout, slot: U64, i: nat)
    requires WellFormed(layout) && i < |layout.storage| && Owns(layout, layout.storage[i], slot)
    ensures StructMemberAt(layout, slot) == StructMemberIn(layout, slot, layout.storage[i])
  {
    var f := (e: StorageEntry) => StructMemberIn(layout, slot, e);
    forall j | 0 <= j < |layout.storage| && j != i ensures f(layout.storage[j]).None? {
      assert RangedAt(layout, j);
      SoleOwner(layout, i, j, slot);
      MemberLookup(layout, layout.storage[j], slot);
    }
    if f(layout.storage[i]).Some? {
      OnlyHit(layout.storage, f, i);
    }
  }

  lemma OwnedElement(layout: Layout, slot: U64, i: nat)
    requires WellFormed(layout) && i < |layout.storage| && Owns(layout, layout.storage[i], slot)
    ensures ArrayElementAt(layout, slot) == ArrayElementIn(layout, slot, layout.storage[i])
  {
    var f := (e: StorageEntry) => ArrayElementIn(layout, slot, e);
    forall j | 0 <= j < |layout.storage| && j != i ensures f(layout.storage[j]).None? {
      assert RangedAt(layout, j);
      SoleOwner(layout, i, j, slot);
      ElementLookup(layout, layout.storage[j], slot);
    }
    if f(layout.storage[i]).Some? {
      OnlyHit(layout.storage, f, i);
    }
  }

  lemma {:induction false} OwnedInside(layout: Layout, slot: Word, i: nat)
    requires WellFormed(layout) && i < |layout.storage| && Owns(layout, layout.storage[i], slot)
    requires BaseSlot(layout.storage[i]) != Some(slot)
    ensures ResolveSlot(layout, Print(slot, 10)) == None
  {
    forall j | 0 <= j < |layout.storage| ensures BaseSlot(layout.storage[j]) != Some(slot) {
      if j != i {
        SoleOwner(layout, i, j, slot);
      }
    }
    ResolveFindsBase(layout, slot);
  }

  /** What the lookups find at a slot inside its owner's range. */
  lemma OwnedMemberName(layout: Layout, slot: U64, i: nat)
    requires WellFormed(layout) && i < |layout.storage| && Owns(layout, layout.storage[i], slot)
    ensures RangeOk(layout, layout.storage[i])
    ensures var e := layout.storage[i];
            StructMemberAt(layout, slot) == MemberNamed(layout, e, slot)
  {
    assert RangedAt(layout, i);
    OwnedMember(layout, slot, i);
    MemberLookup(layout, layout.storage[i], slot);
  }

  lemma OwnedElementIndex(layout: Layout, slot: U64, i: nat)
    requires WellFormed(layout) && i < |layout.storage| && Owns(layout, layout.storage[i], slot)
    requires BaseSlot(layout.storage[i]) != Some(slot) && Members(layout, layout.storage[i]).None?
    ensures ArrayElementAt(layout, slot) == Some((layout.storage[i].name, slot - BaseSlot(layout.storage[i]).value))
  {
    assert RangedAt(layout, i);
    OwnedElement(layout, slot, i);
    ElementLookup(layout, layout.storage[i], slot);
  }

  lemma {:induction false} InnerLookup(
    layout: Layout, cache: map<Word, string>, slot: U64, name: string, k: nat, member: Option<(string, string)>)
    requires ResolveSlot(layout, Print(slot, 10)) == None && slot !in cache
    requires StructMemberAt(layout, slot) == member && (member.Some? ==> member.value.0 == name)
    requires member.None? ==> ArrayElementAt(layout, slot) == Some((name, k))
    ensures SlotName(Some(layout), cache, slot) == InnerName(name, k, member)
  {
    ParseU64OfPrint(slot);
  }

  lemma OwnedInnerName(layout: Layout, e: StorageEntry, slot: U64, k: nat)
    requires RangeOk(layout, e) && Owns(layout, e, slot) && k == slot - BaseSlot(e).value && BaseSlot(e) != Some(slot)
    ensures OwnedName(layout, e, slot) == InnerName(e.name, k, MemberNamed(layout, e, slot))
  {
  }

  lemma BaseName(layout: Layout, cache: map<Word, string>, slot: Word, i: nat)
    requires WellFormed(layout) && i < |layout.storage| && BaseSlot(layout.storage[i]) == Some(slot)
    ensures SlotName(Some(layout), cache, slot) == layout.storage[i].name
  {
    ResolveFindsBase(layout, slot);
  }

  /** In a well-formed layout the chain of attempts names a declared slot by its owner. */
  lemma OwnedSlotName(layout: Layout, cache: map<Word, string>, slot: Word, i: nat)
    requires WellFormed(layout) && i < |layout.storage| && Owns(layout, layout.storage[i], slot) && slot !in cache
    ensures RangeOk(layout, layout.storage[i])
    ensures SlotName(Some(layout), cache, slot) == OwnedName(layout, layout.storage[i], slot)
  {
    var e := layout.storage[i];
    assert RangedAt(layout, i);
    if BaseSlot(e) == Some(slot) {
      BaseName(layout, cache, slot, i);
    } else {
      OwnedInside(layout, slot, i);
      OwnedMemberName(layout, slot, i);
      if MemberNamed(layout, e, slot).None? {
        OwnedElementIndex(layout, slot, i);
      }
      var k := slot - BaseSlot(e).value;
      InnerLookup(layout, cache, slot, e.name, k, MemberNamed(layout, e, slot));
      OwnedInnerName(layout, e, slot, k);
    }
  }

  /** A slot nobody owns is named by the mapping cache, or synthetically. */
  lemma {:induction false} FreeSlotName(layout: Layout, cache: map<Word, string>, slot: Word)
    requires WellFormed(layout)
    requires forall i :: 0 <= i < |layout.storage| ==> !Owns(layout, layout.storage[i], slot)
    ensures SlotName(Some(layout), cache, slot) == if slot in cache then cache[slot]
            else "storage[" + Print(slot, 10) + "]"
  {
    ResolveFindsBase(layout, slot);
    ParseU64OfPrint(slot);
    forall j | 0 <= j < |layout.storage|
      ensures BaseSlot(layout.storage[j]) != Some(slot)
      ensures slot < U64_BOUND ==>
              StructMemberIn(layout, slot, layout.storage[j]).None?
              && ArrayElementIn(layout, slot, layout.storage[j]).None?
    {
      assert RangedAt(layout, j) && !Owns(layout, layout.storage[j], slot);
      if BaseSlot(layout.storage[j]) == Some(slot) {
        OwnsBase(layout, layout.storage[j], slot);
      }
      if slot < U64_BOUND {
        MemberLookup(layout, layout.storage[j], slot);
        ElementLookup(layout, layout.storage[j], slot);
      }
    }
  }

  /** The compound covering a slot is its owner, when that owner is a compound. */
  lemma CompoundIsOwner(layout: Layout, slot: U64)
    requires WellFormed(layout)
    ensures forall i ::
            0 <= i < |layout.storage| && Owns(layout, layout.storage[i], slot)
            && CompoundSlots(layout, layout.storage[i]).Some? ==>
              ContainingCompound(layout, slot) == Some(layout.storage[i])
    ensures (forall i :: 0 <= i < |layout.storage| && Owns(layout, layout.storage[i], slot) ==>
               CompoundSlots(layout, layout.storage[i]).None?)
            ==> ContainingCompound(layout, slot) == None
  {
    var f := (e: StorageEntry) => CompoundIn(layout, slot, e);
    forall j | 0 <= j < |layout.storage|
      ensures f(layout.storage[j]).Some?
              <==> Owns(layout, layout.storage[j], slot) && CompoundSlots(layout, layout.storage[j]).Some?
    {
      assert RangedAt(layout, j);
      ElementLookup(layout, layout.storage[j], slot);
    }
    forall i | 0 <= i < |layout.storage| && Owns(layout, layout.storage[i], slot)
      && CompoundSlots(layout, layout.storage[i]).Some?
      ensures ContainingCompound(layout, slot) == Some(layout.storage[i])
    {
      forall j | 0 <= j < |layout.storage| && j != i ensures f(layout.storage[j]).None? {
        SoleOwner(layout, i, j, slot);
      }
      OnlyHit(layout.storage, f, i);
    }
  }

  // ---- declarations as solc writes them ---------------------------------------------------------------

  /** As many slots as it takes to hold the bytes, and no more. */
  lemma SizeInSlots(bytes: U64)
    ensures bytes <= 32 * SlotsFor(bytes) < bytes + 32
  {
  }

  /** An entry at `base` whose type is stored in place and takes `words` slots. */
  predicate DeclaresWords(layout: Layout, e: StorageEntry, base: U64, words: nat) {
    && e.slot == Print(base, 10) && base + words < U64_BOUND && 32 * words < U64_BOUND
    && layout.TypeInfo(e).Some? && layout.TypeInfo(e).value.encoding == "inplace"
    && layout.TypeInfo(e).value.numberOfBytes == Print(32 * words, 10)
  }

  /** An array or struct of several words is the compound of exactly its slots. */
  lemma DeclaredCompound(layout: Layout, e: StorageEntry, base: U64, words: nat, slot: U64)
    requires DeclaresWords(layout, e, base, words) && 2 <= words
    requires layout.TypeInfo(e).value.base.Some? || layout.TypeInfo(e).value.members.Some?
    ensures CompoundIn(layout, slot, e) == if base <= slot < base + words then Some(e) else None
    ensures CompoundSlots(layout, e) == Some(words)
  {
    ParseU64OfPrint(base);
    ParseU64OfPrint(32 * words);
  }

  /** Slot `base + k` of an array is element `k`, and no other slot is one. */
  lemma DeclaredArray(layout: Layout, e: StorageEntry, base: U64, words: nat, slot: U64)
    requires DeclaresWords(layout, e, base, words) && layout.TypeInfo(e).value.base.Some?
    ensures ArrayElementIn(layout, slot, e) == if base <= slot < base + words then Some((e.name, slot - base)) else None
  {
    ParseU64OfPrint(base);
    ParseU64OfPrint(32 * words);
  }

  /** Slot `base + k` of a struct is member `k`, and no other slot is one. */
  lemma DeclaredStruct(
    layout: Layout, e: StorageEntry, base: U64, members: seq<StorageEntry>, slot: U64)
    requires DeclaresWords(layout, e, base, |members|) && layout.TypeInfo(e).value.members == Some(members)
    requires forall k :: 0 <= k < |members| ==> members[k].slot == Print(k, 10)
    ensures StructMemberIn(layout, slot, e)
            == if base <= slot < base + |members| then Some((e.name, members[slot - base].name)) else None
  {
    ParseU64OfPrint(base);
    MembersInOrder(members, base, slot);
  }

  /** Anything that fits one slot, and anything not stored in place, is no compound. */
  lemma {:induction false} NoCompound(layout: Layout, e: StorageEntry, bytes: U64)
    requires layout.TypeInfo(e).Some? && layout.TypeInfo(e).value.numberOfBytes == Print(bytes, 10)
    requires bytes <= 32 || layout.TypeInfo(e).value.encoding != "inplace"
    ensures CompoundSlots(layout, e) == None && forall slot: U64 :: CompoundIn(layout, slot, e) == None
  {
    ParseU64OfPrint(bytes);
  }

  /** In a well-formed layout the mapping found at a slot is the one declared there, with the label of its key
      type, or "uint256" when that type is not listed; and none is found where none is declared. */
  lemma {:induction false} DeclaredMapping(layout: Layout, i: nat, base: U64, key: string)
    requires WellFormed(layout) && i < |layout.storage| && layout.storage[i].slot == Print(base, 10)
    requires var ti := layout.TypeInfo(layout.storage[i]);
             ti.Some? && ti.value.encoding == "mapping" && ti.value.key == Some(key)
    ensures MappingAtBase(layout, base)
            == Some((layout.storage[i].name, if key in layout.types then layout.types[key].name else "uint256"))
  {
    var f := (e: StorageEntry) => MappingIn(layout, base, e);
    ParseU64OfPrint(base);
    OwnsBase(layout, layout.storage[i], base);
    forall j | 0 <= j < |layout.storage| && j != i ensures f(layout.storage[j]).None? {
      SoleOwner(layout, i, j, base);
    }
    OnlyHit(layout.storage, f, i);
  }

  lemma NoMappingDeclared(layout: Layout, base: U64)
    requires forall e :: e in layout.storage ==>
               BaseSlot(e) != Some(base) || layout.TypeInfo(e).None? || layout.TypeInfo(e).value.encoding != "mapping"
    ensures MappingAtBase(layout, base) == None
  {
  }

  /** A slot at which no entry begins has its cached name, if it has one, whatever it may lie inside of. */
  lemma {:induction false} CachedSlotName(layout: Option<Layout>, cache: map<Word, string>, slot: Word)
    requires slot in cache
    requires layout.Some? ==> forall e :: e in layout.value.storage ==> e.slot != Print(slot, 10)
    ensures SlotName(layout, cache, slot) == cache[slot]
  {
  }

  /** Without a layout every other slot has its synthetic name. */
  lemma {:induction false} UnlaidSlotName(cache: map<Word, string>, slot: Word)
    requires slot !in cache
    ensures SlotName(None, cache, slot) == "storage[" + Print(slot, 10) + "]"
  {
  }
}
