/**
 Descriptor tables (`pb_field_t` of pb.h) and the structs they describe.
 A struct is a sequence of typed slots, one per member; the members of one oneof
 share a slot, as they share a union in C.
 */
module Message {
  import opened Wrappers
  import opened Bits
  import opened Scalars

  /** The width of `pb_size_t`: 1, 2 or 4 bytes, chosen when the library is built. */
  type SizeWidth = w: nat | w == 1 || w == 2 || w == 4 witness 1

  const PB_SIZE_WIDTH: SizeWidth

  const PB_SIZE_MAX: nat := Range(PB_SIZE_WIDTH) - 1

  /** `offsetof(pb_bytes_array_t, bytes)`: the size member comes first. */
  const BYTES_OFFSET: nat := PB_SIZE_WIDTH

  const PB_MAX_REQUIRED_FIELDS: nat := 64

  /**
   The contents of one member. Fixed-size fields hold their raw bits; a string is the bytes
   before its NUL. Of memory that was never set, nothing is known: it is indeterminate.
   */
  datatype Value =
    | BoolV(b: bool)
    | IntV(i: int)
    | BytesV(bytes: seq<Byte>)
    | MsgV(msg: seq<Slot>)
    | Indeterminate

  /** A struct member, with the `has_`, `_count` or `which_` member that goes with it. */
  datatype Slot =
    | Plain(v: Value)
    | Opt(has: bool, v: Value)
    | Arr(items: seq<Value>)
    | Unset
    | Active(which: nat, v: Value)

  datatype HType = Required | Optional | Repeated | Oneof

  datatype AType = Static | Pointer | Callback

  datatype LType =
    | LBool | LVarint | LUVarint | LSVarint | LFixed32 | LFixed64
    | LBytes | LString | LSubmessage | LExtension | LFixedLengthBytes

  /** `pb_field_t`; its `ptr` is `sub` for a submessage and `initial`, a default value, for other fields. */
  datatype Field = Field(
    tag: nat,
    atype: AType,
    htype: HType,
    ltype: LType,
    dataOffset: nat,
    sizeOffset: int,
    dataSize: nat,
    arraySize: nat,
    sub: seq<Field>,
    initial: Option<Value>)
  {
    predicate Required()
    {
      htype.Required?
    }

    /** An optional field with a `has_` member. */
    predicate HasFlag()
    {
      htype.Optional? && sizeOffset != 0
    }

    /** A proto3 field: optional, without a `has_` member. */
    predicate Singular()
    {
      htype.Optional? && sizeOffset == 0
    }

    /** A repeated field with a `_count` member. */
    predicate Counted()
    {
      htype.Repeated? && sizeOffset != 0
    }

    /** A repeated field that always holds `arraySize` items. */
    predicate FixedCount()
    {
      htype.Repeated? && sizeOffset == 0
    }

    /** `PB_LTYPE(type) <= PB_LTYPE_LAST_PACKABLE` */
    predicate Packable()
    {
      ltype in {LBool, LVarint, LUVarint, LSVarint, LFixed32, LFixed64}
    }
  }

  // ---------- where a field lives ----------

  /** Field `k` lies in the same union as the field before it. */
  predicate SharesUnion(fields: seq<Field>, k: nat)
    requires k < |fields|
  {
    k > 0 && fields[k - 1].htype.Oneof? && fields[k].htype.Oneof? && fields[k].dataOffset == PB_SIZE_MAX
  }

  /** The slot of field `k`. */
  function SlotOf(fields: seq<Field>, k: nat): nat
    requires k < |fields|
  {
    if k == 0 then 0
    else SlotOf(fields, k - 1) + if SharesUnion(fields, k) then 0 else 1
  }

  function SlotCount(fields: seq<Field>): nat
  {
    if fields == [] then 0 else SlotOf(fields, |fields| - 1) + 1
  }

  lemma {:induction false} SlotMonotonic(fields: seq<Field>, i: nat, j: nat)
    requires i <= j < |fields|
    ensures SlotOf(fields, i) <= SlotOf(fields, j)
    decreases j
  {
    if i < j { SlotMonotonic(fields, i, j - 1); }
  }

  lemma SlotInRange(fields: seq<Field>, i: nat)
    requires i < |fields|
    ensures SlotOf(fields, i) < SlotCount(fields)
  {
    SlotMonotonic(fields, i, |fields| - 1);
  }

  /** Only members of one oneof share a slot. */
  lemma SharedSlot(fields: seq<Field>, i: nat, j: nat)
    requires i < j < |fields| && SlotOf(fields, i) == SlotOf(fields, j)
    ensures fields[i].htype.Oneof? && fields[j].htype.Oneof?
  {
    SlotMonotonic(fields, i, i + 1);
    SlotMonotonic(fields, i + 1, j);
    SlotMonotonic(fields, i, j - 1);
  }

  /** `iter.required_field_index` at field `k`: the required fields before it. */
  function RequiredIndex(fields: seq<Field>, k: nat): nat
    requires k <= |fields|
  {
    if k == 0 then 0
    else RequiredIndex(fields, k - 1) + if fields[k - 1].Required() then 1 else 0
  }

  /** The first field at or after `k` with this tag; `|fields|` if there is none. */
  function FindTag(fields: seq<Field>, tag: nat, k: nat): (i: nat)
    requires k <= |fields|
    ensures k <= i <= |fields|
    ensures i < |fields| ==> fields[i].tag == tag
    ensures forall j | k <= j < i :: fields[j].tag != tag
    decreases |fields| - k
  {
    if k == |fields| || fields[k].tag == tag then k else FindTag(fields, tag, k + 1)
  }

  // ---------- well-formed tables ----------

  predicate FieldOk(f: Field)
    decreases f, 0
  {
    && 1 <= f.tag < 0x2000_0000 && f.atype.Static? && !f.ltype.LExtension?
    && f.dataSize <= PB_SIZE_MAX && f.arraySize <= PB_SIZE_MAX
    && (f.ltype in {LVarint, LUVarint, LSVarint} ==> IsWidth(f.dataSize))
    && (f.ltype.LBytes? ==> BYTES_OFFSET <= f.dataSize)
    && (f.ltype.LString? ==> 1 <= f.dataSize)
    && (f.ltype.LSubmessage? ==> TableOk(f.sub))
    && (f.initial.Some? ==>
          (f.Required() || f.HasFlag()) && !f.ltype.LSubmessage? && ScalarKept(f, f.initial.value))
  }

  /** Tags are distinct, and every field is one the generator can write. */
  predicate TableOk(fields: seq<Field>)
    decreases fields, 1
  {
    && (forall i | 0 <= i < |fields| :: FieldOk(fields[i]))
    && (forall i, j | 0 <= i < j < |fields| :: fields[i].tag != fields[j].tag)
  }

  // ---------- structs that match a table ----------

  /** The value has the C type of the field; a string may fill its buffer without a NUL, a bytes size may be too large. */
  predicate ScalarTyped(f: Field, v: Value)
  {
    match f.ltype
    case LBool => v.BoolV?
    case LVarint => v.IntV? && (IsWidth(f.dataSize) ==> FitsSigned(v.i, f.dataSize))
    case LSVarint => v.IntV? && (IsWidth(f.dataSize) ==> FitsSigned(v.i, f.dataSize))
    case LUVarint => v.IntV? && (IsWidth(f.dataSize) ==> FitsUnsigned(v.i, f.dataSize))
    case LFixed32 => v.IntV? && FitsUnsigned(v.i, 4)
    case LFixed64 => v.IntV? && FitsUnsigned(v.i, 8)
    case LBytes => v.BytesV?
    case LString => v.BytesV? && 0 !in v.bytes && |v.bytes| <= f.dataSize
    case LFixedLengthBytes => v.BytesV? && |v.bytes| == f.dataSize
    case LSubmessage => v.MsgV?
    case LExtension => false
  }

  /** Moreover a string is terminated within its buffer and bytes lie within theirs. */
  predicate ScalarKept(f: Field, v: Value)
  {
    && ScalarTyped(f, v)
    && (f.ltype.LString? ==> |v.bytes| < f.dataSize)
    && (f.ltype.LBytes? ==> |v.bytes| + BYTES_OFFSET <= f.dataSize)
  }

  predicate ValueTyped(f: Field, v: Value)
    decreases f, 0
  {
    ScalarTyped(f, v) && (f.ltype.LSubmessage? ==> MessageTyped(f.sub, v.msg))
  }

  predicate SlotTyped(f: Field, slot: Slot)
    decreases f, 1
  {
    match f.htype
    case Required => slot.Plain? && ValueTyped(f, slot.v)
    case Optional => if f.sizeOffset != 0 then slot.Opt? && (slot.has ==> ValueTyped(f, slot.v)) else slot.Plain? && ValueTyped(f, slot.v)
    case Repeated =>
      && slot.Arr?
      && (f.FixedCount() ==> |slot.items| == f.arraySize)
      && (forall i | 0 <= i < |slot.items| :: ValueTyped(f, slot.items[i]))
    case Oneof => slot.Unset? || (slot.Active? && slot.which != 0 && (slot.which == f.tag ==> ValueTyped(f, slot.v)))
  }

  /** The struct `m` has the members the table describes. */
  predicate MessageTyped(fields: seq<Field>, m: seq<Slot>)
    decreases fields, 2
  {
    && |m| == SlotCount(fields)
    && forall i | 0 <= i < |fields| :: SlotOf(fields, i) < |m| && SlotTyped(fields[i], m[SlotOf(fields, i)])
  }

  // ---------- default values: pb_field_set_to_default, pb_message_set_to_defaults ----------

  function Zeros(n: nat): (s: seq<Byte>)
    ensures |s| == n && forall i | 0 <= i < n :: s[i] == 0
  {
    seq(n, _ => 0)
  }

  /** All bytes zero. */
  function ZeroValue(f: Field): Value
  {
    match f.ltype
    case LBool => BoolV(false)
    case LBytes => BytesV([])
    case LString => BytesV([])
    case LFixedLengthBytes => BytesV(Zeros(f.dataSize))
    case _ => IntV(0)
  }

  function DefaultValue(f: Field): Value
    decreases f, 0
  {
    if f.ltype.LSubmessage? then MsgV(DefaultMessage(f.sub))
    else if f.initial.Some? then f.initial.value
    else ZeroValue(f)
  }

  /** The items of a fixed array are not set; the zero count is written over the first of them. */
  function DefaultSlot(f: Field): Slot
    decreases f, 1
  {
    match f.htype
    case Required => Plain(DefaultValue(f))
    case Optional => if f.sizeOffset != 0 then Opt(false, DefaultValue(f)) else Plain(DefaultValue(f))
    case Repeated => if f.sizeOffset != 0 then Arr([]) else Arr(seq(f.arraySize, _ => Indeterminate))
    case Oneof => Unset
  }

  /** The slots of the fields from `k` on. */
  function DefaultSlots(fields: seq<Field>, k: nat): seq<Slot>
    requires k <= |fields|
    decreases fields, |fields| - k
  {
    if k == |fields| then []
    else (if SharesUnion(fields, k) then [] else [DefaultSlot(fields[k])]) + DefaultSlots(fields, k + 1)
  }

  function DefaultMessage(fields: seq<Field>): seq<Slot>
    decreases fields, |fields| + 1
  {
    DefaultSlots(fields, 0)
  }
}
