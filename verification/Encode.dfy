/**
 What `pb_encode` writes: the bytes of a message as a function of the table and the struct.
 `None` is an error raised by the data itself; running out of room is the stream's business.
 */
module Encode {
  import opened Wrappers
  import opened Bits
  import opened Varint
  import opened Scalars
  import opened Message

  type Bytes = seq<Byte>

  const WT_VARINT: nat := 0
  const WT_64BIT: nat := 1
  const WT_STRING: nat := 2
  const WT_32BIT: nat := 5

  function WireType(l: LType): nat
  {
    match l
    case LBool => WT_VARINT
    case LVarint => WT_VARINT
    case LUVarint => WT_VARINT
    case LSVarint => WT_VARINT
    case LFixed32 => WT_32BIT
    case LFixed64 => WT_64BIT
    case _ => WT_STRING
  }

  /** `pb_encode_tag`. */
  function Tag(wireType: nat, tag: nat): (s: Bytes)
    ensures |s| >= 1
  {
    EncodeVarint(8 * tag + wireType)
  }

  /** `pb_encode_tag_for_field`. */
  function FieldTag(f: Field): (s: Bytes)
    ensures |s| >= 1
  {
    Tag(WireType(f.ltype), f.tag)
  }

  /** `pb_encode_string`: the size is cast to uint64. */
  function Delimited(s: Bytes): Bytes
  {
    EncodeVarint(|s| % U64) + s
  }

  function Concat(a: Option<Bytes>, b: Option<Bytes>): Option<Bytes>
  {
    if a.Some? && b.Some? then Some(a.value + b.value) else None
  }

  /** The field encoders `pb_enc_*` other than the one for submessages. */
  function EncodeScalar(f: Field, v: Value): Option<Bytes>
  {
    match (f.ltype, v)
    case (LBool, BoolV(b)) => Some(EncodeVarint(if b then 1 else 0))
    case (LVarint, IntV(i)) => if IsWidth(f.dataSize) then Some(EncodeVarint(Unsigned(i, 8))) else None
    case (LUVarint, IntV(i)) => if IsWidth(f.dataSize) then Some(EncodeVarint(Unsigned(i, 8))) else None
    case (LSVarint, IntV(i)) => if IsWidth(f.dataSize) then Some(EncodeVarint(ZigZag(i))) else None
    case (LFixed32, IntV(i)) => Some(LittleEndian(Unsigned(i, 4), 4))
    case (LFixed64, IntV(i)) => Some(LittleEndian(Unsigned(i, 8), 8))
    case (LBytes, BytesV(s)) => if |s| + BYTES_OFFSET > f.dataSize then None else Some(Delimited(s))
    case (LString, BytesV(s)) => Some(Delimited(s))
    case (LFixedLengthBytes, BytesV(s)) => Some(Delimited(s))
    case _ => None
  }

  /** A field encoder: the value without its tag. */
  function EncodeValue(f: Field, v: Value): Option<Bytes>
    decreases f, 0
  {
    if f.ltype.LSubmessage? then
      if !v.MsgV? then None
      else
        match EncodeMessage(f.sub, v.msg)
        case None => None
        case Some(s) => Some(Delimited(s))
    else EncodeScalar(f, v)
  }

  /** The data of a packed array. */
  function PackItems(f: Field, items: seq<Value>): Option<Bytes>
  {
    if items == [] then Some([]) else Concat(EncodeScalar(f, items[0]), PackItems(f, items[1..]))
  }

  /** One record an item. */
  function EncodeItems(f: Field, items: seq<Value>): Option<Bytes>
    decreases f, 1, items
  {
    if items == [] then Some([])
    else Concat(Concat(Some(FieldTag(f)), EncodeValue(f, items[0])), EncodeItems(f, items[1..]))
  }

  /** `encode_array`. */
  function EncodeArray(f: Field, items: seq<Value>): Option<Bytes>
    decreases f, 2
  {
    if items == [] then Some([])
    else if |items| > f.arraySize then None
    else if f.Packable() then
      match PackItems(f, items)
      case None => None
      case Some(s) => Some(Tag(WT_STRING, f.tag) + Delimited(s))
    else EncodeItems(f, items)
  }

  /** `pb_check_proto3_default_value` on the value of a proto3 field. */
  predicate IsProto3Zero(f: Field, v: Value)
    decreases f, 0
  {
    match f.ltype
    case LBytes => v.BytesV? && v.bytes == []
    case LString => v.BytesV? && v.bytes == []
    case LFixedLengthBytes => f.dataSize == 0
    case LSubmessage => v.MsgV? && AllProto3Default(f.sub, v.msg, 0)
    case _ => v == ZeroValue(f)
  }

  /** `pb_check_proto3_default_value`. */
  predicate IsProto3Default(f: Field, slot: Slot)
    decreases f, 1
  {
    match f.htype
    case Required => false
    case Repeated => f.sizeOffset != 0 && slot.Arr? && slot.items == []
    case Oneof => slot.Unset?
    case Optional =>
      if f.sizeOffset != 0 then slot.Opt? && !slot.has else slot.Plain? && IsProto3Zero(f, slot.v)
  }

  /** The check on the fields of a submessage from `k` on. */
  predicate AllProto3Default(fields: seq<Field>, m: seq<Slot>, k: nat)
    requires k <= |fields|
    decreases fields, |fields| - k
  {
    k == |fields| ||
    (SlotOf(fields, k) < |m| && IsProto3Default(fields[k], m[SlotOf(fields, k)]) && AllProto3Default(fields, m, k + 1))
  }

  /** Whether `encode_basic_field` writes a record for a field that is not repeated. */
  predicate Present(f: Field, slot: Slot)
  {
    match slot
    case Plain(v) => f.Required() || (f.Singular() && !IsProto3Zero(f, v))
    case Opt(has, _) => f.HasFlag() && has
    case Active(which, _) => f.htype.Oneof? && which == f.tag
    case _ => false
  }

  /** `encode_basic_field`. */
  function EncodeField(f: Field, slot: Slot): Option<Bytes>
    decreases f, 3
  {
    if slot.Arr? then EncodeArray(f, slot.items)
    else if Present(f, slot) then Concat(Some(FieldTag(f)), EncodeValue(f, slot.v))
    else Some([])
  }

  /** The fields from `k` on. */
  function EncodeFrom(fields: seq<Field>, m: seq<Slot>, k: nat): Option<Bytes>
    requires k <= |fields|
    decreases fields, |fields| - k
  {
    if k == |fields| then Some([])
    else if SlotOf(fields, k) >= |m| then None
    else Concat(EncodeField(fields[k], m[SlotOf(fields, k)]), EncodeFrom(fields, m, k + 1))
  }

  /** `pb_encode`. */
  function EncodeMessage(fields: seq<Field>, m: seq<Slot>): Option<Bytes>
    decreases fields, |fields| + 1
  {
    EncodeFrom(fields, m, 0)
  }

  /** `pb_encode_delimited`. */
  function EncodeDelimited(fields: seq<Field>, m: seq<Slot>): Option<Bytes>
  {
    match EncodeMessage(fields, m)
    case None => None
    case Some(s) => Some(Delimited(s))
  }

  /** `pb_encode_nullterminated`. */
  function EncodeNullTerminated(fields: seq<Field>, m: seq<Slot>): Option<Bytes>
  {
    Concat(EncodeMessage(fields, m), Some([0]))
  }
}
