/**
 What `pb_decode` reads: the struct it leaves and the input it does not consume,
 as functions of the table, the struct before the call and the input.
 */
module Decode {
  import opened Wrappers
  import opened Varint
  import opened Scalars
  import opened Message
  import opened Encode

  // ---------- raw wire data ----------

  /** `pb_skip_varint`. */
  function SkipVarint(s: Bytes): (p: Parsed<()>)
    ensures p.Ok? ==> |p.rest| < |s|
  {
    match SplitVarint(s)
    case Fail => Fail
    case Ok(_, r) => Ok((), r)
  }

  /** `pb_read` of `n` bytes. */
  function ReadBytes(s: Bytes, n: nat): (p: Parsed<Bytes>)
    ensures p.Ok? ==> |p.value| == n && s == p.value + p.rest
  {
    if n > |s| then Fail else Ok(s[..n], s[n..])
  }

  /** A 32-bit length and the bytes it announces: `pb_make_string_substream` and `pb_close_string_substream`. */
  function ReadDelimited(s: Bytes): (p: Parsed<Bytes>)
    ensures p.Ok? ==> |p.value| + |p.rest| < |s|
  {
    match DecodeVarint32(s)
    case Fail => Fail
    case Ok(n, r) => ReadBytes(r, n)
  }

  /** `pb_skip_field`. */
  function SkipField(wireType: nat, s: Bytes): (p: Parsed<()>)
    ensures p.Ok? ==> |p.rest| < |s|
  {
    if wireType == WT_VARINT then SkipVarint(s)
    else if wireType == WT_64BIT then
      match ReadBytes(s, 8) case Fail => Fail case Ok(_, r) => Ok((), r)
    else if wireType == WT_STRING then
      match ReadDelimited(s) case Fail => Fail case Ok(_, r) => Ok((), r)
    else if wireType == WT_32BIT then
      match ReadBytes(s, 4) case Fail => Fail case Ok(_, r) => Ok((), r)
    else Fail
  }

  // ---------- scalars ----------

  /** `pb_dec_varint` after the varint: narrow fields are first cut to 32 bits, then the value must fit. */
  function CastSigned(value: nat, width: nat): Option<int>
    requires IsWidth(width)
  {
    var svalue := if width == 8 then Signed(value, 8) else Signed(value, 4);
    if Signed(svalue, width) == svalue then Some(svalue) else None
  }

  /** The bytes of a string up to its NUL. */
  function CString(s: Bytes): (c: Bytes)
    ensures c <= s && 0 !in c && (|c| < |s| ==> s[|c|] == 0)
  {
    if s == [] || s[0] == 0 then [] else [s[0]] + CString(s[1..])
  }

  /** The field decoders `pb_dec_*` other than the one for submessages. */
  function DecodeScalar(f: Field, s: Bytes): (p: Parsed<Value>)
    ensures p.Ok? ==> |p.rest| < |s|
  {
    match f.ltype
    case LBool => (
      match DecodeVarint32(s)
      case Fail => Fail
      case Ok(n, r) => Ok(BoolV(n != 0), r))
    case LVarint => (
      match DecodeVarint(s)
      case Fail => Fail
      case Ok(n, r) =>
        if IsWidth(f.dataSize) && CastSigned(n, f.dataSize).Some? then Ok(IntV(CastSigned(n, f.dataSize).value), r)
        else Fail)
    case LUVarint => (
      match DecodeVarint(s)
      case Fail => Fail
      case Ok(n, r) => if IsWidth(f.dataSize) && Unsigned(n, f.dataSize) == n then Ok(IntV(n), r) else Fail)
    case LSVarint => (
      match DecodeVarint(s)
      case Fail => Fail
      case Ok(n, r) =>
        if IsWidth(f.dataSize) && Signed(UnZigZag(n), f.dataSize) == UnZigZag(n) then Ok(IntV(UnZigZag(n)), r)
        else Fail)
    case LFixed32 => (
      match ReadBytes(s, 4)
      case Fail => Fail
      case Ok(b, r) => Ok(IntV(FromLittleEndian(b)), r))
    case LFixed64 => (
      match ReadBytes(s, 8)
      case Fail => Fail
      case Ok(b, r) => Ok(IntV(FromLittleEndian(b)), r))
    case LBytes => (
      match DecodeVarint32(s)
      case Fail => Fail
      case Ok(n, r) =>
        if n > PB_SIZE_MAX || n + BYTES_OFFSET > f.dataSize then Fail
        else match ReadBytes(r, n) case Fail => Fail case Ok(b, r') => Ok(BytesV(b), r'))
    case LString => (
      match DecodeVarint32(s)
      case Fail => Fail
      case Ok(n, r) =>
        if n + 1 > f.dataSize then Fail
        else match ReadBytes(r, n) case Fail => Fail case Ok(b, r') => Ok(BytesV(CString(b)), r'))
    case LFixedLengthBytes => (
      match DecodeVarint32(s)
      case Fail => Fail
      case Ok(n, r) =>
        if n > PB_SIZE_MAX then Fail
        else if n == 0 then Ok(BytesV(Zeros(f.dataSize)), r)
        else if n != f.dataSize then Fail
        else match ReadBytes(r, n) case Fail => Fail case Ok(b, r') => Ok(BytesV(b), r'))
    case _ => Fail
  }

  // ---------- fields ----------

  /** Stores an item at position `k` of an array. */
  function PutItem(items: seq<Value>, k: nat, v: Value): seq<Value>
  {
    if k < |items| then items[k := v] else items + [v]
  }

  /** The items of an array and the count of those received. */
  datatype Items = Items(items: seq<Value>, count: nat)

  /** The packed branch of `decode_static_field`, on the substream. */
  function DecodePacked(f: Field, a: Items, s: Bytes): Option<Items>
    decreases |s|
  {
    if s == [] then Some(a)
    else if a.count >= f.arraySize then None
    else
      match DecodeScalar(f, s)
      case Fail => None
      case Ok(v, r) => DecodePacked(f, Items(PutItem(a.items, a.count, v), a.count + 1), r)
  }

  /** A field decoder; `prior` is what the member holds, which a submessage is merged into. */
  function DecodeValue(f: Field, prior: Value, s: Bytes): (p: Parsed<Value>)
    ensures p.Ok? ==> |p.rest| < |s|
    decreases |s|, 0
  {
    if f.ltype.LSubmessage? then
      match ReadDelimited(s)
      case Fail => Fail
      case Ok(data, r) =>
        var start := if f.htype.Repeated? then DefaultMessage(f.sub) else if prior.MsgV? then prior.msg else [];
        match DecodeNoInit(f.sub, start, data)
        case Fail => Fail
        case Ok(m, _) => Ok(MsgV(m), r)
    else DecodeScalar(f, s)
  }

  /** The repeated branch of `decode_static_field`. */
  function DecodeItems(f: Field, wireType: nat, a: Items, s: Bytes): (p: Parsed<Items>)
    ensures p.Ok? ==> |p.rest| < |s|
    decreases |s|, 1
  {
    if wireType == WT_STRING && f.Packable() then
      match ReadDelimited(s)
      case Fail => Fail
      case Ok(data, r) =>
        match DecodePacked(f, a, data)
        case None => Fail
        case Some(a') => Ok(a', r)
    else if a.count >= f.arraySize then Fail
    else
      match DecodeValue(f, DefaultValue(f), s)
      case Fail => Fail
      case Ok(v, r) => Ok(Items(PutItem(a.items, a.count, v), a.count + 1), r)
  }

  /** The branches of `decode_static_field` for fields that are not repeated. */
  function DecodeSingle(f: Field, slot: Slot, s: Bytes): (p: Parsed<Slot>)
    ensures p.Ok? ==> |p.rest| < |s|
    decreases |s|, 1
  {
    var prior := if f.htype.Oneof? then DefaultValue(f) else if slot.Plain? || slot.Opt? then slot.v else BytesV([]);
    match DecodeValue(f, prior, s)
    case Fail => Fail
    case Ok(v, r) =>
      Ok(if f.htype.Oneof? then Active(f.tag, v) else if f.HasFlag() then Opt(true, v) else Plain(v), r)
  }

  /** The variables of `pb_decode_noinit`: the struct, the required fields seen, and the fixed count field in progress. */
  datatype State = State(msg: seq<Slot>, seen: set<nat>, fixedField: Option<nat>, fixedCount: nat)

  /** The fixed count field in progress, if any, has received all its items. */
  predicate FixedComplete(fields: seq<Field>, st: State)
  {
    st.fixedField.Some? ==> st.fixedField.value < |fields| && st.fixedCount == fields[st.fixedField.value].arraySize
  }

  /** The body of the record loop once field `i` is found. */
  function DecodeField(fields: seq<Field>, st: State, i: nat, wireType: nat, s: Bytes): (p: Parsed<State>)
    requires i < |fields|
    ensures p.Ok? ==> |p.rest| < |s|
    decreases |s|, 2
  {
    var f, k := fields[i], SlotOf(fields, i);
    if k >= |st.msg| then Fail
    else if f.FixedCount() then
      if st.fixedField != Some(i) && !FixedComplete(fields, st) then Fail
      else
        var count := if st.fixedField == Some(i) then st.fixedCount else 0;
        if !st.msg[k].Arr? then Fail
        else
          match DecodeItems(f, wireType, Items(st.msg[k].items, count), s)
          case Fail => Fail
          case Ok(a, r) => Ok(st.(msg := st.msg[k := Arr(a.items)], fixedField := Some(i), fixedCount := a.count), r)
    else if f.Counted() then
      if !st.msg[k].Arr? then Fail
      else
        match DecodeItems(f, wireType, Items(st.msg[k].items, |st.msg[k].items|), s)
        case Fail => Fail
        case Ok(a, r) => Ok(st.(msg := st.msg[k := Arr(a.items)]), r)
    else
      match DecodeSingle(f, st.msg[k], s)
      case Fail => Fail
      case Ok(slot, r) =>
        Ok(st.(msg := st.msg[k := slot], seen := if f.Required() then st.seen + {i} else st.seen), r)
  }

  /**
   The body of the record loop after the tag. On an empty table `pb_field_iter_find` meets
   the terminator, whose tag is 0 and whose type reads as a bool: tag 0 is "found" there.
   */
  function DecodeRecord(fields: seq<Field>, st: State, tag: nat, wireType: nat, s: Bytes): (p: Parsed<State>)
    ensures p.Ok? ==> |p.rest| < |s|
    decreases |s|, 3
  {
    var i := FindTag(fields, tag, 0);
    if i < |fields| then DecodeField(fields, st, i, wireType, s)
    else if fields == [] && tag == 0 then
      match DecodeVarint32(s) case Fail => Fail case Ok(_, r) => Ok(st, r)
    else
      match SkipField(wireType, s) case Fail => Fail case Ok(_, r) => Ok(st, r)
  }

  /** How the record loop ends: in an error, at the end of the input, or at a zero tag. */
  datatype Run = Failed | Ended(st: State) | Stopped(st: State, rest: Bytes)

  /** The record loop of `pb_decode_noinit`. */
  function DecodeRecords(fields: seq<Field>, st: State, s: Bytes): (run: Run)
    ensures run.Stopped? ==> |run.rest| < |s|
    decreases |s|, 4
  {
    if s == [] then Ended(st)
    else
      match DecodeVarint32(s)
      case Fail => Failed
      case Ok(key, r) =>
        if key == 0 then Stopped(st, r)
        else
          match DecodeRecord(fields, st, key / 8, key % 8, r)
          case Fail => Failed
          case Ok(st', r') => DecodeRecords(fields, st', r')
  }

  /** Field `i` is one of the first 64 required fields. */
  predicate Tracked(fields: seq<Field>, i: nat)
    requires i < |fields|
  {
    fields[i].Required() && RequiredIndex(fields, i) < PB_MAX_REQUIRED_FIELDS
  }

  /** The checks after the record loop. */
  predicate Complete(fields: seq<Field>, st: State)
  {
    FixedComplete(fields, st) && forall i | 0 <= i < |fields| && Tracked(fields, i) :: i in st.seen
  }

  function Start(m: seq<Slot>): State
  {
    State(m, {}, None, 0)
  }

  /** `pb_decode_noinit`. */
  function DecodeNoInit(fields: seq<Field>, m: seq<Slot>, s: Bytes): (p: Parsed<seq<Slot>>)
    ensures p.Ok? ==> |p.rest| <= |s|
    decreases |s|, 5
  {
    match DecodeRecords(fields, Start(m), s)
    case Failed => Fail
    case Ended(st) => if Complete(fields, st) then Ok(st.msg, []) else Fail
    case Stopped(st, r) => if Complete(fields, st) then Ok(st.msg, r) else Fail
  }

  /** `pb_decode`. */
  function DecodeMessage(fields: seq<Field>, s: Bytes): Parsed<seq<Slot>>
  {
    DecodeNoInit(fields, DefaultMessage(fields), s)
  }

  /** `pb_decode_delimited`: what the submessage does not consume is dropped. */
  function DecodeDelimited(fields: seq<Field>, s: Bytes): (p: Parsed<seq<Slot>>)
    ensures p.Ok? ==> |p.rest| < |s|
  {
    match ReadDelimited(s)
    case Fail => Fail
    case Ok(data, r) =>
      match DecodeMessage(fields, data)
      case Fail => Fail
      case Ok(m, _) => Ok(m, r)
  }
}
