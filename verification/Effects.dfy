/**
 What a decoder call does to the struct and to the stream when it fails as well as when it succeeds:
 the struct it leaves, and how far cursor and bytes left come apart. Both follow the records up to the
 one that fails, and into it, down through submessages.
 */
module Effects {
  import opened Wrappers
  import opened Bits
  import opened Varint
  import opened Message
  import opened Encode
  import opened Decode
  import opened RoundTrip

  // ---------- where a scalar decoder stops ----------

  /** The bytes `pb_decode_varint32_eof` leaves unread when `i` bytes have been read and no error was found. */
  function Stop32From(s: Bytes, i: nat): nat
    requires i <= |s|
    decreases |s| - i
  {
    if i == |s| then 0
    else if !Step32Ok(s, i) || s[i] < 128 then |s| - i - 1
    else Stop32From(s, i + 1)
  }

  /** The bytes `pb_decode_varint` leaves unread: it takes ten bytes at most. */
  function Stop64(s: Bytes): nat
  {
    match DecodeVarint(s)
    case Ok(_, r) => |r|
    case Fail => if |s| >= 10 then |s| - 10 else 0
  }

  /** The bytes a packable scalar decoder leaves unread, accepted or not. */
  function ScalarStop(f: Field, s: Bytes): nat
    requires f.Packable()
  {
    match f.ltype
    case LBool => Stop32From(s, 0)
    case LFixed32 => if |s| < 4 then |s| else |s| - 4
    case LFixed64 => if |s| < 8 then |s| else |s| - 8
    case _ => Stop64(s)
  }

  /** Where a varint ends. */
  lemma {:induction false} LastByte(g: Bytes, i: nat)
    requires IsVarint(g) && i < |g|
    ensures g[i] < 128 <==> i == |g| - 1
  {
    if i > 0 { LastByte(g[1..], i - 1); }
  }

  lemma {:induction false} StopBehind(g: Bytes, r: Bytes, i: nat)
    requires IsVarint(g) && i < |g| && forall j | 0 <= j < |g| :: Step32Ok(g, j)
    ensures Stop32From(g + r, i) == |r|
    decreases |g| - i
  {
    hide Acc32, IsVarint;
    LastByte(g, i);
    assert (g + r)[..i] == g[..i] && (g + r)[i] == g[i];
    assert Step32Ok(g, i) && Step32Ok(g + r, i);
    if i < |g| - 1 { StopBehind(g, r, i + 1); }
  }

  /** When the scalar is accepted, that is what the parse leaves. */
  lemma ScalarStopIsRest(f: Field, s: Bytes)
    requires f.Packable() && DecodeScalar(f, s).Ok?
    ensures ScalarStop(f, s) == |DecodeScalar(f, s).rest|
  {
    hide Acc32, IsVarint, DecodeVarint;
    if f.ltype.LBool? {
      var Ok(g, r) := SplitVarint(s);
      NotEmpty(g);
      StopBehind(g, r, 0);
    }
  }

  lemma NotEmpty(g: Bytes)
    requires IsVarint(g)
    ensures |g| > 0
  {
  }

  /** An overflow stops the 32-bit loop at once: at the sixth byte of `80 80 80 80 80 81`, whatever follows. */
  lemma StopsAtOverflow(s: Bytes)
    ensures Stop32From([0x80, 0x80, 0x80, 0x80, 0x80, 0x81] + s, 0) == |s|
  {
    hide Acc32, Stop32From;
    var g: Bytes, all := [0x80, 0x80, 0x80, 0x80, 0x80], [0x80, 0x80, 0x80, 0x80, 0x80, 0x81] + s;
    ZeroGroups(g);
    Acc32IsMod(g);
    assert all[..5] == g;
    assert !Step32Ok(all, 5);
    Stop32Next(all, 5);
    Stop32Next(all, 4);
    Stop32Next(all, 3);
    Stop32Next(all, 2);
    Stop32Next(all, 1);
    Stop32Next(all, 0);
  }

  lemma Stop32Next(s: Bytes, i: nat)
    requires i < |s|
    ensures Stop32From(s, i) == if !Step32Ok(s, i) || s[i] < 128 then |s| - i - 1 else Stop32From(s, i + 1)
    ensures i < 5 ==> Step32Ok(s, i)
  {
  }

  /** Ten bytes without an end stop the 64-bit loop, fewer only at the end of the data. */
  lemma StopsAtTen(g: Bytes, s: Bytes)
    requires |g| <= 10 && forall i | 0 <= i < |g| :: g[i] >= 128
    ensures |g| == 10 ==> Stop64(g + s) == |s|
    ensures |g| < 10 ==> Stop64(g) == 0
  {
    hide SplitVarint, IsVarint, Groups;
    EndsBehind(g, s);
    EndsBehind(g, []);
    assert g + [] == g;
  }

  lemma EndsBehind(g: Bytes, s: Bytes)
    requires forall i | 0 <= i < |g| :: g[i] >= 128
    ensures SplitVarint(g + s).Ok? ==> |g| < |SplitVarint(g + s).value| <= |g + s|
  {
    hide SplitVarint;
    if SplitVarint(g + s).Ok? {
      var h := SplitVarint(g + s).value;
      NotEmpty(h);
      assert h[|h| - 1] == (g + s)[|h| - 1];
      LastByte(h, |h| - 1);
    }
  }

  // ---------- packed arrays ----------

  /** The bytes the packed loop leaves in its substream. */
  function PackedStop(f: Field, a: Items, s: Bytes): nat
    requires f.Packable()
    decreases |s|
  {
    if s == [] then 0
    else if a.count >= f.arraySize then |s|
    else
      match DecodeScalar(f, s)
      case Fail => ScalarStop(f, s)
      case Ok(v, r) => PackedStop(f, Items(PutItem(a.items, a.count, v), a.count + 1), r)
  }

  /** The items the packed loop leaves; an item that fails may have been written, if there is one. */
  function WrittenPacked(f: Field, a: Items, s: Bytes): Items
    decreases |s|
  {
    if s == [] || a.count >= f.arraySize then a
    else
      match DecodeScalar(f, s)
      case Fail => if a.count < |a.items| then Items(a.items[a.count := Indeterminate], a.count) else a
      case Ok(v, r) => WrittenPacked(f, Items(PutItem(a.items, a.count, v), a.count + 1), r)
  }

  /** "array overflow" with data left over comes before the close, so the parent's cursor stays in front of the data. */
  function LostPacked(f: Field, a: Items, s: Bytes): nat
    requires f.Packable()
  {
    match ReadDelimited(s)
    case Fail => 0
    case Ok(data, _) => if PackedStop(f, a, data) > 0 then |data| else 0
  }

  // ---------- the bytes by which the cursor falls behind ----------

  /** The struct a submessage is decoded into. */
  function SubmessageStart(f: Field, prior: Value): seq<Slot>
  {
    if f.htype.Repeated? then DefaultMessage(f.sub) else if prior.MsgV? then prior.msg else []
  }

  /** What a field that is not repeated is decoded into. */
  function Prior(f: Field, slot: Slot): Value
  {
    if f.htype.Oneof? then DefaultValue(f) else if slot.Plain? || slot.Opt? then slot.v else BytesV([])
  }

  /** The items of a repeated field and their count, before a record of field `i`. */
  function Before(fields: seq<Field>, st: State, i: nat): Items
    requires i < |fields| && SlotOf(fields, i) < |st.msg| && st.msg[SlotOf(fields, i)].Arr?
  {
    var items := st.msg[SlotOf(fields, i)].items;
    Items(items, if fields[i].Counted() then |items| else if st.fixedField == Some(i) then st.fixedCount else 0)
  }

  /** The record of field `i` gets as far as its decoder. */
  predicate Starts(fields: seq<Field>, st: State, i: nat)
    requires i < |fields|
  {
    var k := SlotOf(fields, i);
    && k < |st.msg|
    && (fields[i].htype.Repeated? ==> st.msg[k].Arr?)
    && (fields[i].FixedCount() ==> st.fixedField == Some(i) || FixedComplete(fields, st))
  }

  function LostValue(f: Field, prior: Value, s: Bytes): nat
    decreases |s|, 0
  {
    if !f.ltype.LSubmessage? then 0
    else
      match ReadDelimited(s)
      case Fail => 0
      case Ok(data, _) => LostRun(f.sub, Start(SubmessageStart(f, prior)), data)
  }

  function LostItems(f: Field, wireType: nat, a: Items, s: Bytes): nat
    decreases |s|, 1
  {
    if wireType == WT_STRING && f.Packable() then LostPacked(f, a, s)
    else if a.count >= f.arraySize then 0
    else LostValue(f, DefaultValue(f), s)
  }

  function LostField(fields: seq<Field>, st: State, i: nat, wireType: nat, s: Bytes): nat
    requires i < |fields|
    decreases |s|, 2
  {
    if !Starts(fields, st, i) then 0
    else if fields[i].htype.Repeated? then LostItems(fields[i], wireType, Before(fields, st, i), s)
    else LostValue(fields[i], Prior(fields[i], st.msg[SlotOf(fields, i)]), s)
  }

  function LostRecord(fields: seq<Field>, st: State, tag: nat, wireType: nat, s: Bytes): nat
    decreases |s|, 3
  {
    var i := FindTag(fields, tag, 0);
    if i < |fields| then LostField(fields, st, i, wireType, s) else 0
  }

  /** How far the cursor falls behind in a run: what the record that fails loses. */
  function LostRun(fields: seq<Field>, st: State, s: Bytes): nat
    decreases |s|, 4
  {
    if s == [] then 0
    else
      match DecodeVarint32(s)
      case Fail => 0
      case Ok(key, r) =>
        if key == 0 then 0
        else
          match DecodeRecord(fields, st, key / 8, key % 8, r)
          case Fail => LostRecord(fields, st, key / 8, key % 8, r)
          case Ok(st', r') => LostRun(fields, st', r')
  }

  function LostDelimited(fields: seq<Field>, s: Bytes): nat
  {
    match ReadDelimited(s)
    case Fail => 0
    case Ok(data, _) => LostRun(fields, Start(DefaultMessage(fields)), data)
  }

  // ---------- the struct that is left ----------

  /**
   The member behind a field decoder. A scalar that fails may have been written or not; a submessage
   without a length has not been touched, and a new item without one was never set.
   */
  function WrittenValue(f: Field, prior: Value, s: Bytes): Value
    decreases |s|, 0
  {
    if f.ltype.LSubmessage? then
      match ReadDelimited(s)
      case Fail => if f.htype.Repeated? then Indeterminate else prior
      case Ok(data, _) => MsgV(WrittenRun(f.sub, Start(SubmessageStart(f, prior)), data))
    else
      match DecodeScalar(f, s)
      case Fail => Indeterminate
      case Ok(v, _) => v
  }

  /** A full array refuses an item after its count, a `pb_size_t`, has gone up: past its maximum it wraps to 0. */
  function Refused(f: Field, a: Items): Items
  {
    var count := (a.count + 1) % (PB_SIZE_MAX + 1);
    Items(if f.FixedCount() then a.items else if count <= |a.items| then a.items[..count] else a.items + [Indeterminate], count)
  }

  /** The repeated branch of `decode_static_field`; the count goes up before the item is read. */
  function WrittenItems(f: Field, wireType: nat, a: Items, s: Bytes): Items
    decreases |s|, 1
  {
    if wireType == WT_STRING && f.Packable() then
      match ReadDelimited(s)
      case Fail => a
      case Ok(data, _) => WrittenPacked(f, a, data)
    else if a.count >= f.arraySize then Refused(f, a)
    else Items(PutItem(a.items, a.count, WrittenValue(f, DefaultValue(f), s)), a.count + 1)
  }

  /** The other branches; flag and `which` are set before the value is read. */
  function WrittenSlot(f: Field, slot: Slot, s: Bytes): Slot
    decreases |s|, 1
  {
    var v := WrittenValue(f, Prior(f, slot), s);
    if f.htype.Oneof? then Active(f.tag, v) else if f.HasFlag() then Opt(true, v) else Plain(v)
  }

  function WrittenField(fields: seq<Field>, st: State, i: nat, wireType: nat, s: Bytes): seq<Slot>
    requires i < |fields|
    decreases |s|, 2
  {
    var f, k := fields[i], SlotOf(fields, i);
    if !Starts(fields, st, i) then st.msg
    else if f.htype.Repeated? then st.msg[k := Arr(WrittenItems(f, wireType, Before(fields, st, i), s).items)]
    else st.msg[k := WrittenSlot(f, st.msg[k], s)]
  }

  function WrittenRecord(fields: seq<Field>, st: State, tag: nat, wireType: nat, s: Bytes): seq<Slot>
    decreases |s|, 3
  {
    var i := FindTag(fields, tag, 0);
    if i < |fields| then WrittenField(fields, st, i, wireType, s) else st.msg
  }

  /** The struct behind a run: all records in front of the one that fails, and what that one has written. */
  function WrittenRun(fields: seq<Field>, st: State, s: Bytes): seq<Slot>
    decreases |s|, 4
  {
    if s == [] then st.msg
    else
      match DecodeVarint32(s)
      case Fail => st.msg
      case Ok(key, r) =>
        if key == 0 then st.msg
        else
          match DecodeRecord(fields, st, key / 8, key % 8, r)
          case Fail => WrittenRecord(fields, st, key / 8, key % 8, r)
          case Ok(st', r') => WrittenRun(fields, st', r')
  }

  function WrittenDelimited(fields: seq<Field>, dest: seq<Slot>, s: Bytes): seq<Slot>
  {
    match ReadDelimited(s)
    case Fail => dest
    case Ok(data, _) => WrittenRun(fields, Start(DefaultMessage(fields)), data)
  }

  // ---------- calls that succeed ----------

  /** A run that does not fail loses nothing, and leaves the struct of its last state. */
  lemma {:induction false} SuccessfulRun(fields: seq<Field>, st: State, s: Bytes)
    requires !DecodeRecords(fields, st, s).Failed?
    ensures LostRun(fields, st, s) == 0 && WrittenRun(fields, st, s) == DecodeRecords(fields, st, s).st.msg
    decreases |s|
  {
    hide DecodeRecord, DecodeVarint32, LostRecord, WrittenRecord;
    if s != [] && DecodeVarint32(s).value != 0 {
      var Ok(key, r) := DecodeVarint32(s);
      var Ok(st', r') := DecodeRecord(fields, st, key / 8, key % 8, r);
      SuccessfulRun(fields, st', r');
    }
  }

  /** A packed array with data left over is an error. */
  lemma {:induction false} LeftOverFails(f: Field, a: Items, s: Bytes)
    requires f.Packable() && PackedStop(f, a, s) > 0
    ensures DecodePacked(f, a, s).None?
    decreases |s|
  {
    hide DecodeScalar, ScalarStop;
    if a.count < f.arraySize && DecodeScalar(f, s).Ok? {
      var Ok(v, r) := DecodeScalar(f, s);
      LeftOverFails(f, Items(PutItem(a.items, a.count, v), a.count + 1), r);
    }
  }

  // ---------- without packed arrays ----------

  /** The field is not one of those whose packed form can leave a substream open. */
  predicate NoPackedField(f: Field)
    decreases f, 0
  {
    !(f.htype.Repeated? && f.Packable()) && (f.ltype.LSubmessage? ==> NoPackedArrays(f.sub))
  }

  predicate NoPackedArrays(fields: seq<Field>)
    decreases fields, 1
  {
    forall i | 0 <= i < |fields| :: NoPackedField(fields[i])
  }

  lemma LostNoValue(f: Field, prior: Value, s: Bytes)
    requires f.ltype.LSubmessage? ==> NoPackedArrays(f.sub)
    ensures LostValue(f, prior, s) == 0
    decreases |s|, 0, 0
  {
    hide ReadDelimited, NoPackedArrays;
    if f.ltype.LSubmessage? && ReadDelimited(s).Ok? {
      LostNothing(f.sub, Start(SubmessageStart(f, prior)), ReadDelimited(s).value);
    }
  }

  lemma LostNoField(fields: seq<Field>, st: State, i: nat, wireType: nat, s: Bytes)
    requires i < |fields| && NoPackedField(fields[i])
    ensures LostField(fields, st, i, wireType, s) == 0
    decreases |s|, 0, 1
  {
    hide LostValue, NoPackedArrays, DefaultValue, Prior;
    var f := fields[i];
    if Starts(fields, st, i) {
      if f.htype.Repeated? {
        LostNoValue(f, DefaultValue(f), s);
      } else {
        LostNoValue(f, Prior(f, st.msg[SlotOf(fields, i)]), s);
      }
    }
  }

  /** Then the cursor never falls behind, whatever fails. */
  lemma {:induction false} LostNothing(fields: seq<Field>, st: State, s: Bytes)
    requires NoPackedArrays(fields)
    ensures LostRun(fields, st, s) == 0
    decreases |s|, 1
  {
    hide DecodeRecord, DecodeVarint32, LostField, NoPackedArrays;
    if s != [] && DecodeVarint32(s).Ok? {
      var Ok(key, r) := DecodeVarint32(s);
      if DecodeRecord(fields, st, key / 8, key % 8, r).Ok? {
        var Ok(st', r') := DecodeRecord(fields, st, key / 8, key % 8, r);
        LostNothing(fields, st', r');
      } else {
        var i := FindTag(fields, key / 8, 0);
        if i < |fields| {
          NoPackedAt(fields, i);
          LostNoField(fields, st, i, key % 8, r);
        }
      }
    }
  }

  lemma NoPackedAt(fields: seq<Field>, i: nat)
    requires NoPackedArrays(fields) && i < |fields|
    ensures NoPackedField(fields[i])
  {
  }

  // ---------- arrays, even on failure ----------

  /** `a'` still has the items of `a`, and no more items than both had or the capacity allows; those past it are untouched. */
  predicate Grown(f: Field, a: Items, a': Items)
  {
    a.count <= |a.items| ==>
      && a.count <= a'.count && |a.items| <= |a'.items|
      && a'.items[..a.count] == a.items[..a.count]
      && (forall j | f.arraySize <= j < |a'.items| :: j < |a.items| && a'.items[j] == a.items[j])
      && |a'.items| <= if |a.items| < f.arraySize then f.arraySize else |a.items|
  }

  lemma {:induction false} PackedGrows(f: Field, a: Items, a': Items, s: Bytes)
    requires Grown(f, a, a')
    ensures Grown(f, a, WrittenPacked(f, a', s))
    decreases |s|
  {
    hide DecodeScalar;
    if s != [] && a'.count < f.arraySize && DecodeScalar(f, s).Ok? {
      var Ok(v, r) := DecodeScalar(f, s);
      PackedGrows(f, a, Items(PutItem(a'.items, a'.count, v), a'.count + 1), r);
    }
  }

  /** The item comes when the array is full, in a record of its own. */
  predicate Refuses(f: Field, wireType: nat, a: Items)
  {
    !(wireType == WT_STRING && f.Packable()) && a.count >= f.arraySize
  }

  /** Whatever arrives, items received before stay and none is stored past the capacity, unless an item is refused. */
  lemma ItemsGrow(f: Field, wireType: nat, a: Items, s: Bytes)
    requires !Refuses(f, wireType, a)
    ensures Grown(f, a, WrittenItems(f, wireType, a, s))
  {
    hide ReadDelimited, WrittenValue, WrittenPacked, DefaultValue;
    if wireType == WT_STRING && f.Packable() && ReadDelimited(s).Ok? {
      PackedGrows(f, a, a, ReadDelimited(s).value);
    }
  }

  /**
   A full array that refuses an item keeps the others exactly if its capacity is less than the maximum of
   `pb_size_t`, the count then being one too high; at the maximum the count wraps and the array is left empty.
   */
  lemma RefusedItems(f: Field, items: seq<Value>)
    requires f.Counted() && |items| == f.arraySize <= PB_SIZE_MAX
    ensures var a' := Refused(f, Items(items, |items|));
            if f.arraySize < PB_SIZE_MAX then a' == Items(items + [Indeterminate], |items| + 1) else a' == Items([], 0)
  {
  }

  /** A scalar that cannot be read leaves its member marked as set, with an unknown value. */
  lemma FlagComesFirst(f: Field, slot: Slot, s: Bytes)
    requires !f.htype.Repeated? && !f.ltype.LSubmessage? && DecodeScalar(f, s).Fail?
    ensures WrittenSlot(f, slot, s)
         == if f.htype.Oneof? then Active(f.tag, Indeterminate)
            else if f.htype.Optional? && f.sizeOffset != 0 then Opt(true, Indeterminate)
            else Plain(Indeterminate)
  {
    hide DecodeScalar;
  }

  /** A required or optional submessage whose length cannot be read keeps what it held. */
  lemma UnframedIsKept(f: Field, slot: Slot, s: Bytes)
    requires f.ltype.LSubmessage? && (f.htype.Required? || f.htype.Optional?) && ReadDelimited(s).Fail?
    requires slot.Plain? || slot.Opt?
    ensures WrittenSlot(f, slot, s) == if f.HasFlag() then Opt(true, slot.v) else Plain(slot.v)
  {
    hide ReadDelimited;
  }

  /** And an item that cannot be read, in a record of its own, is counted. */
  lemma BadItemIsCounted(f: Field, wireType: nat, items: seq<Value>, s: Bytes)
    requires f.Counted() && !f.ltype.LSubmessage? && wireType != WT_STRING && |items| < f.arraySize && DecodeScalar(f, s).Fail?
    ensures WrittenItems(f, wireType, Items(items, |items|), s) == Items(items + [Indeterminate], |items| + 1)
  {
    hide DecodeScalar;
  }

  // ---------- examples ----------

  /** Two bools for an array with room for one: the second is left in the substream. */
  lemma OneTooMany(f: Field)
    requires f == Field(1, Static, Repeated, LBool, 0, -1, 1, 1, [], None)
    ensures PackedStop(f, Items([], 0), [1, 1]) == 1 && DecodePacked(f, Items([], 0), [1, 1]).None?
    ensures WrittenPacked(f, Items([], 0), [1, 1]) == Items([BoolV(true)], 1)
  {
    hide DecodeVarint32, ScalarStop;
    OneByte(1, [1]);
    assert [1] + [1] == [1, 1];
    assert DecodeScalar(f, [1, 1]) == Ok(BoolV(true), [1]);
    var one := Items([BoolV(true)], 1);
    assert PutItem([], 0, BoolV(true)) == one.items;
    assert PackedStop(f, one, [1]) == 1 && WrittenPacked(f, one, [1]) == one && DecodePacked(f, one, [1]).None?;
  }

  /**
   One repeated bool of capacity 1 and the message `0A 02 01 01`: two items in one packed array. The
   message is rejected, and the cursor ends up two bytes in front of where the bytes left say it is.
   */
  lemma OverflowLosesTwo(fields: seq<Field>)
    requires fields == [Field(1, Static, Repeated, LBool, 0, -1, 1, 1, [], None)]
    ensures TableOk(fields) && DecodeMessage(fields, [0x0A, 2, 1, 1]).Fail?
    ensures LostRun(fields, Start(DefaultMessage(fields)), [0x0A, 2, 1, 1]) == 2
    ensures WrittenRun(fields, Start(DefaultMessage(fields)), [0x0A, 2, 1, 1]) == [Arr([BoolV(true)])]
  {
    hide DecodeVarint32, DefaultMessage, PackedStop, WrittenPacked, DecodePacked;
    var f, data := fields[0], [1, 1];
    DefaultMessageAt(fields, 0);
    var st := Start(DefaultMessage(fields));
    assert st.msg == [Arr([])];
    OneByte(0x0A, [2, 1, 1]);
    OneByte(2, [1, 1]);
    assert [0x0A] + [2, 1, 1] == [0x0A, 2, 1, 1] && [2] + [1, 1] == [2, 1, 1];
    assert data[..2] == data && data[2..] == [];
    assert ReadDelimited([2, 1, 1]) == Ok(data, []);
    OneTooMany(f);
    hide ReadDelimited;
    assert DecodeField(fields, st, 0, WT_STRING, [2, 1, 1]).Fail?;
    assert LostField(fields, st, 0, WT_STRING, [2, 1, 1]) == 2;
    assert WrittenField(fields, st, 0, WT_STRING, [2, 1, 1]) == [Arr([BoolV(true)])];
  }

  lemma OneByte(b: Byte, t: Bytes)
    requires b < 128
    ensures DecodeVarint32([b] + t) == Ok(b, t) && ([b] + t)[1..] == t
  {
    Varint32RoundTrip(b, t);
  }

  /** The array need not overflow: five bytes for `fixed32` items leave one byte that is not an item, and the substream open. */
  lemma TornItemStaysOpen(f: Field, a: Items)
    requires f.ltype.LFixed32? && a == Items([], 0) && f.arraySize == 4
    ensures PackedStop(f, a, [0, 0, 0, 0, 1]) == 1
  {
    var s: Bytes := [0, 0, 0, 0, 1];
    assert s[..4] == [0, 0, 0, 0] && s[4..] == [1];
    var Ok(v, r) := DecodeScalar(f, s);
    assert r == [1] && DecodeScalar(f, r).Fail?;
    assert PackedStop(f, Items(PutItem(a.items, 0, v), 1), r) == 1;
  }

  /** Nor does every bad item leave it open: 256 is too large for a `uint8`, but its two bytes are all there is. */
  lemma BadItemCloses(f: Field, a: Items)
    requires f.ltype.LUVarint? && f.dataSize == 1 && a == Items([], 0) && f.arraySize > 0
    ensures DecodePacked(f, a, EncodeVarint(256)).None? && PackedStop(f, a, EncodeVarint(256)) == 0
  {
    hide EncodeVarint, DecodeVarint;
    VarintRoundTrip(256, []);
    assert EncodeVarint(256) + [] == EncodeVarint(256);
    assert DecodeVarint(EncodeVarint(256)) == Ok(256, []);
  }
}
