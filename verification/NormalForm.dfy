/**
 The decoder on arbitrary bytes: whatever it accepts, it leaves a struct that matches the
 table, within every capacity, in normal form; so printing it and parsing again changes nothing.
 */
module NormalForm {
  import opened Wrappers
  import opened Bits
  import opened Varint
  import opened Scalars
  import opened Message
  import opened Encode
  import opened Decode
  import opened Normalize
  import opened RoundTrip
  import opened Elision

  // ---------- what the decoder leaves ----------

  /**
   A value within its capacity and in normal form. Items of fixed arrays that were never
   received are indeterminate; with `full` there are none, down through submessages.
   */
  predicate ValueKept(f: Field, v: Value, full: bool)
    decreases f, 0
  {
    if f.ltype.LSubmessage? then v.MsgV? && MessageKept(f.sub, v.msg, full) else ScalarKept(f, v)
  }

  predicate ItemKept(f: Field, v: Value, full: bool)
    decreases f, 1
  {
    ValueKept(f, v, full) || (!full && f.FixedCount() && v.Indeterminate?)
  }

  predicate SlotKept(f: Field, slot: Slot, full: bool)
    decreases f, 2
  {
    match f.htype
    case Required => slot.Plain? && ValueKept(f, slot.v, full)
    case Optional =>
      if f.sizeOffset != 0 then slot.Opt? && if slot.has then ValueKept(f, slot.v, full) else slot.v == DefaultValue(f)
      else slot.Plain? && ValueKept(f, slot.v, full)
    case Repeated =>
      && slot.Arr?
      && |slot.items| <= f.arraySize && (f.FixedCount() ==> |slot.items| == f.arraySize)
      && (forall i | 0 <= i < |slot.items| :: ItemKept(f, slot.items[i], full))
    case Oneof => slot.Unset? || (slot.Active? && slot.which != 0 && (slot.which == f.tag ==> ValueKept(f, slot.v, full)))
  }

  /** Every member is within its capacity and in normal form, and every `which` names a member of its oneof. */
  predicate MessageKept(fields: seq<Field>, m: seq<Slot>, full: bool)
    decreases fields, 3
  {
    && |m| == SlotCount(fields)
    && (forall i | 0 <= i < |fields| :: SlotOf(fields, i) < |m| && SlotKept(fields[i], m[SlotOf(fields, i)], full))
    && (forall i | 0 <= i < |fields| && fields[i].htype.Oneof? ::
          SlotOf(fields, i) < |m| && (m[SlotOf(fields, i)].Active? ==> HasMember(fields, i, m[SlotOf(fields, i)].which)))
  }

  lemma KeptAt(fields: seq<Field>, m: seq<Slot>, i: nat, full: bool)
    requires MessageKept(fields, m, full) && i < |fields|
    ensures |m| == SlotCount(fields) && SlotOf(fields, i) < |m| && SlotKept(fields[i], m[SlotOf(fields, i)], full)
  {
  }

  // ---------- the decoder keeps it ----------

  /** A scalar that was read fits its member. */
  lemma ScalarKeeps(f: Field, s: Bytes)
    requires FieldOk(f) && DecodeScalar(f, s).Ok?
    ensures ScalarKept(f, DecodeScalar(f, s).value)
  {
    hide DecodeVarint, DecodeVarint32, CString, FromLittleEndian;
    match f.ltype
    case LFixed32 =>
      FromLittleEndianBound(s[..4]);
      Pow2Values();
    case LFixed64 =>
      FromLittleEndianBound(s[..8]);
      Pow2Values();
    case LVarint =>
      SignedFits(CastSigned(DecodeVarint(s).value, f.dataSize).value, f.dataSize);
    case LSVarint =>
      SignedFits(UnZigZag(DecodeVarint(s).value), f.dataSize);
    case _ =>
  }

  lemma ZeroKept(f: Field)
    requires FieldOk(f) && !f.ltype.LSubmessage?
    ensures ScalarKept(f, ZeroValue(f))
  {
  }

  lemma DefaultValueKept(f: Field)
    requires FieldOk(f)
    ensures ValueKept(f, DefaultValue(f), false)
    decreases f, 0
  {
    if f.ltype.LSubmessage? {
      DefaultMessageKept(f.sub);
    } else {
      ZeroKept(f);
    }
  }

  lemma DefaultSlotKept(f: Field)
    requires FieldOk(f)
    ensures SlotKept(f, DefaultSlot(f), false)
    decreases f, 1
  {
    DefaultValueKept(f);
    hide ValueKept, DefaultValue, FieldOk;
  }

  /** The default struct is in normal form. */
  lemma DefaultMessageKept(fields: seq<Field>)
    requires TableOk(fields)
    ensures MessageKept(fields, DefaultMessage(fields), false)
    decreases fields, 2
  {
    hide SlotKept, DefaultMessage, DefaultSlot, FieldOk, SlotOf, SlotCount;
    DefaultMessageLength(fields);
    forall i | 0 <= i < |fields|
      ensures SlotOf(fields, i) < SlotCount(fields) && DefaultMessage(fields)[SlotOf(fields, i)] == DefaultSlot(fields[i])
      ensures SlotKept(fields[i], DefaultSlot(fields[i]), false)
      ensures fields[i].htype.Oneof? ==> DefaultSlot(fields[i]) == Unset
    {
      DefaultMessageAt(fields, i);
      assert FieldOk(fields[i]);
      DefaultSlotKept(fields[i]);
      if fields[i].htype.Oneof? { OneofDefault(fields[i]); }
    }
  }

  predicate ItemsKept(f: Field, a: Items)
  {
    && |a.items| <= f.arraySize && a.count <= |a.items|
    && (f.FixedCount() ==> |a.items| == f.arraySize)
    && (f.Counted() ==> a.count == |a.items|)
    && (forall i | 0 <= i < |a.items| :: ItemKept(f, a.items[i], false))
  }

  lemma PutKeeps(f: Field, a: Items, v: Value)
    requires f.htype.Repeated? && ItemsKept(f, a) && ValueKept(f, v, false) && a.count < f.arraySize
    ensures ItemsKept(f, Items(PutItem(a.items, a.count, v), a.count + 1))
  {
    hide ValueKept;
  }

  lemma {:induction false} PackedKeeps(f: Field, a: Items, s: Bytes)
    requires FieldOk(f) && f.htype.Repeated? && f.Packable() && ItemsKept(f, a) && DecodePacked(f, a, s).Some?
    ensures ItemsKept(f, DecodePacked(f, a, s).value)
    decreases |s|
  {
    if s != [] {
      ScalarKeeps(f, s);
      var Ok(v, r) := DecodeScalar(f, s);
      assert ValueKept(f, v, false);
      hide FieldOk, DecodeScalar, ItemsKept, ValueKept;
      PutKeeps(f, a, v);
      PackedKeeps(f, Items(PutItem(a.items, a.count, v), a.count + 1), r);
    }
  }

  lemma ValueKeeps(f: Field, prior: Value, s: Bytes)
    requires FieldOk(f) && ValueKept(f, prior, false) && DecodeValue(f, prior, s).Ok?
    ensures ValueKept(f, DecodeValue(f, prior, s).value, false)
    decreases |s|, 0
  {
    if f.ltype.LSubmessage? {
      hide DecodeNoInit, MessageKept, DefaultMessage, TableOk, ReadDelimited;
      var Ok(data, r) := ReadDelimited(s);
      DefaultMessageKept(f.sub);
      NoInitKeeps(f.sub, if f.htype.Repeated? then DefaultMessage(f.sub) else prior.msg, data);
    } else {
      ScalarKeeps(f, s);
    }
  }

  lemma ItemsKeep(f: Field, wireType: nat, a: Items, s: Bytes)
    requires FieldOk(f) && f.htype.Repeated? && ItemsKept(f, a) && DecodeItems(f, wireType, a, s).Ok?
    ensures ItemsKept(f, DecodeItems(f, wireType, a, s).value)
    decreases |s|, 1
  {
    hide DecodeValue, DecodePacked, FieldOk, ValueKept, ItemsKept, DefaultValue, ReadDelimited;
    if wireType == WT_STRING && f.Packable() {
      PackedKeeps(f, a, ReadDelimited(s).value);
    } else {
      DefaultValueKept(f);
      ValueKeeps(f, DefaultValue(f), s);
      PutKeeps(f, a, DecodeValue(f, DefaultValue(f), s).value);
    }
  }

  lemma SingleKeeps(f: Field, slot: Slot, s: Bytes)
    requires FieldOk(f) && !f.htype.Repeated? && SlotKept(f, slot, false) && DecodeSingle(f, slot, s).Ok?
    ensures SlotKept(f, DecodeSingle(f, slot, s).value, false)
    ensures f.htype.Oneof? ==> DecodeSingle(f, slot, s).value.Active? && DecodeSingle(f, slot, s).value.which == f.tag
    decreases |s|, 1
  {
    DefaultValueKept(f);
    assert f.tag >= 1;
    hide DecodeValue, FieldOk, ValueKept, DefaultValue;
    ValueKeeps(f, if f.htype.Oneof? then DefaultValue(f) else slot.v, s);
  }

  /** The invariant of the record loop. */
  predicate StateKept(fields: seq<Field>, st: State)
  {
    && MessageKept(fields, st.msg, false)
    && (st.fixedField.Some? ==>
          st.fixedField.value < |fields| && fields[st.fixedField.value].FixedCount() &&
          st.fixedCount <= fields[st.fixedField.value].arraySize)
  }

  /** A new content of the slot of field `i` that suits field `i` keeps the struct. */
  lemma UpdateKeeps(fields: seq<Field>, m: seq<Slot>, i: nat, slot: Slot)
    requires TableOk(fields) && MessageKept(fields, m, false) && i < |fields| && SlotKept(fields[i], slot, false)
    requires fields[i].htype.Oneof? ==> slot.Active? && slot.which == fields[i].tag
    ensures SlotOf(fields, i) < |m| && MessageKept(fields, m[SlotOf(fields, i) := slot], false)
  {
    var s := SlotOf(fields, i);
    KeptAt(fields, m, i, false);
    var m' := m[s := slot];
    assert fields[i].htype.Oneof? ==> slot.which != 0;
    hide ValueKept, FieldOk;
    forall j | 0 <= j < |fields|
      ensures SlotOf(fields, j) < |m'| && SlotKept(fields[j], m'[SlotOf(fields, j)], false)
    {
      KeptAt(fields, m, j, false);
      if j != i && SlotOf(fields, j) == s {
        SharedSlot(fields, if i < j then i else j, if i < j then j else i);
      }
    }
    forall j | 0 <= j < |fields| && fields[j].htype.Oneof? && m'[SlotOf(fields, j)].Active?
      ensures HasMember(fields, j, m'[SlotOf(fields, j)].which)
    {
      if SlotOf(fields, j) == s && j != i {
        SharedSlot(fields, if i < j then i else j, if i < j then j else i);
      }
    }
  }

  /** One record keeps the invariant. */
  lemma FieldKeeps(fields: seq<Field>, st: State, i: nat, wireType: nat, s: Bytes)
    requires TableOk(fields) && StateKept(fields, st) && i < |fields| && DecodeField(fields, st, i, wireType, s).Ok?
    ensures StateKept(fields, DecodeField(fields, st, i, wireType, s).value)
    decreases |s|, 2
  {
    var f, k := fields[i], SlotOf(fields, i);
    KeptAt(fields, st.msg, i, false);
    assert FieldOk(f);
    hide DecodeItems, DecodeSingle, FieldOk, ValueKept, MessageKept, TableOk, SlotOf, SlotCount;
    if f.htype.Repeated? {
      var items := st.msg[k].items;
      var a := Items(items, if f.Counted() then |items| else if st.fixedField == Some(i) then st.fixedCount else 0);
      ItemsKeep(f, wireType, a, s);
      UpdateKeeps(fields, st.msg, i, Arr(DecodeItems(f, wireType, a, s).value.items));
    } else {
      SingleKeeps(f, st.msg[k], s);
      UpdateKeeps(fields, st.msg, i, DecodeSingle(f, st.msg[k], s).value);
    }
  }

  lemma {:induction false} RecordsKeep(fields: seq<Field>, st: State, s: Bytes)
    requires TableOk(fields) && StateKept(fields, st) && !DecodeRecords(fields, st, s).Failed?
    ensures StateKept(fields, DecodeRecords(fields, st, s).st)
    decreases |s|, 4
  {
    hide DecodeField, SkipField, DecodeVarint32, StateKept, TableOk;
    if s != [] {
      var Ok(key, r) := DecodeVarint32(s);
      if key != 0 {
        var i := FindTag(fields, key / 8, 0);
        if i < |fields| { FieldKeeps(fields, st, i, key % 8, r); }
        var Ok(st', r') := DecodeRecord(fields, st, key / 8, key % 8, r);
        RecordsKeep(fields, st', r');
      }
    }
  }

  /** `pb_decode_noinit` on any bytes: the struct stays well-formed, within its capacities and in normal form. */
  lemma NoInitKeeps(fields: seq<Field>, m: seq<Slot>, s: Bytes)
    requires TableOk(fields) && MessageKept(fields, m, false) && DecodeNoInit(fields, m, s).Ok?
    ensures MessageKept(fields, DecodeNoInit(fields, m, s).value, false)
    decreases |s|, 5
  {
    hide DecodeRecords, MessageKept, TableOk, Complete;
    RecordsKeep(fields, Start(m), s);
  }

  // ---------- a struct in normal form can be sent, and is its own normal form ----------

  lemma ValueKeptTyped(f: Field, v: Value)
    requires ValueKept(f, v, true)
    ensures ValueTyped(f, v)
    decreases f, 0
  {
    if f.ltype.LSubmessage? { MessageKeptTyped(f.sub, v.msg); }
  }

  lemma SlotKeptTyped(f: Field, slot: Slot)
    requires SlotKept(f, slot, true)
    ensures SlotTyped(f, slot)
    decreases f, 1
  {
    hide ValueKept, ValueTyped;
    if slot.Arr? {
      forall i | 0 <= i < |slot.items| ensures f.htype.Repeated? ==> ValueTyped(f, slot.items[i]) {
        if f.htype.Repeated? { ValueKeptTyped(f, slot.items[i]); }
      }
    } else if slot.Plain? || (slot.Opt? && slot.has) || (slot.Active? && slot.which == f.tag) {
      ValueKeptTyped(f, slot.v);
    }
  }

  lemma MessageKeptTyped(fields: seq<Field>, m: seq<Slot>)
    requires MessageKept(fields, m, true)
    ensures MessageTyped(fields, m)
    decreases fields, 2
  {
    hide SlotKept, SlotTyped;
    forall i | 0 <= i < |fields|
      ensures SlotOf(fields, i) < |m| && SlotTyped(fields[i], m[SlotOf(fields, i)])
    {
      SlotKeptTyped(fields[i], m[SlotOf(fields, i)]);
    }
  }

  /** Every slot belongs to a field. */
  lemma {:induction false} SlotOwner(fields: seq<Field>, s: nat, k: nat) returns (i: nat)
    requires k < |fields| && s <= SlotOf(fields, k)
    ensures i <= k && SlotOf(fields, i) == s
    decreases k
  {
    if s == SlotOf(fields, k) {
      i := k;
    } else {
      i := SlotOwner(fields, s, k - 1);
    }
  }

  lemma ValueKeptNormal(f: Field, v: Value)
    requires FieldOk(f) && ValueKept(f, v, true)
    ensures NormalValue(f, v) == v
    decreases f, 0
  {
    if f.ltype.LSubmessage? { MessageKeptNormal(f.sub, v.msg); }
  }

  lemma SlotKeptNormal(f: Field, slot: Slot)
    requires FieldOk(f) && SlotKept(f, slot, true) && Written(f, slot)
    ensures NormalSlot(f, slot) == slot
    decreases f, 1
  {
    hide FieldOk, ValueKept, NormalValue;
    if slot.Arr? {
      forall i | 0 <= i < |slot.items| ensures NormalValue(f, slot.items[i]) == slot.items[i] {
        ValueKeptNormal(f, slot.items[i]);
      }
      assert NormalItems(f, slot.items) == slot.items;
    } else {
      ValueKeptNormal(f, slot.v);
    }
  }

  /** What is not written is the default. */
  lemma UnwrittenKept(f: Field, slot: Slot)
    requires FieldOk(f) && SlotKept(f, slot, true) && !Written(f, slot) && !f.htype.Oneof?
    ensures slot == DefaultSlot(f)
    decreases f, 1
  {
    hide FieldOk, ValueKept, DefaultValue, NormalValue, IsProto3Zero;
    if f.Singular() {
      ValueKeptNormal(f, slot.v);
      ValueKeptTyped(f, slot.v);
      ElisionSound(f, slot.v);
    }
  }

  /** Normal form is what it says: `NormalMessage` changes nothing. */
  lemma MessageKeptNormal(fields: seq<Field>, m: seq<Slot>)
    requires TableOk(fields) && MessageKept(fields, m, true)
    ensures NormalMessage(fields, m) == m
    decreases fields, 2
  {
    hide *;
    MessageKeptTyped(fields, m);
    NormalMessageSize(fields, m);
    var n := NormalMessage(fields, m);
    forall s | 0 <= s < |m| ensures n[s] == m[s] {
      OwnedSlot(fields, s);
      var i :| 0 <= i < |fields| && SlotOf(fields, i) == s;
      SlotKeptIsNormal(fields, m, i);
    }
    assert n == m;
  }

  lemma NormalMessageSize(fields: seq<Field>, m: seq<Slot>)
    requires MessageTyped(fields, m)
    ensures |NormalMessage(fields, m)| == |m| == SlotCount(fields)
  {
    NormalMessageLength(fields, m, 0, DefaultMessage(fields));
    DefaultMessageLength(fields);
  }

  lemma OwnedSlot(fields: seq<Field>, s: nat)
    requires s < SlotCount(fields)
    ensures exists i :: 0 <= i < |fields| && SlotOf(fields, i) == s
  {
    var i := SlotOwner(fields, s, |fields| - 1);
  }

  lemma SlotKeptIsNormal(fields: seq<Field>, m: seq<Slot>, i: nat)
    requires TableOk(fields) && MessageKept(fields, m, true) && MessageTyped(fields, m) && i < |fields|
    ensures SlotOf(fields, i) < |m| == |NormalMessage(fields, m)|
    ensures NormalMessage(fields, m)[SlotOf(fields, i)] == m[SlotOf(fields, i)]
    decreases fields, 1
  {
    var s := SlotOf(fields, i);
    KeptAt(fields, m, i, true);
    assert FieldOk(fields[i]);
    if fields[i].htype.Oneof? {
      NormalOneofAt(fields, m, i);
      if m[s].Active? {
        assert HasMember(fields, i, m[s].which);
        var j :| 0 <= j < |fields| && SlotOf(fields, j) == s && fields[j].htype.Oneof? && fields[j].tag == m[s].which;
        KeptAt(fields, m, j, true);
        assert FieldOk(fields[j]);
        hide FieldOk, TableOk, MessageKept, MessageTyped, NormalMessage, SlotOf, NormalSlot, SlotCount, ValueKept;
        NormalOneofAt(fields, m, j);
        SlotKeptNormal(fields[j], m[s]);
      }
    } else {
      hide FieldOk, TableOk, MessageKept, MessageTyped, NormalMessage, SlotOf, NormalSlot, SlotCount, SlotKept, Written, DefaultSlot;
      NormalMessageAt(fields, m, i);
      if Written(fields[i], m[s]) {
        SlotKeptNormal(fields[i], m[s]);
      } else {
        UnwrittenKept(fields[i], m[s]);
      }
    }
  }

  // ---------- encoding a struct in normal form ----------

  lemma ScalarKeptEncodes(f: Field, v: Value)
    requires FieldOk(f) && ScalarKept(f, v) && !f.ltype.LSubmessage?
    ensures EncodeScalar(f, v).Some?
  {
  }

  lemma {:induction false} PackKeptEncodes(f: Field, items: seq<Value>)
    requires FieldOk(f) && f.Packable() && forall i | 0 <= i < |items| :: ScalarKept(f, items[i])
    ensures PackItems(f, items).Some?
  {
    hide FieldOk, ScalarKept, EncodeScalar;
    if items != [] {
      ScalarKeptEncodes(f, items[0]);
      PackKeptEncodes(f, items[1..]);
    }
  }

  /** A value in normal form is encoded, and is sendable if that takes less than 2^32 bytes. */
  lemma ValueKeptEncodes(f: Field, v: Value)
    requires FieldOk(f) && ValueKept(f, v, true)
    ensures EncodeValue(f, v).Some? && (|EncodeValue(f, v).value| < U32 ==> SendableValue(f, v))
    decreases f, 0
  {
    if f.ltype.LSubmessage? {
      hide EncodeFrom, SendableFrom, MessageKept, TableOk;
      FieldsKeptEncode(f.sub, v.msg, 0);
      DelimitedLonger(EncodeMessage(f.sub, v.msg).value);
    } else {
      ScalarKeptEncodes(f, v);
    }
  }

  lemma {:induction false} ItemsKeptEncode(f: Field, items: seq<Value>)
    requires FieldOk(f) && forall i | 0 <= i < |items| :: ValueKept(f, items[i], true)
    ensures EncodeItems(f, items).Some?
    ensures |EncodeItems(f, items).value| < U32 ==> forall i | 0 <= i < |items| :: SendableValue(f, items[i])
    decreases f, 1, items
  {
    hide FieldOk, ValueKept, EncodeValue, SendableValue, FieldTag;
    if items != [] {
      ValueKeptEncodes(f, items[0]);
      ItemsKeptEncode(f, items[1..]);
      forall i | 1 <= i < |items| ensures items[i] == items[1..][i - 1] {}
    }
  }

  lemma SlotKeptEncodes(f: Field, slot: Slot)
    requires FieldOk(f) && SlotKept(f, slot, true)
    ensures EncodeField(f, slot).Some? && (|EncodeField(f, slot).value| < U32 ==> SendableSlot(f, slot))
    decreases f, 2
  {
    hide FieldOk, EncodeValue, SendableValue, FieldTag, PackItems, EncodeItems, IsProto3Zero, Tag, Delimited;
    if slot.Arr? && f.htype.Repeated? {
      if f.Packable() {
        forall i | 0 <= i < |slot.items| ensures ScalarKept(f, slot.items[i]) {
          assert ItemKept(f, slot.items[i], true) && ValueKept(f, slot.items[i], true);
        }
        PackKeptEncodes(f, slot.items);
        DelimitedLonger(PackItems(f, slot.items).value);
        if slot.items == [] { PackNothing(f); }
      } else {
        ItemsKeptEncode(f, slot.items);
      }
    } else if Present(f, slot) {
      hide ValueKept;
      ValueKeptEncodes(f, slot.v);
    }
  }

  lemma PackNothing(f: Field)
    ensures PackItems(f, []) == Some([])
  {
  }

  lemma {:induction false} FieldsKeptEncode(fields: seq<Field>, m: seq<Slot>, k: nat)
    requires TableOk(fields) && MessageKept(fields, m, true) && k <= |fields|
    ensures EncodeFrom(fields, m, k).Some?
    ensures |EncodeFrom(fields, m, k).value| < U32 ==> SendableFrom(fields, m, k)
    decreases fields, |fields| - k
  {
    if k < |fields| {
      KeptAt(fields, m, k, true);
      assert FieldOk(fields[k]);
      hide TableOk, FieldOk, MessageKept, SlotKept, EncodeField, SendableSlot, SlotOf, SlotCount;
      SlotKeptEncodes(fields[k], m[SlotOf(fields, k)]);
      FieldsKeptEncode(fields, m, k + 1);
    }
  }

  // ---------- the theorems ----------

  /** No table below has a fixed count field. */
  predicate NoFixedArrays(fields: seq<Field>)
    decreases fields
  {
    forall i | 0 <= i < |fields| ::
      !fields[i].FixedCount() && (fields[i].ltype.LSubmessage? ==> NoFixedArrays(fields[i].sub))
  }

  /** Without fixed arrays everything was received. */
  lemma NothingMissing(fields: seq<Field>, m: seq<Slot>)
    requires NoFixedArrays(fields) && MessageKept(fields, m, false)
    ensures MessageKept(fields, m, true)
    decreases fields, 1
  {
    forall i | 0 <= i < |fields|
      ensures SlotOf(fields, i) < |m| && SlotKept(fields[i], m[SlotOf(fields, i)], true)
    {
      KeptAt(fields, m, i, false);
      hide MessageKept, SlotOf;
      SlotNotMissing(fields[i], m[SlotOf(fields, i)]);
    }
  }

  lemma ValueNotMissing(f: Field, v: Value)
    requires (f.ltype.LSubmessage? ==> NoFixedArrays(f.sub)) && ValueKept(f, v, false)
    ensures ValueKept(f, v, true)
    decreases f, 0
  {
    if f.ltype.LSubmessage? { NothingMissing(f.sub, v.msg); }
  }

  lemma SlotNotMissing(f: Field, slot: Slot)
    requires !f.FixedCount() && (f.ltype.LSubmessage? ==> NoFixedArrays(f.sub)) && SlotKept(f, slot, false)
    ensures SlotKept(f, slot, true)
    decreases f, 1
  {
    hide ValueKept, MessageKept, NoFixedArrays, DefaultValue;
    if slot.Arr? {
      forall i | 0 <= i < |slot.items| && f.htype.Repeated? ensures ItemKept(f, slot.items[i], true) {
        assert ItemKept(f, slot.items[i], false);
        ValueNotMissing(f, slot.items[i]);
      }
    } else if !slot.Unset? && ValueKept(f, slot.v, false) {
      ValueNotMissing(f, slot.v);
    }
  }

  /**
   Parsing, printing and parsing again is parsing once, for any bytes at all that are accepted
   and leave no fixed array unreceived: such a struct can be printed, and comes back as it is.
   */
  lemma ParsePrintParse(fields: seq<Field>, s: Bytes)
    requires TableOk(fields) && DecodeMessage(fields, s).Ok?
    ensures var m := DecodeMessage(fields, s).value;
            var printed := EncodeMessage(fields, m);
            && MessageKept(fields, m, false)
            && (NoFixedArrays(fields) ==> MessageKept(fields, m, true))
            && (MessageKept(fields, m, true) ==>
                  && printed.Some?
                  && (|printed.value| < U32 ==> Sendable(fields, m))
                  && (|printed.value| < U63 ==>
                        DecodeMessage(fields, printed.value) == if Sendable(fields, m) then Ok(m, []) else Fail))
  {
    hide TableOk, MessageKept, MessageTyped, EncodeFrom, DecodeNoInit, NormalMessage, DefaultMessage, SendableFrom, NoFixedArrays;
    var m := DecodeMessage(fields, s).value;
    DefaultMessageKept(fields);
    NoInitKeeps(fields, DefaultMessage(fields), s);
    if NoFixedArrays(fields) { NothingMissing(fields, m); }
    if MessageKept(fields, m, true) {
      MessageKeptTyped(fields, m);
      MessageKeptNormal(fields, m);
      FieldsKeptEncode(fields, m, 0);
      var b := EncodeMessage(fields, m).value;
      if |b| < U63 { MessageRoundTrip(fields, m, b); }
    }
  }

  /** A struct in normal form whose encoding is below 2^32 bytes comes back unchanged. */
  lemma KeptComesBack(fields: seq<Field>, m: seq<Slot>)
    requires TableOk(fields) && MessageKept(fields, m, true)
    requires EncodeMessage(fields, m).Some? ==> |EncodeMessage(fields, m).value| < U32
    ensures EncodeMessage(fields, m).Some? && DecodeMessage(fields, EncodeMessage(fields, m).value) == Ok(m, [])
  {
    hide TableOk, MessageKept, MessageTyped, EncodeFrom, DecodeNoInit, NormalMessage, DefaultMessage, SendableFrom;
    MessageKeptTyped(fields, m);
    MessageKeptNormal(fields, m);
    FieldsKeptEncode(fields, m, 0);
    MessageRoundTrip(fields, m, EncodeMessage(fields, m).value);
  }
}
