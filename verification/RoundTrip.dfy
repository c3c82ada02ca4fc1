/**
 The law the library exists for: decoding what was encoded gives the struct back.
 `pb_decode` accepts the encoding exactly when the struct is `Sendable`, and then leaves
 `NormalMessage`, the struct with the contents of absent fields set to their defaults.
 */
module RoundTrip {
  import opened Wrappers
  import opened Bits
  import opened Varint
  import opened Message
  import opened Encode
  import opened Decode
  import opened Normalize
  import opened Records
  import opened ScalarLaws

  // ---------- default messages ----------

  lemma OneofDefault(f: Field)
    requires f.htype.Oneof?
    ensures DefaultSlot(f) == Unset
  {
  }

  /** The first slot that `DefaultSlots(fields, k)` describes. */
  function FirstSlot(fields: seq<Field>, k: nat): nat
    requires k < |fields|
  {
    if SharesUnion(fields, k) then SlotOf(fields, k) + 1 else SlotOf(fields, k)
  }

  lemma {:induction false} DefaultSlotsLength(fields: seq<Field>, k: nat)
    requires k < |fields|
    ensures |DefaultSlots(fields, k)| + FirstSlot(fields, k) == SlotCount(fields)
    decreases |fields| - k
  {
    hide DefaultSlot;
    if k + 1 < |fields| {
      DefaultSlotsLength(fields, k + 1);
      assert FirstSlot(fields, k + 1) == SlotOf(fields, k) + 1;
    } else {
      assert DefaultSlots(fields, k + 1) == [];
    }
  }

  lemma {:induction false} DefaultSlotsAt(fields: seq<Field>, k: nat, i: nat)
    requires k <= i < |fields| && FirstSlot(fields, k) <= SlotOf(fields, i) < SlotCount(fields)
    ensures var s := SlotOf(fields, i) - FirstSlot(fields, k);
            s < |DefaultSlots(fields, k)| && DefaultSlots(fields, k)[s] == DefaultSlot(fields[i])
    decreases |fields| - k
  {
    hide DefaultSlot, SlotOf;
    DefaultSlotsLength(fields, k);
    if SlotOf(fields, i) == SlotOf(fields, k) {
      if i > k {
        SharedSlot(fields, k, i);
        OneofDefault(fields[k]);
        OneofDefault(fields[i]);
      }
    } else {
      assert FirstSlot(fields, k + 1) == SlotOf(fields, k) + 1 by { NextSlot(fields, k); }
      SlotMonotonic(fields, k, i);
      DefaultSlotsAt(fields, k + 1, i);
    }
  }

  lemma NextSlot(fields: seq<Field>, k: nat)
    requires k + 1 < |fields|
    ensures FirstSlot(fields, k + 1) == SlotOf(fields, k) + 1
  {
  }

  /** `pb_message_set_to_defaults` sets every member to the default of its field. */
  lemma DefaultMessageAt(fields: seq<Field>, i: nat)
    requires i < |fields|
    ensures |DefaultMessage(fields)| == SlotCount(fields)
    ensures SlotOf(fields, i) < SlotCount(fields)
    ensures DefaultMessage(fields)[SlotOf(fields, i)] == DefaultSlot(fields[i])
  {
    hide DefaultSlot, DefaultSlots;
    SlotInRange(fields, i);
    SlotMonotonic(fields, 0, i);
    DefaultSlotsLength(fields, 0);
    DefaultSlotsAt(fields, 0, i);
  }

  lemma DefaultMessageLength(fields: seq<Field>)
    ensures |DefaultMessage(fields)| == SlotCount(fields)
  {
    if fields != [] { DefaultMessageAt(fields, 0); }
  }

  // ---------- arrays ----------

  lemma SplitConcat(a: Option<Bytes>, b: Option<Bytes>, s: Bytes, t: Bytes)
    requires Concat(a, b) == Some(s)
    ensures a.Some? && b.Some? && s + t == a.value + (b.value + t) && |s| == |a.value| + |b.value|
  {
    assert a.value + b.value + t == a.value + (b.value + t);
  }

  /** The packed loop reads back the packed items, up to the end of the substream. */
  lemma {:induction false} PackedRoundTrip(f: Field, a: Items, items: seq<Value>, data: Bytes)
    requires FieldOk(f) && f.Packable() && PackItems(f, items) == Some(data)
    requires forall i | 0 <= i < |items| :: ScalarTyped(f, items[i])
    requires a.count <= |a.items| && a.count + |items| <= f.arraySize
    ensures DecodePacked(f, a, data) == Some(Items(Splice(a.items, a.count, items), a.count + |items|))
    decreases |items|
  {
    hide EncodeScalar, DecodeScalar, ScalarTyped, FieldOk;
    if items == [] {
      assert Splice(a.items, a.count, []) == a.items;
    } else {
      var v := items[0];
      SplitConcat(EncodeScalar(f, v), PackItems(f, items[1..]), data, []);
      var rest := PackItems(f, items[1..]).value;
      assert data == EncodeScalar(f, v).value + rest;
      assert ScalarKept(f, v);
      ScalarNotEmpty(f, v);
      ScalarRoundTrip(f, v, EncodeScalar(f, v).value, rest);
      SpliceStep(a.items, a.count, items);
      PackedRoundTrip(f, Items(PutItem(a.items, a.count, v), a.count + 1), items[1..], rest);
    }
  }

  lemma NormalScalars(f: Field, items: seq<Value>)
    requires f.Packable()
    ensures NormalItems(f, items) == items
  {
  }

  /** A packed field. */
  lemma PackedFieldRoundTrip(fields: seq<Field>, st: State, k: nat, items: seq<Value>, e: Bytes, t: Bytes)
    requires TableOk(fields) && k < |fields| && Holds(fields, st, k, [])
    requires SlotTyped(fields[k], Arr(items)) && fields[k].Packable() && items != []
    requires EncodeArray(fields[k], items) == Some(e) && |e| < U63
    ensures DecodeRecords(fields, st, e + t)
         == if SendableItems(fields[k], items)
            then DecodeRecords(fields, Received(fields, st, k, NormalItems(fields[k], items)), t) else Failed
  {
    hide DecodePacked, ReadDelimited, DecodeField, DecodeRecords, PackItems, FieldOk, Delimited, Tag, NormalItems, ScalarTyped;
    var f := fields[k];
    var data := PackItems(f, items).value;
    assert e + t == Tag(WT_STRING, f.tag) + (Delimited(data) + t);
    assert FieldOk(f);
    assert |data| < U63 by { DelimitedLonger(data); }
    FieldStep(fields, st, k, WT_STRING, Delimited(data) + t);
    DelimitedRoundTrip(data, t);
    NormalScalars(f, items);
    assert forall i | 0 <= i < |items| :: ScalarTyped(f, items[i]);
    PackedRoundTrip(f, Items(st.msg[SlotOf(fields, k)].items, 0), items, data);
    if |data| < U32 {
      assert [] + items == items;
      PackedRecord(fields, st, k, [], items, Delimited(data) + t, data, t);
    } else {
      PackedRecordFails(fields, st, k, [], Delimited(data) + t);
    }
  }

  lemma DelimitedLonger(s: Bytes)
    ensures |Delimited(s)| > |s|
  {
  }

  /** A repeated field that is not packed: one record an item. */
  lemma {:induction false} ItemsRoundTrip(
      fields: seq<Field>, st: State, k: nat, vs: seq<Value>, items: seq<Value>, e: Bytes, t: Bytes)
    requires TableOk(fields) && k < |fields| && Holds(fields, st, k, vs)
    requires !fields[k].Packable() && |vs| + |items| <= fields[k].arraySize
    requires forall i | 0 <= i < |items| :: ValueTyped(fields[k], items[i])
    requires EncodeItems(fields[k], items) == Some(e) && |e| < U63
    ensures DecodeRecords(fields, st, e + t)
         == if forall i | 0 <= i < |items| :: SendableValue(fields[k], items[i])
            then DecodeRecords(fields, Received(fields, st, k, vs + NormalItems(fields[k], items)), t) else Failed
    decreases fields[k], 1, |items|
  {
    hide DecodeField, DecodeRecords, DecodeValue, EncodeValue, SendableValue, NormalValue, ValueTyped, Tag, FieldOk;
    var f := fields[k];
    if items == [] {
      assert vs + NormalItems(f, items) == vs;
      ReceivedNothing(fields, st, k, vs);
      assert e + t == t;
    } else {
      var v := items[0];
      var head := Concat(Some(FieldTag(f)), EncodeValue(f, v));
      var tail := EncodeItems(f, items[1..]);
      SplitConcat(head, tail, e, t);
      SplitConcat(Some(FieldTag(f)), EncodeValue(f, v), head.value, tail.value + t);
      FieldStep(fields, st, k, WireType(f.ltype), EncodeValue(f, v).value + (tail.value + t));
      assert FieldOk(f);
      OneItem(fields, st, k, vs, WireType(f.ltype), EncodeValue(f, v).value + (tail.value + t));
      ValueRoundTrip(f, v, DefaultValue(f), EncodeValue(f, v).value, tail.value + t);
      if SendableValue(f, v) {
        var nv := NormalValue(f, v);
        var st' := Received(fields, st, k, vs + [nv]);
        ReceivedHolds(fields, st, k, vs, [nv]);
        assert forall i | 0 <= i < |items[1..]| :: items[1..][i] == items[i + 1];
        ItemsRoundTrip(fields, st', k, vs + [nv], items[1..], tail.value, t);
        ReceivedTwice(fields, st, k, vs + [nv], NormalItems(f, items[1..]));
        assert vs + NormalItems(f, items) == (vs + [nv]) + NormalItems(f, items[1..]);
      }
    }
  }

  // ---------- values and fields ----------

  lemma KeptIfSendable(f: Field, v: Value)
    requires !f.ltype.LSubmessage? && ScalarTyped(f, v) && EncodeScalar(f, v).Some?
    ensures ScalarKept(f, v) <==> SendableValue(f, v)
  {
  }

  /** A value is read back exactly when it is sendable; a submessage must be read into a default one. */
  lemma ValueRoundTrip(f: Field, v: Value, prior: Value, s: Bytes, t: Bytes)
    requires FieldOk(f) && ValueTyped(f, v) && EncodeValue(f, v) == Some(s) && |s| < U63
    requires f.htype.Repeated? || prior == DefaultValue(f)
    ensures DecodeValue(f, prior, s + t) == if SendableValue(f, v) then Ok(NormalValue(f, v), t) else Fail
    decreases f, 0
  {
    hide DecodeNoInit, EncodeMessage, ReadDelimited, Delimited, NormalMessage, SendableFrom, EncodeScalar, DecodeScalar;
    if f.ltype.LSubmessage? {
      var data := EncodeMessage(f.sub, v.msg).value;
      DelimitedLonger(data);
      DelimitedRoundTrip(data, t);
      MessageRoundTrip(f.sub, v.msg, data);
    } else {
      KeptIfSendable(f, v);
      ScalarRoundTrip(f, v, s, t);
    }
  }

  /** The state after the record of field `k` has been read. */
  function AfterField(fields: seq<Field>, m: seq<Slot>, k: nat, st: State): State
    requires k < |fields| && SlotOf(fields, k) < |m| && SlotOf(fields, k) < |st.msg|
  {
    var f, s := fields[k], SlotOf(fields, k);
    if !Written(f, m[s]) then st
    else
      var st' := st.(msg := st.msg[s := NormalSlot(f, m[s])]);
      if f.Required() then st'.(seen := st.seen + {k})
      else if f.FixedCount() then st'.(fixedField := Some(k), fixedCount := f.arraySize)
      else st'
  }

  /** The members of the fields from `k` on still hold their defaults, and no fixed count field is half done. */
  predicate Fresh(fields: seq<Field>, st: State, k: nat)
    requires k <= |fields|
  {
    && |st.msg| == SlotCount(fields)
    && (forall j | k <= j < |fields| :: SlotOf(fields, j) < |st.msg| &&
          (fields[j].htype.Oneof? || st.msg[SlotOf(fields, j)] == DefaultSlot(fields[j])))
    && FixedComplete(fields, st)
    && (st.fixedField.Some? ==> st.fixedField.value < k)
  }

  lemma AfterFieldFresh(fields: seq<Field>, m: seq<Slot>, k: nat, st: State)
    requires k < |fields| && MessageTyped(fields, m) && Fresh(fields, st, k)
    ensures Fresh(fields, AfterField(fields, m, k, st), k + 1)
  {
    hide DefaultSlot, SlotOf, SlotCount, SlotTyped, NormalSlot, Written;
    forall j | k < j < |fields| && !fields[j].htype.Oneof?
      ensures SlotOf(fields, j) != SlotOf(fields, k)
    {
      if SlotOf(fields, j) == SlotOf(fields, k) { SharedSlot(fields, k, j); }
    }
  }

  /** A field that is not repeated. */
  lemma SingleFieldRoundTrip(fields: seq<Field>, m: seq<Slot>, k: nat, st: State, e: Bytes, t: Bytes)
    requires TableOk(fields) && k < |fields| && SlotOf(fields, k) < |m| && Fresh(fields, st, k)
    requires var slot := m[SlotOf(fields, k)];
             SlotTyped(fields[k], slot) && Present(fields[k], slot) && EncodeField(fields[k], slot) == Some(e)
    requires |e| < U63
    ensures DecodeRecords(fields, st, e + t)
         == if SendableSlot(fields[k], m[SlotOf(fields, k)])
            then DecodeRecords(fields, AfterField(fields, m, k, st), t) else Failed
    decreases fields[k], 1
  {
    hide DecodeRecords, DecodeValue, EncodeValue, SendableValue, NormalValue, ValueTyped, Tag, FieldOk;
    var f, slot := fields[k], m[SlotOf(fields, k)];
    var s := EncodeValue(f, slot.v);
    SplitConcat(Some(FieldTag(f)), s, e, t);
    FieldStep(fields, st, k, WireType(f.ltype), s.value + t);
    assert FieldOk(f);
    ValueRoundTrip(f, slot.v, DefaultValue(f), s.value, t);
  }

  /** A repeated field. */
  lemma ArrayFieldRoundTrip(fields: seq<Field>, m: seq<Slot>, k: nat, st: State, e: Bytes, t: Bytes)
    requires TableOk(fields) && k < |fields| && SlotOf(fields, k) < |m| && Fresh(fields, st, k)
    requires var slot := m[SlotOf(fields, k)];
             SlotTyped(fields[k], slot) && slot.Arr? && slot.items != [] && EncodeField(fields[k], slot) == Some(e)
    requires |e| < U63
    ensures DecodeRecords(fields, st, e + t)
         == if SendableSlot(fields[k], m[SlotOf(fields, k)])
            then DecodeRecords(fields, AfterField(fields, m, k, st), t) else Failed
    decreases fields[k], 2
  {
    hide DecodeRecords, FieldOk, ValueTyped, SendableValue, PackItems, EncodeItems, ScalarTyped;
    var f, s := fields[k], SlotOf(fields, k);
    var items := m[s].items;
    assert Holds(fields, st, k, []);
    assert [] + NormalItems(f, items) == NormalItems(f, items);
    var before := st.msg[s].items;
    assert Splice(before, 0, NormalItems(f, items)) == NormalItems(f, items);
    if f.Packable() {
      PackedFieldRoundTrip(fields, st, k, items, e, t);
    } else {
      ItemsRoundTrip(fields, st, k, [], items, e, t);
    }
  }

  lemma FieldRoundTrip(fields: seq<Field>, m: seq<Slot>, k: nat, st: State, e: Bytes, t: Bytes)
    requires TableOk(fields) && k < |fields| && SlotOf(fields, k) < |m| && Fresh(fields, st, k)
    requires SlotTyped(fields[k], m[SlotOf(fields, k)])
    requires EncodeField(fields[k], m[SlotOf(fields, k)]) == Some(e) && |e| < U63
    ensures DecodeRecords(fields, st, e + t)
         == if SendableSlot(fields[k], m[SlotOf(fields, k)])
            then DecodeRecords(fields, AfterField(fields, m, k, st), t) else Failed
    decreases fields[k], 3
  {
    var f, slot := fields[k], m[SlotOf(fields, k)];
    if slot.Arr? && slot.items != [] {
      ArrayFieldRoundTrip(fields, m, k, st, e, t);
    } else if Present(f, slot) {
      SingleFieldRoundTrip(fields, m, k, st, e, t);
    } else {
      hide DecodeRecords;
      assert e + t == t;
      assert slot.Arr? ==> SendableItems(f, []);
    }
  }

  // ---------- messages ----------

  lemma TypedAt(fields: seq<Field>, m: seq<Slot>, k: nat)
    requires MessageTyped(fields, m) && k < |fields|
    ensures |m| == SlotCount(fields) && SlotOf(fields, k) < |m| && SlotTyped(fields[k], m[SlotOf(fields, k)])
  {
  }

  /** The state after the fields from `k` on have been read. */
  function AfterFields(fields: seq<Field>, m: seq<Slot>, k: nat, st: State): State
    requires k <= |fields| && |m| == |st.msg| == SlotCount(fields)
    decreases |fields| - k
  {
    if k == |fields| then st
    else
      SlotInRange(fields, k);
      AfterFields(fields, m, k + 1, AfterField(fields, m, k, st))
  }

  /** The records of the fields from `k` on, with anything behind them. */
  lemma {:induction false} FieldsRoundTrip(fields: seq<Field>, m: seq<Slot>, k: nat, st: State, b: Bytes, t: Bytes)
    requires TableOk(fields) && MessageTyped(fields, m) && k <= |fields| && Fresh(fields, st, k)
    requires EncodeFrom(fields, m, k) == Some(b) && |b| < U63
    ensures DecodeRecords(fields, st, b + t)
         == if SendableFrom(fields, m, k) then DecodeRecords(fields, AfterFields(fields, m, k, st), t) else Failed
    decreases fields, |fields| - k
  {
    hide DecodeRecords, EncodeField, SlotTyped, SendableSlot, AfterField, TableOk;
    assert |st.msg| == |m| == SlotCount(fields);
    hide MessageTyped, SlotOf, SlotCount, Fresh;
    if k == |fields| {
      assert b + t == t;
    } else {
      TypedAt(fields, m, k);
      var s := SlotOf(fields, k);
      var head, tail := EncodeField(fields[k], m[s]), EncodeFrom(fields, m, k + 1);
      SplitConcat(head, tail, b, t);
      FieldRoundTrip(fields, m, k, st, head.value, tail.value + t);
      if SendableSlot(fields[k], m[s]) {
        AfterFieldFresh(fields, m, k, st);
        FieldsRoundTrip(fields, m, k + 1, AfterField(fields, m, k, st), tail.value, t);
      }
    }
  }

  lemma RequiredSeen(fields: seq<Field>, m: seq<Slot>, k: nat, st: State)
    requires k < |fields| && SlotOf(fields, k) < |m| && SlotOf(fields, k) < |st.msg|
    requires SlotTyped(fields[k], m[SlotOf(fields, k)])
    ensures fields[k].Required() ==> k in AfterField(fields, m, k, st).seen
    ensures st.seen <= AfterField(fields, m, k, st).seen
  {
    hide ValueTyped, NormalSlot, IsProto3Zero;
  }

  /** Reading all fields yields the normal form, sees every required field and leaves no array half done. */
  lemma {:induction false} AfterFieldsResult(fields: seq<Field>, m: seq<Slot>, k: nat, st: State)
    requires MessageTyped(fields, m) && k <= |fields| && Fresh(fields, st, k)
    ensures var st' := AfterFields(fields, m, k, st);
            && st'.msg == NormalFrom(fields, m, k, st.msg) && FixedComplete(fields, st')
            && st.seen <= st'.seen && forall i | k <= i < |fields| && fields[i].Required() :: i in st'.seen
    decreases |fields| - k
  {
    hide SlotTyped, DefaultSlot, NormalSlot, SlotOf;
    if k < |fields| {
      TypedAt(fields, m, k);
      AfterFieldFresh(fields, m, k, st);
      RequiredSeen(fields, m, k, st);
      hide MessageTyped, Written, SlotCount;
      AfterFieldsResult(fields, m, k + 1, AfterField(fields, m, k, st));
    }
  }

  /** A message and anything behind it, read by the record loop from the default struct. */
  lemma RecordsRoundTrip(fields: seq<Field>, m: seq<Slot>, b: Bytes, t: Bytes) returns (st: State)
    requires TableOk(fields) && MessageTyped(fields, m)
    requires EncodeMessage(fields, m) == Some(b) && |b| < U63
    ensures st.msg == NormalMessage(fields, m) && Complete(fields, st)
    ensures DecodeRecords(fields, Start(DefaultMessage(fields)), b + t)
         == if Sendable(fields, m) then DecodeRecords(fields, st, t) else Failed
    decreases fields, |fields| + 1
  {
    var st0 := Start(DefaultMessage(fields));
    DefaultMessageLength(fields);
    forall j | 0 <= j < |fields|
      ensures SlotOf(fields, j) < |st0.msg| && st0.msg[SlotOf(fields, j)] == DefaultSlot(fields[j])
    {
      DefaultMessageAt(fields, j);
    }
    assert Fresh(fields, st0, 0);
    hide DecodeRecords, Fresh, SendableFrom, EncodeFrom, TableOk, MessageTyped, AfterField;
    FieldsRoundTrip(fields, m, 0, st0, b, t);
    AfterFieldsResult(fields, m, 0, st0);
    st := AfterFields(fields, m, 0, st0);
  }

  /** `pb_decode` of what `pb_encode` wrote. */
  lemma MessageRoundTrip(fields: seq<Field>, m: seq<Slot>, b: Bytes)
    requires TableOk(fields) && MessageTyped(fields, m)
    requires EncodeMessage(fields, m) == Some(b) && |b| < U63
    ensures DecodeMessage(fields, b) == if Sendable(fields, m) then Ok(NormalMessage(fields, m), []) else Fail
    decreases fields, |fields| + 2
  {
    hide TableOk, MessageTyped, EncodeMessage, NormalMessage, Sendable, DefaultMessage, Complete;
    var st := RecordsRoundTrip(fields, m, b, []);
    assert b + [] == b;
  }
}
