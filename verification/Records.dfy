/** Single records and runs of records, as the record loop of `pb_decode_noinit` sees them. */
module Records {
  import opened Wrappers
  import opened Varint
  import opened Message
  import opened Encode
  import opened Decode

  /** A tag that was written is read back, and its field is looked up. */
  lemma RecordStep(fields: seq<Field>, st: State, wireType: nat, tag: nat, p: Bytes)
    requires wireType < 8 && 1 <= tag < 0x2000_0000
    ensures DecodeRecords(fields, st, Tag(wireType, tag) + p)
         == match DecodeRecord(fields, st, tag, wireType, p)
            case Fail => Failed
            case Ok(st', r) => DecodeRecords(fields, st', r)
  {
    hide EncodeVarint, DecodeVarint32, DecodeRecord;
    var key := 8 * tag + wireType;
    Varint32RoundTrip(key, p);
    assert key / 8 == tag && key % 8 == wireType;
  }

  /** Tags are distinct, so the search finds the field itself. */
  lemma FindOwnTag(fields: seq<Field>, k: nat)
    requires TableOk(fields) && k < |fields|
    ensures FindTag(fields, fields[k].tag, 0) == k
  {
  }

  /** A record of field `k`. */
  lemma FieldStep(fields: seq<Field>, st: State, k: nat, wireType: nat, p: Bytes)
    requires TableOk(fields) && k < |fields| && wireType < 8
    ensures DecodeRecords(fields, st, Tag(wireType, fields[k].tag) + p)
         == match DecodeField(fields, st, k, wireType, p)
            case Fail => Failed
            case Ok(st', r) => DecodeRecords(fields, st', r)
  {
    hide DecodeField, DecodeRecords, FindTag;
    assert FieldOk(fields[k]);
    RecordStep(fields, st, wireType, fields[k].tag, p);
    FindOwnTag(fields, k);
  }

  // ---------- arrays ----------

  /** `arr` with the items `vs` written from position `k` on. */
  function Splice(arr: seq<Value>, k: nat, vs: seq<Value>): seq<Value>
    requires k <= |arr|
  {
    arr[..k] + vs + if k + |vs| <= |arr| then arr[k + |vs|..] else []
  }

  lemma SpliceStep(arr: seq<Value>, k: nat, vs: seq<Value>)
    requires k <= |arr| && vs != []
    ensures Splice(PutItem(arr, k, vs[0]), k + 1, vs[1..]) == Splice(arr, k, vs)
  {
    assert vs == [vs[0]] + vs[1..];
  }

  /** The repeated field `k` has received the items `vs` so far. */
  predicate Holds(fields: seq<Field>, st: State, k: nat, vs: seq<Value>)
    requires k < |fields|
  {
    var f, s := fields[k], SlotOf(fields, k);
    && f.htype.Repeated? && s < |st.msg| && st.msg[s].Arr?
    && vs <= st.msg[s].items
    && (f.Counted() ==> st.msg[s].items == vs)
    && (f.FixedCount() ==>
          && |st.msg[s].items| == f.arraySize
          && if st.fixedField == Some(k) then st.fixedCount == |vs| else vs == [] && FixedComplete(fields, st))
  }

  /** The state once the repeated field `k` has received `vs` in all. */
  function Received(fields: seq<Field>, st: State, k: nat, vs: seq<Value>): State
    requires k < |fields| && SlotOf(fields, k) < |st.msg| && st.msg[SlotOf(fields, k)].Arr?
  {
    var s := SlotOf(fields, k);
    if vs == [] then st
    else
      var st' := st.(msg := st.msg[s := Arr(Splice(st.msg[s].items, 0, vs))]);
      if fields[k].FixedCount() then st'.(fixedField := Some(k), fixedCount := |vs|) else st'
  }

  lemma ReceivedHolds(fields: seq<Field>, st: State, k: nat, vs: seq<Value>, ws: seq<Value>)
    requires k < |fields| && Holds(fields, st, k, vs) && |vs| + |ws| <= fields[k].arraySize
    ensures Holds(fields, Received(fields, st, k, vs + ws), k, vs + ws)
  {
    var all := vs + ws;
    assert |st.msg[SlotOf(fields, k)].items| >= |vs|;
    if all == [] { assert vs == all; }
  }

  lemma ReceivedNothing(fields: seq<Field>, st: State, k: nat, vs: seq<Value>)
    requires k < |fields| && Holds(fields, st, k, vs)
    ensures Received(fields, st, k, vs) == st
  {
    var s := SlotOf(fields, k);
    var items := st.msg[s].items;
    assert Splice(items, 0, vs) == items;
    assert st.msg[s := Arr(items)] == st.msg;
  }

  lemma ReceivedTwice(fields: seq<Field>, st: State, k: nat, vs: seq<Value>, ws: seq<Value>)
    requires k < |fields| && SlotOf(fields, k) < |st.msg| && st.msg[SlotOf(fields, k)].Arr?
    ensures Received(fields, Received(fields, st, k, vs), k, vs + ws) == Received(fields, st, k, vs + ws)
  {
    var s := SlotOf(fields, k);
    var items := st.msg[s].items;
    if vs != [] && ws != [] {
      assert Splice(Splice(items, 0, vs), 0, vs + ws) == Splice(items, 0, vs + ws);
    } else if ws == [] {
      assert vs + ws == vs;
      assert vs != [] ==> Splice(Splice(items, 0, vs), 0, vs) == Splice(items, 0, vs);
    } else {
      assert vs + ws == ws;
    }
  }

  /** An unpacked record appends one item, and is an error once the array is full. */
  lemma OneItem(fields: seq<Field>, st: State, k: nat, vs: seq<Value>, wireType: nat, p: Bytes)
    requires k < |fields| && Holds(fields, st, k, vs)
    requires !(wireType == WT_STRING && fields[k].Packable())
    ensures DecodeField(fields, st, k, wireType, p)
         == if |vs| >= fields[k].arraySize then Fail
            else match DecodeValue(fields[k], DefaultValue(fields[k]), p)
                 case Fail => Fail
                 case Ok(v, r) => Ok(Received(fields, st, k, vs + [v]), r)
  {
    hide DecodeValue;
    var items := st.msg[SlotOf(fields, k)].items;
    assert forall v :: PutItem(items, |vs|, v) == Splice(items, 0, vs + [v]);
  }

  /** A packed record appends all its items. */
  lemma PackedRecord(fields: seq<Field>, st: State, k: nat, vs: seq<Value>, ws: seq<Value>, p: Bytes, data: Bytes, r: Bytes)
    requires k < |fields| && Holds(fields, st, k, vs) && fields[k].Packable()
    requires ws != [] || fields[k].Counted()
    requires ReadDelimited(p) == Ok(data, r)
    requires var items := st.msg[SlotOf(fields, k)].items;
             DecodePacked(fields[k], Items(items, |vs|), data) == Some(Items(Splice(items, |vs|, ws), |vs| + |ws|))
    ensures DecodeField(fields, st, k, WT_STRING, p) == Ok(Received(fields, st, k, vs + ws), r)
  {
    hide DecodePacked, ReadDelimited;
    var s := SlotOf(fields, k);
    var items := st.msg[s].items;
    assert Splice(items, |vs|, ws) == Splice(items, 0, vs + ws);
    if vs + ws == [] {
      assert vs == [] && items == [] && Splice(items, |vs|, ws) == items;
      assert st.msg[s := Arr(items)] == st.msg;
    }
  }

  lemma PackedRecordFails(fields: seq<Field>, st: State, k: nat, vs: seq<Value>, p: Bytes)
    requires k < |fields| && Holds(fields, st, k, vs) && fields[k].Packable()
    requires ReadDelimited(p).Fail? ||
             DecodePacked(fields[k], Items(st.msg[SlotOf(fields, k)].items, |vs|), ReadDelimited(p).value).None?
    ensures DecodeField(fields, st, k, WT_STRING, p).Fail?
  {
    hide DecodePacked, ReadDelimited;
  }
}
