/** The packed and the unpacked form of a repeated scalar field mean the same. */
module Packing {
  import opened Wrappers
  import opened Bits
  import opened Varint
  import opened Message
  import opened Encode
  import opened Decode
  import opened Records
  import opened ScalarLaws
  import opened RoundTrip

  /** One record of a repeated scalar field: a single item, or a packed chunk of any length. */
  datatype Chunk = Single(v: Value) | Pack(vs: seq<Value>)

  function ChunkItems(c: Chunk): seq<Value>
  {
    match c
    case Single(v) => [v]
    case Pack(vs) => vs
  }

  function AllItems(chunks: seq<Chunk>): seq<Value>
  {
    if chunks == [] then [] else ChunkItems(chunks[0]) + AllItems(chunks[1..])
  }

  /** The record on the wire; `None` if an item is not encodable or a chunk too long for its length prefix. */
  function ChunkBytes(f: Field, c: Chunk): Option<Bytes>
  {
    match c
    case Single(v) => Concat(Some(FieldTag(f)), EncodeScalar(f, v))
    case Pack(vs) =>
      if PackItems(f, vs).Some? && |PackItems(f, vs).value| < U32
      then Some(Tag(WT_STRING, f.tag) + Delimited(PackItems(f, vs).value)) else None
  }

  function AllBytes(f: Field, chunks: seq<Chunk>): Option<Bytes>
  {
    if chunks == [] then Some([]) else Concat(ChunkBytes(f, chunks[0]), AllBytes(f, chunks[1..]))
  }

  /** A packed chunk with more items than the array has room for is an "array overflow". */
  lemma {:induction false} PackedOverflow(f: Field, a: Items, items: seq<Value>, data: Bytes)
    requires FieldOk(f) && f.Packable() && PackItems(f, items) == Some(data)
    requires forall i | 0 <= i < |items| :: ScalarTyped(f, items[i])
    requires a.count <= |a.items| && a.count <= f.arraySize < a.count + |items|
    ensures DecodePacked(f, a, data).None?
    decreases |items|
  {
    hide EncodeScalar, DecodeScalar, ScalarTyped, FieldOk;
    var v := items[0];
    SplitConcat(EncodeScalar(f, v), PackItems(f, items[1..]), data, []);
    var rest := PackItems(f, items[1..]).value;
    assert data == EncodeScalar(f, v).value + rest;
    assert ScalarKept(f, v);
    ScalarNotEmpty(f, v);
    if a.count < f.arraySize {
      ScalarRoundTrip(f, v, EncodeScalar(f, v).value, rest);
      PackedOverflow(f, Items(PutItem(a.items, a.count, v), a.count + 1), items[1..], rest);
    }
  }

  /** The state once records of the repeated field `k` have brought `vs` in all, even none: a fixed array is then in progress. */
  function Taken(fields: seq<Field>, st: State, k: nat, vs: seq<Value>): State
    requires k < |fields| && SlotOf(fields, k) < |st.msg| && st.msg[SlotOf(fields, k)].Arr?
  {
    var s := SlotOf(fields, k);
    var st' := st.(msg := st.msg[s := Arr(Splice(st.msg[s].items, 0, vs))]);
    if fields[k].FixedCount() then st'.(fixedField := Some(k), fixedCount := |vs|) else st'
  }

  lemma TakenIsReceived(fields: seq<Field>, st: State, k: nat, vs: seq<Value>)
    requires k < |fields| && SlotOf(fields, k) < |st.msg| && st.msg[SlotOf(fields, k)].Arr?
    requires vs != [] || fields[k].Counted()
    ensures Taken(fields, st, k, vs) == Received(fields, st, k, vs)
  {
    var s := SlotOf(fields, k);
    if vs == [] {
      assert Splice(st.msg[s].items, 0, vs) == st.msg[s].items;
      assert st.msg[s := Arr(st.msg[s].items)] == st.msg;
    }
  }

  lemma TakenHolds(fields: seq<Field>, st: State, k: nat, vs: seq<Value>, ws: seq<Value>)
    requires k < |fields| && Holds(fields, st, k, vs) && |vs| + |ws| <= fields[k].arraySize
    ensures Holds(fields, Taken(fields, st, k, vs + ws), k, vs + ws)
  {
    assert |st.msg[SlotOf(fields, k)].items| >= |vs|;
    if vs + ws == [] { assert vs == vs + ws; }
  }

  lemma TakenTwice(fields: seq<Field>, st: State, k: nat, vs: seq<Value>, ws: seq<Value>)
    requires k < |fields| && SlotOf(fields, k) < |st.msg| && st.msg[SlotOf(fields, k)].Arr?
    ensures Taken(fields, Taken(fields, st, k, vs), k, vs + ws) == Taken(fields, st, k, vs + ws)
  {
    var items := st.msg[SlotOf(fields, k)].items;
    assert Splice(Splice(items, 0, vs), 0, vs + ws) == Splice(items, 0, vs + ws);
  }

  /** A packed record without items starts a fixed array, if it is not in progress, and adds nothing. */
  lemma EmptyChunk(fields: seq<Field>, st: State, k: nat, vs: seq<Value>, t: Bytes)
    requires k < |fields| && fields[k].FixedCount() && fields[k].Packable() && Holds(fields, st, k, vs)
    ensures DecodeField(fields, st, k, WT_STRING, Delimited([]) + t) == Ok(Taken(fields, st, k, vs), t)
  {
    hide ReadDelimited, Delimited;
    DelimitedRoundTrip([], t);
    var items := st.msg[SlotOf(fields, k)].items;
    assert Splice(items, 0, vs) == items;
    assert DecodePacked(fields[k], Items(items, |vs|), []) == Some(Items(items, |vs|));
  }

  /** One chunk appends its items, or fails if they do not fit. */
  lemma ChunkStep(fields: seq<Field>, st: State, k: nat, vs: seq<Value>, c: Chunk, b: Bytes, t: Bytes)
    requires TableOk(fields) && k < |fields| && fields[k].Packable() && Holds(fields, st, k, vs)
    requires |vs| <= fields[k].arraySize && ChunkBytes(fields[k], c) == Some(b)
    requires forall i | 0 <= i < |ChunkItems(c)| :: ScalarTyped(fields[k], ChunkItems(c)[i])
    ensures DecodeRecords(fields, st, b + t)
         == if |vs| + |ChunkItems(c)| <= fields[k].arraySize
            then DecodeRecords(fields, Taken(fields, st, k, vs + ChunkItems(c)), t) else Failed
  {
    hide DecodeRecords, DecodeField, PackItems, EncodeScalar, DecodeScalar, Delimited, ReadDelimited, DecodePacked, FieldOk, ScalarTyped, Tag, Received, Taken;
    var f := fields[k];
    assert FieldOk(f);
    match c
    case Single(v) =>
      var e := EncodeScalar(f, v).value;
      assert b + t == FieldTag(f) + (e + t);
      FieldStep(fields, st, k, WireType(f.ltype), e + t);
      OneItem(fields, st, k, vs, WireType(f.ltype), e + t);
      assert ScalarTyped(f, ChunkItems(c)[0]);
      assert ScalarKept(f, v);
      ScalarRoundTrip(f, v, e, t);
      TakenIsReceived(fields, st, k, vs + [v]);
    case Pack(ws) =>
      assert forall i | 0 <= i < |ws| :: ScalarTyped(f, ChunkItems(c)[i]) && ChunkItems(c)[i] == ws[i];
      var data := PackItems(f, ws).value;
      var items := st.msg[SlotOf(fields, k)].items;
      assert b + t == Tag(WT_STRING, f.tag) + (Delimited(data) + t);
      FieldStep(fields, st, k, WT_STRING, Delimited(data) + t);
      DelimitedRoundTrip(data, t);
      if |vs| + |ws| > f.arraySize {
        PackedOverflow(f, Items(items, |vs|), ws, data);
        PackedRecordFails(fields, st, k, vs, Delimited(data) + t);
      } else if ws == [] && f.FixedCount() {
        PackedNothing(f);
        assert vs + ws == vs;
        EmptyChunk(fields, st, k, vs, t);
      } else {
        PackedRoundTrip(f, Items(items, |vs|), ws, data);
        PackedRecord(fields, st, k, vs, ws, Delimited(data) + t, data, t);
        TakenIsReceived(fields, st, k, vs + ws);
      }
  }

  lemma PackedNothing(f: Field)
    ensures PackItems(f, []) == Some([])
  {
  }

  /**
   Any split of a list into packed chunks and single items, in order, appends the same items,
   and is accepted exactly when they all fit the array.
   */
  lemma {:induction false} PackedAndUnpackedAgree(
      fields: seq<Field>, st: State, k: nat, vs: seq<Value>, chunks: seq<Chunk>, b: Bytes, t: Bytes)
    requires TableOk(fields) && k < |fields| && fields[k].Packable() && Holds(fields, st, k, vs)
    requires |vs| <= fields[k].arraySize && AllBytes(fields[k], chunks) == Some(b)
    requires forall i | 0 <= i < |AllItems(chunks)| :: ScalarTyped(fields[k], AllItems(chunks)[i])
    ensures DecodeRecords(fields, st, b + t)
         == if chunks == [] then DecodeRecords(fields, st, t)
            else if |vs| + |AllItems(chunks)| <= fields[k].arraySize
            then DecodeRecords(fields, Taken(fields, st, k, vs + AllItems(chunks)), t) else Failed
    decreases |chunks|
  {
    hide DecodeRecords, Holds, ScalarTyped, TableOk, ChunkBytes, SlotOf, ChunkItems, Splice;
    var f := fields[k];
    assert SlotOf(fields, k) < |st.msg| && st.msg[SlotOf(fields, k)].Arr? by { HoldsArray(fields, st, k, vs); }
    if chunks == [] {
      assert b + t == t;
    } else {
      var ws, all, rest := ChunkItems(chunks[0]), AllItems(chunks), AllItems(chunks[1..]);
      var head, tail := ChunkBytes(f, chunks[0]), AllBytes(f, chunks[1..]);
      SplitConcat(head, tail, b, t);
      assert forall i | 0 <= i < |ws| :: ws[i] == all[i];
      assert forall i | 0 <= i < |rest| :: rest[i] == all[|ws| + i];
      ChunkStep(fields, st, k, vs, chunks[0], head.value, tail.value + t);
      if |vs| + |ws| <= f.arraySize {
        var st' := Taken(fields, st, k, vs + ws);
        TakenHolds(fields, st, k, vs, ws);
        PackedAndUnpackedAgree(fields, st', k, vs + ws, chunks[1..], tail.value, t);
        TakenTwice(fields, st, k, vs + ws, rest);
        assert vs + all == (vs + ws) + rest;
        if chunks[1..] == [] { assert vs + all == vs + ws; }
      }
    }
  }

  lemma HoldsArray(fields: seq<Field>, st: State, k: nat, vs: seq<Value>)
    requires k < |fields| && Holds(fields, st, k, vs)
    ensures SlotOf(fields, k) < |st.msg| && st.msg[SlotOf(fields, k)].Arr?
  {
  }
}
