/**
 Which members a run of `pb_decode_noinit` touches, and which it insists on: both follow
 from the tags met on the wire.
 */
module Required {
  import opened Varint
  import opened Message
  import opened Encode
  import opened Decode
  import opened Records
  import opened RoundTrip
  import opened Compatibility
  import opened Wrappers
  import opened Effects

  /** The tags of the records the loop starts to decode or skip. */
  function TagsRead(fields: seq<Field>, st: State, s: Bytes): set<nat>
    decreases |s|
  {
    if s == [] then {}
    else
      match DecodeVarint32(s)
      case Fail => {}
      case Ok(key, r) =>
        if key == 0 then {}
        else
          {key / 8} +
          match DecodeRecord(fields, st, key / 8, key % 8, r)
          case Fail => {}
          case Ok(st', r') => TagsRead(fields, st', r')
  }

  /** The state before the record that fails, or the last state if none does. */
  function Reached(fields: seq<Field>, st: State, s: Bytes): State
    decreases |s|
  {
    if s == [] then st
    else
      match DecodeVarint32(s)
      case Fail => st
      case Ok(key, r) =>
        if key == 0 then st
        else
          match DecodeRecord(fields, st, key / 8, key % 8, r)
          case Fail => st
          case Ok(st', r') => Reached(fields, st', r')
  }

  /** The tag of the record that fails, if there is one and it has a tag. */
  function Broken(fields: seq<Field>, st: State, s: Bytes): set<nat>
    decreases |s|
  {
    if s == [] then {}
    else
      match DecodeVarint32(s)
      case Fail => {}
      case Ok(key, r) =>
        if key == 0 then {}
        else
          match DecodeRecord(fields, st, key / 8, key % 8, r)
          case Fail => {key / 8}
          case Ok(st', r') => Broken(fields, st', r')
  }

  /** Slot `k` belongs to a field with one of these tags. */
  predicate Named(fields: seq<Field>, k: nat, tags: set<nat>)
  {
    exists i | 0 <= i < |fields| :: SlotOf(fields, i) == k && fields[i].tag in tags
  }

  /** A record writes the slot of its own field only, and marks only that field. */
  lemma RecordFrame(fields: seq<Field>, st: State, tag: nat, wireType: nat, s: Bytes)
    requires TableOk(fields) && DecodeRecord(fields, st, tag, wireType, s).Ok?
    ensures var st' := DecodeRecord(fields, st, tag, wireType, s).value;
            && |st'.msg| == |st.msg|
            && (forall k | 0 <= k < |st.msg| && !Named(fields, k, {tag}) :: st'.msg[k] == st.msg[k])
            && (forall i | 0 <= i < |fields| && fields[i].Required() ::
                  i in st'.seen <==> i in st.seen || fields[i].tag == tag)
  {
    hide DecodeItems, DecodeSingle, DecodeVarint32, SkipField, FieldOk;
    var i := FindTag(fields, tag, 0);
    if i < |fields| {
      assert forall k | k == SlotOf(fields, i) :: Named(fields, k, {tag});
    }
  }

  /**
   A run, even one that fails, leaves every slot alone whose tags were not met; one that does not
   fail has seen exactly the required fields that were.
   */
  lemma {:induction false} RunFrame(fields: seq<Field>, st: State, s: Bytes)
    requires TableOk(fields)
    ensures var st', tags := Reached(fields, st, s), TagsRead(fields, st, s);
            && |st'.msg| == |st.msg| && Broken(fields, st, s) <= tags
            && (forall k | 0 <= k < |st.msg| && !Named(fields, k, tags) :: st'.msg[k] == st.msg[k])
    ensures var run := DecodeRecords(fields, st, s);
            !run.Failed? ==>
              && run.st == Reached(fields, st, s) && Broken(fields, st, s) == {}
              && forall i | 0 <= i < |fields| && fields[i].Required() ::
                   i in run.st.seen <==> i in st.seen || fields[i].tag in TagsRead(fields, st, s)
    decreases |s|
  {
    hide DecodeRecord, DecodeVarint32, TableOk;
    if s != [] && DecodeVarint32(s).Ok? && DecodeVarint32(s).value != 0 {
      var Ok(key, r) := DecodeVarint32(s);
      if DecodeRecord(fields, st, key / 8, key % 8, r).Ok? {
        var Ok(st1, r1) := DecodeRecord(fields, st, key / 8, key % 8, r);
        RecordFrame(fields, st, key / 8, key % 8, r);
        RunFrame(fields, st1, r1);
        forall k | 0 <= k < |st.msg| && !Named(fields, k, TagsRead(fields, st, s))
          ensures !Named(fields, k, {key / 8}) && !Named(fields, k, TagsRead(fields, st1, r1))
        {
        }
      }
    }
  }

  /** A record, even one that fails, writes the slot of its own field only. */
  lemma WrittenFrame(fields: seq<Field>, st: State, tag: nat, wireType: nat, s: Bytes)
    ensures var m := WrittenRecord(fields, st, tag, wireType, s);
            |m| == |st.msg| && forall k | 0 <= k < |m| && !Named(fields, k, {tag}) :: m[k] == st.msg[k]
  {
    hide WrittenItems, WrittenSlot, SlotOf;
    var i := FindTag(fields, tag, 0);
    if i < |fields| {
      assert forall k | k == SlotOf(fields, i) :: Named(fields, k, {tag});
    }
  }

  /** What a run leaves: all records in front of the one that fails are in it, and only the slot of that one may differ. */
  lemma {:induction false} WrittenIsReached(fields: seq<Field>, st: State, s: Bytes)
    ensures var m, st' := WrittenRun(fields, st, s), Reached(fields, st, s);
            && |m| == |st'.msg|
            && forall k | 0 <= k < |m| && !Named(fields, k, Broken(fields, st, s)) :: m[k] == st'.msg[k]
    decreases |s|
  {
    hide DecodeRecord, WrittenRecord, DecodeVarint32;
    if s != [] && DecodeVarint32(s).Ok? && DecodeVarint32(s).value != 0 {
      var Ok(key, r) := DecodeVarint32(s);
      match DecodeRecord(fields, st, key / 8, key % 8, r)
      case Ok(st', r') => WrittenIsReached(fields, st', r');
      case Fail => WrittenFrame(fields, st, key / 8, key % 8, r);
    }
  }

  /** Accepted or not, members that no record names come out as they went in. */
  lemma LeftAlone(fields: seq<Field>, st: State, s: Bytes, k: nat)
    requires TableOk(fields) && k < |st.msg| && !Named(fields, k, TagsRead(fields, st, s))
    ensures |WrittenRun(fields, st, s)| == |st.msg| && WrittenRun(fields, st, s)[k] == st.msg[k]
  {
    hide Reached, TagsRead, Broken, WrittenRun, TableOk;
    RunFrame(fields, st, s);
    WrittenIsReached(fields, st, s);
  }

  /** With all records decoded, success is exactly that each of the first 64 required fields was met on the wire. */
  lemma RequiredIffOnWire(fields: seq<Field>, m: seq<Slot>, s: Bytes)
    requires TableOk(fields)
    ensures DecodeNoInit(fields, m, s).Ok?
       <==> var run := DecodeRecords(fields, Start(m), s);
            && !run.Failed? && FixedComplete(fields, run.st)
            && forall i | 0 <= i < |fields| && Tracked(fields, i) :: fields[i].tag in TagsRead(fields, Start(m), s)
  {
    hide DecodeRecords, TagsRead, TableOk, RequiredIndex;
    RunFrame(fields, Start(m), s);
  }

  /** Members no record names come out as they went in. */
  lemma UnnamedUntouched(fields: seq<Field>, m: seq<Slot>, s: Bytes, k: nat)
    requires TableOk(fields) && k < |m| && !Named(fields, k, TagsRead(fields, Start(m), s))
    requires DecodeNoInit(fields, m, s).Ok?
    ensures |DecodeNoInit(fields, m, s).value| == |m| && DecodeNoInit(fields, m, s).value[k] == m[k]
  {
    hide DecodeRecords, TagsRead, TableOk;
    RunFrame(fields, Start(m), s);
  }

  /** The 65th required field and those behind it may be missing. */
  lemma RequiredPastLimit(fields: seq<Field>, i: nat)
    requires i < |fields| && fields[i].Required()
    ensures Tracked(fields, i) <==> |RequiredBefore(fields, i)| < 64
    ensures forall j | j in RequiredBefore(fields, i) :: j < i && fields[j].Required()
  {
    RequiredBeforeSize(fields, i);
  }

  /** The required fields in front of field `k`. */
  function RequiredBefore(fields: seq<Field>, k: nat): (s: set<nat>)
    requires k <= |fields|
  {
    set j: nat | j < k && fields[j].Required()
  }

  lemma {:induction false} RequiredBeforeSize(fields: seq<Field>, k: nat)
    requires k <= |fields|
    ensures |RequiredBefore(fields, k)| == RequiredIndex(fields, k)
  {
    if k == 0 {
      assert RequiredBefore(fields, 0) == {};
    } else {
      RequiredBeforeSize(fields, k - 1);
      var before := RequiredBefore(fields, k - 1);
      assert RequiredBefore(fields, k) == if fields[k - 1].Required() then before + {k - 1} else before;
    }
  }

  // ---------- a table of required bools ----------

  /** `n` required bools with the tags 1 to `n`. */
  function Bools(n: nat): (fields: seq<Field>)
    ensures |fields| == n
  {
    seq(n, i requires 0 <= i < n => Field(i + 1, Static, Required, LBool, 0, 0, 1, 0, [], None))
  }

  /** Records that set the first `k` of them. */
  function BoolRecords(k: nat): Bytes
  {
    if k == 0 then [] else BoolRecords(k - 1) + (Tag(WT_VARINT, k) + [1])
  }

  lemma {:induction false} BoolsLayout(n: nat, i: nat)
    requires i < n
    ensures SlotOf(Bools(n), i) == i && RequiredIndex(Bools(n), i) == i
  {
    if i > 0 { BoolsLayout(n, i - 1); }
  }

  lemma {:induction false} BoolsRun(n: nat, k: nat, m: seq<Slot>)
    requires k <= n < 0x1FFF_FFFF && |m| == n
    ensures var run := DecodeRecords(Bools(n), Start(m), BoolRecords(k));
            && run.Ended? && |run.st.msg| == n && run.st.fixedField.None?
            && forall i: nat :: i in run.st.seen <==> i < k
    decreases k
  {
    hide Tag, DecodeField, DecodeVarint32, DecodeRecords, TableOk, Bools;
    var fields := Bools(n);
    if k == 0 {
      EmptyRun(fields, Start(m));
    } else {
      BoolsRun(n, k - 1, m);
      var st := DecodeRecords(fields, Start(m), BoolRecords(k - 1)).st;
      RecordsExtend(fields, Start(m), BoolRecords(k - 1), Tag(WT_VARINT, k) + [1]);
      BoolsOk(n, k - 1);
      FieldStep(fields, st, k - 1, WT_VARINT, [1]);
      BoolStep(n, k - 1, st);
      EmptyRun(fields, DecodeField(fields, st, k - 1, WT_VARINT, [1]).value);
    }
  }

  lemma BoolsOk(n: nat, i: nat)
    requires i < n < 0x1FFF_FFFF
    ensures TableOk(Bools(n)) && Bools(n)[i].tag == i + 1
  {
  }

  lemma EmptyRun(fields: seq<Field>, st: State)
    ensures DecodeRecords(fields, st, []) == Ended(st)
  {
  }

  lemma BoolStep(n: nat, i: nat, st: State)
    requires i < n && |st.msg| == n
    ensures DecodeField(Bools(n), st, i, WT_VARINT, [1])
         == Ok(st.(msg := st.msg[i := Plain(BoolV(true))], seen := st.seen + {i}), [])
  {
    hide DecodeVarint32, SlotOf;
    BoolsLayout(n, i);
    OneByteVarint(1, []);
  }

  lemma BoolsTracked(n: nat)
    ensures SlotCount(Bools(n)) == n
    ensures forall i | 0 <= i < n :: Tracked(Bools(n), i) <==> i < 64
  {
    hide RequiredIndex, SlotOf;
    forall i | 0 <= i < n ensures Tracked(Bools(n), i) <==> i < 64 { BoolsLayout(n, i); }
    if n > 0 { BoolsLayout(n, n - 1); }
  }

  /** With `n` required bools the first `k` are enough exactly when they are all, or 64 at least: the 65th may be missing. */
  lemma RequiredLimit(n: nat, k: nat)
    requires k <= n < 0x1FFF_FFFF
    ensures DecodeMessage(Bools(n), BoolRecords(k)).Ok? <==> k == n || k >= 64
  {
    hide DecodeRecords, Tracked, Bools, BoolRecords, DefaultMessage, SlotCount;
    var fields := Bools(n);
    var m := DefaultMessage(fields);
    DefaultMessageLength(fields);
    BoolsTracked(n);
    BoolsRun(n, k, m);
    if k < n && k < 64 { assert Tracked(fields, k); }
  }

  // ---------- fixed arrays: all or nothing ----------

  /** No item is indeterminate, up to item `n`. */
  predicate Determined(items: seq<Value>, n: nat)
  {
    forall j | 0 <= j < n && j < |items| :: !items[j].Indeterminate?
  }

  /** What the loop knows of the fixed array `i`, of which a record has been met or not. */
  predicate FixedProgress(fields: seq<Field>, st: State, i: nat, met: bool)
    requires i < |fields|
  {
    var k, size := SlotOf(fields, i), fields[i].arraySize;
    && k < |st.msg| && st.msg[k].Arr? && |st.msg[k].items| == size
    && (st.fixedField == Some(i) ==> met && st.fixedCount <= size && Determined(st.msg[k].items, st.fixedCount))
    && (met && st.fixedField != Some(i) ==> Determined(st.msg[k].items, size))
  }

  lemma ValueDetermined(f: Field, prior: Value, s: Bytes)
    requires DecodeValue(f, prior, s).Ok?
    ensures !DecodeValue(f, prior, s).value.Indeterminate?
  {
    hide DecodeVarint, DecodeVarint32, DecodeNoInit;
  }

  lemma {:induction false} PackedDetermined(f: Field, a: Items, s: Bytes)
    requires f.Packable() && DecodePacked(f, a, s).Some?
    requires a.count <= |a.items| == f.arraySize && Determined(a.items, a.count)
    ensures var a' := DecodePacked(f, a, s).value;
            a'.count <= |a'.items| == f.arraySize && Determined(a'.items, a'.count)
    decreases |s|
  {
    hide DecodeScalar;
    if s != [] {
      var Ok(v, r) := DecodeScalar(f, s);
      assert DecodeValue(f, v, s) == Ok(v, r);
      ValueDetermined(f, v, s);
      PackedDetermined(f, Items(PutItem(a.items, a.count, v), a.count + 1), r);
    }
  }

  lemma ItemsDetermined(f: Field, wireType: nat, a: Items, s: Bytes)
    requires DecodeItems(f, wireType, a, s).Ok?
    requires a.count <= |a.items| == f.arraySize && Determined(a.items, a.count)
    ensures var a' := DecodeItems(f, wireType, a, s).value;
            a'.count <= |a'.items| == f.arraySize && Determined(a'.items, a'.count)
  {
    hide DecodeValue, DecodePacked, ReadDelimited, DefaultValue;
    if wireType == WT_STRING && f.Packable() {
      PackedDetermined(f, a, ReadDelimited(s).value);
    } else {
      ValueDetermined(f, DefaultValue(f), s);
    }
  }

  lemma FixedStep(fields: seq<Field>, st: State, i: nat, met: bool, tag: nat, wireType: nat, s: Bytes)
    requires TableOk(fields) && i < |fields| && fields[i].FixedCount() && FixedProgress(fields, st, i, met)
    requires DecodeRecord(fields, st, tag, wireType, s).Ok?
    ensures FixedProgress(fields, DecodeRecord(fields, st, tag, wireType, s).value, i, met || tag == fields[i].tag)
  {
    hide DecodeItems, DecodeSingle, DecodeVarint32, SkipField, FieldOk, SlotOf;
    var j := FindTag(fields, tag, 0);
    if j < |fields| {
      if j == i {
        var items := st.msg[SlotOf(fields, i)].items;
        ItemsDetermined(fields[i], wireType, Items(items, if st.fixedField == Some(i) then st.fixedCount else 0), s);
      } else if SlotOf(fields, j) == SlotOf(fields, i) {
        SharedSlot(fields, if i < j then i else j, if i < j then j else i);
      }
    }
  }

  lemma {:induction false} FixedRun(fields: seq<Field>, st: State, i: nat, met: bool, s: Bytes)
    requires TableOk(fields) && i < |fields| && fields[i].FixedCount() && FixedProgress(fields, st, i, met)
    requires !DecodeRecords(fields, st, s).Failed?
    ensures FixedProgress(fields, DecodeRecords(fields, st, s).st, i, met || fields[i].tag in TagsRead(fields, st, s))
    decreases |s|
  {
    hide DecodeRecord, DecodeVarint32, TableOk, FixedProgress;
    if s != [] && DecodeVarint32(s).value != 0 {
      var Ok(key, r) := DecodeVarint32(s);
      var Ok(st1, r1) := DecodeRecord(fields, st, key / 8, key % 8, r);
      FixedStep(fields, st, i, met, key / 8, key % 8, r);
      FixedRun(fields, st1, i, met || key / 8 == fields[i].tag, r1);
    }
  }

  /** An accepted message brings all items of a fixed array, or has no record of it and leaves it alone. */
  lemma FixedAllOrNothing(fields: seq<Field>, m: seq<Slot>, s: Bytes, i: nat)
    requires TableOk(fields) && i < |fields| && fields[i].FixedCount() && DecodeNoInit(fields, m, s).Ok?
    requires var k := SlotOf(fields, i); k < |m| && m[k].Arr? && |m[k].items| == fields[i].arraySize
    ensures var k, m' := SlotOf(fields, i), DecodeNoInit(fields, m, s).value;
            && k < |m'| && m'[k].Arr? && |m'[k].items| == fields[i].arraySize
            && if fields[i].tag in TagsRead(fields, Start(m), s) then Determined(m'[k].items, fields[i].arraySize)
               else m'[k] == m[k]
  {
    hide DecodeRecords, TagsRead, TableOk;
    var k := SlotOf(fields, i);
    FixedRun(fields, Start(m), i, false, s);
    if fields[i].tag !in TagsRead(fields, Start(m), s) {
      forall j | 0 <= j < |fields| && SlotOf(fields, j) == k ensures j == i {
        if j != i { SharedSlot(fields, if i < j then i else j, if i < j then j else i); }
      }
      UnnamedUntouched(fields, m, s, k);
    }
  }
}
