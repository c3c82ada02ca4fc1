/**
 The order of records: what a run reads from the struct and leaves in it is confined to the slots its
 records name, so runs over different slots commute, and of a scalar field the last record counts.
 */
module Order {
  import opened Varint
  import opened Message
  import opened Encode
  import opened Decode
  import opened Records
  import opened Compatibility
  import opened Required

  /** Some tag is that of a fixed count field; these share the variables that say which one is in progress. */
  predicate NamesFixed(fields: seq<Field>, tags: set<nat>)
  {
    exists i | 0 <= i < |fields| :: fields[i].FixedCount() && fields[i].tag in tags
  }

  function RequiredNamed(fields: seq<Field>, tags: set<nat>): set<nat>
  {
    set i: nat | i < |fields| && fields[i].Required() && fields[i].tag in tags
  }

  /** `st`, with what a run over records with these tags left in `end`. */
  function Patched(fields: seq<Field>, tags: set<nat>, st: State, end: State): State
    requires |st.msg| == |end.msg|
  {
    State(
      seq(|st.msg|, k requires 0 <= k < |st.msg| => if Named(fields, k, tags) then end.msg[k] else st.msg[k]),
      st.seen + RequiredNamed(fields, tags),
      if NamesFixed(fields, tags) then end.fixedField else st.fixedField,
      if NamesFixed(fields, tags) then end.fixedCount else st.fixedCount)
  }

  /** The states are alike for records with these tags. */
  predicate Alike(fields: seq<Field>, tags: set<nat>, st: State, st': State)
  {
    && |st.msg| == |st'.msg|
    && (forall k | 0 <= k < |st.msg| && Named(fields, k, tags) :: st.msg[k] == st'.msg[k])
    && (NamesFixed(fields, tags) ==> st.fixedField == st'.fixedField && st.fixedCount == st'.fixedCount)
  }

  /** A record of field `i` reads and writes its own slot only. */
  lemma FieldLocal(fields: seq<Field>, st: State, st': State, i: nat, wireType: nat, s: Bytes)
    requires i < |fields| && DecodeField(fields, st, i, wireType, s).Ok?
    requires |st.msg| == |st'.msg| && SlotOf(fields, i) < |st.msg| && st.msg[SlotOf(fields, i)] == st'.msg[SlotOf(fields, i)]
    requires fields[i].FixedCount() ==> st.fixedField == st'.fixedField && st.fixedCount == st'.fixedCount
    ensures var Ok(end, r) := DecodeField(fields, st, i, wireType, s);
            var k, fixed := SlotOf(fields, i), fields[i].FixedCount();
            && |end.msg| == |st.msg|
            && DecodeField(fields, st', i, wireType, s)
            == Ok(State(st'.msg[k := end.msg[k]], if fields[i].Required() then st'.seen + {i} else st'.seen,
                        if fixed then end.fixedField else st'.fixedField, if fixed then end.fixedCount else st'.fixedCount), r)
  {
    hide DecodeItems, DecodeSingle, SlotOf;
  }

  lemma FieldFits(fields: seq<Field>, st: State, i: nat, wireType: nat, s: Bytes)
    requires i < |fields| && DecodeField(fields, st, i, wireType, s).Ok?
    ensures SlotOf(fields, i) < |st.msg|
  {
  }

  /** What the tag of field `i` names: the slot of the field, and nothing else. */
  lemma OwnTag(fields: seq<Field>, i: nat)
    requires TableOk(fields) && i < |fields|
    ensures var tags := {fields[i].tag};
            && (forall k :: Named(fields, k, tags) <==> k == SlotOf(fields, i))
            && (NamesFixed(fields, tags) <==> fields[i].FixedCount())
            && RequiredNamed(fields, tags) == if fields[i].Required() then {i} else {}
  {
    hide SlotOf, FieldOk;
    assert forall j | 0 <= j < |fields| :: fields[j].tag in {fields[i].tag} <==> j == i;
  }

  lemma NoOnesTag(fields: seq<Field>, tag: nat)
    requires forall i | 0 <= i < |fields| :: fields[i].tag != tag
    ensures (forall k :: !Named(fields, k, {tag})) && !NamesFixed(fields, {tag}) && RequiredNamed(fields, {tag}) == {}
  {
  }

  lemma KnownLocal(fields: seq<Field>, st: State, st': State, i: nat, wireType: nat, s: Bytes)
    requires TableOk(fields) && i < |fields| && DecodeField(fields, st, i, wireType, s).Ok?
    requires Alike(fields, {fields[i].tag}, st, st')
    ensures var Ok(end, r) := DecodeField(fields, st, i, wireType, s);
            |end.msg| == |st.msg| &&
            DecodeField(fields, st', i, wireType, s) == Ok(Patched(fields, {fields[i].tag}, st', end), r)
  {
    hide DecodeField, TableOk, SlotOf, Named, NamesFixed, RequiredNamed;
    var Ok(end, r) := DecodeField(fields, st, i, wireType, s);
    OwnTag(fields, i);
    FieldFits(fields, st, i, wireType, s);
    var k := SlotOf(fields, i);
    assert st.msg[k] == st'.msg[k];
    FieldLocal(fields, st, st', i, wireType, s);
    assert st'.seen + {} == st'.seen;
    assert Patched(fields, {fields[i].tag}, st', end).msg == st'.msg[k := end.msg[k]];
  }

  lemma UnknownLocal(fields: seq<Field>, st: State, tag: nat)
    requires forall i | 0 <= i < |fields| :: fields[i].tag != tag
    ensures Patched(fields, {tag}, st, st) == st
    ensures forall end: State | |end.msg| == |st.msg| :: Patched(fields, {tag}, st, end) == st
  {
    hide Named, NamesFixed, RequiredNamed;
    NoOnesTag(fields, tag);
    forall end: State | |end.msg| == |st.msg| ensures Patched(fields, {tag}, st, end) == st {
      assert Patched(fields, {tag}, st, end).msg == st.msg;
    }
  }

  /** One record reads and writes its own slot only. */
  lemma RecordLocal(fields: seq<Field>, st: State, st': State, tag: nat, wireType: nat, s: Bytes)
    requires TableOk(fields) && Alike(fields, {tag}, st, st') && DecodeRecord(fields, st, tag, wireType, s).Ok?
    ensures var Ok(end, r) := DecodeRecord(fields, st, tag, wireType, s);
            |end.msg| == |st.msg| && DecodeRecord(fields, st', tag, wireType, s) == Ok(Patched(fields, {tag}, st', end), r)
  {
    hide DecodeField, DecodeVarint32, SkipField, TableOk, SlotOf, Named, NamesFixed, RequiredNamed, Patched;
    var i := FindTag(fields, tag, 0);
    if i < |fields| {
      KnownLocal(fields, st, st', i, wireType, s);
    } else {
      UnknownLocal(fields, st', tag);
    }
  }

  lemma NamedUnion(fields: seq<Field>, a: set<nat>, b: set<nat>)
    ensures forall k :: Named(fields, k, a + b) <==> Named(fields, k, a) || Named(fields, k, b)
    ensures NamesFixed(fields, a + b) <==> NamesFixed(fields, a) || NamesFixed(fields, b)
    ensures RequiredNamed(fields, a + b) == RequiredNamed(fields, a) + RequiredNamed(fields, b)
  {
    hide SlotOf;
    forall k ensures Named(fields, k, a + b) <==> Named(fields, k, a) || Named(fields, k, b) {
      if Named(fields, k, a) {
        var i :| 0 <= i < |fields| && SlotOf(fields, i) == k && fields[i].tag in a;
        assert fields[i].tag in a + b;
      }
      if Named(fields, k, b) {
        var i :| 0 <= i < |fields| && SlotOf(fields, i) == k && fields[i].tag in b;
        assert fields[i].tag in a + b;
      }
    }
    if NamesFixed(fields, a) {
      var i :| 0 <= i < |fields| && fields[i].FixedCount() && fields[i].tag in a;
      assert fields[i].tag in a + b;
    }
    if NamesFixed(fields, b) {
      var i :| 0 <= i < |fields| && fields[i].FixedCount() && fields[i].tag in b;
      assert fields[i].tag in a + b;
    }
  }

  /** `Patched` twice, for the records in front and for those behind. */
  lemma PatchedTwice(fields: seq<Field>, a: set<nat>, b: set<nat>, st: State, mid: State, end: State)
    requires |st.msg| == |mid.msg| == |end.msg|
    requires end == Patched(fields, b, mid, end)
    ensures Patched(fields, b, Patched(fields, a, st, mid), end) == Patched(fields, a + b, st, end)
  {
    hide Named, NamesFixed, RequiredNamed;
    NamedUnion(fields, a, b);
    assert forall k | 0 <= k < |end.msg| && !Named(fields, k, b) :: Patched(fields, b, mid, end).msg[k] == mid.msg[k];
    assert Patched(fields, b, Patched(fields, a, st, mid), end).msg == Patched(fields, a + b, st, end).msg;
  }

  lemma SelfAlike(fields: seq<Field>, tags: set<nat>, st: State)
    ensures Alike(fields, tags, st, st)
  {
  }

  /** A run over complete records does the same to every state that is alike for their tags, and leaves the rest of it alone. */
  lemma {:induction false} RunLocal(fields: seq<Field>, st: State, st': State, s: Bytes)
    requires TableOk(fields) && DecodeRecords(fields, st, s).Ended? && Alike(fields, TagsRead(fields, st, s), st, st')
    ensures var end := DecodeRecords(fields, st, s).st;
            && |end.msg| == |st.msg|
            && DecodeRecords(fields, st', s) == Ended(Patched(fields, TagsRead(fields, st, s), st', end))
    decreases |s|
  {
    hide DecodeRecord, DecodeVarint32, TableOk, Named, NamesFixed, RequiredNamed;
    var tags := TagsRead(fields, st, s);
    if s == [] {
      NoTags(fields, st');
    } else {
      var Ok(key, r) := DecodeVarint32(s);
      var tag, wireType := key / 8, key % 8;
      var Ok(st1, r1) := DecodeRecord(fields, st, tag, wireType, r);
      var rest := TagsRead(fields, st1, r1);
      assert tags == {tag} + rest;
      NamedUnion(fields, {tag}, rest);
      RecordLocal(fields, st, st', tag, wireType, r);
      SelfAlike(fields, {tag}, st);
      RecordLocal(fields, st, st, tag, wireType, r);
      var st1' := Patched(fields, {tag}, st', st1);
      assert Alike(fields, rest, st1, st1');
      RunLocal(fields, st1, st1', r1);
      SelfAlike(fields, rest, st1);
      RunLocal(fields, st1, st1, r1);
      PatchedTwice(fields, {tag}, rest, st', st1, DecodeRecords(fields, st1, r1).st);
    }
  }

  lemma NoTags(fields: seq<Field>, st: State)
    ensures Patched(fields, {}, st, st) == st
  {
    assert RequiredNamed(fields, {}) == {};
    assert Patched(fields, {}, st, st).msg == st.msg;
  }

  /**
   Complete records commute with complete records of other slots, whatever stands around them, as long
   as not both have fixed count fields: one after the other they leave the same state in either order.
   */
  lemma RunsCommute(fields: seq<Field>, st: State, e1: Bytes, e2: Bytes, t: Bytes)
    requires TableOk(fields) && DecodeRecords(fields, st, e1).Ended? && DecodeRecords(fields, st, e2).Ended?
    requires var tags1, tags2 := TagsRead(fields, st, e1), TagsRead(fields, st, e2);
             && (forall k :: !(Named(fields, k, tags1) && Named(fields, k, tags2)))
             && !(NamesFixed(fields, tags1) && NamesFixed(fields, tags2))
    ensures DecodeRecords(fields, st, e1 + e2 + t) == DecodeRecords(fields, st, e2 + e1 + t)
  {
    hide DecodeRecords, TagsRead, TableOk, Named, NamesFixed, RequiredNamed;
    var a, b := DecodeRecords(fields, st, e1).st, DecodeRecords(fields, st, e2).st;
    var tags1, tags2 := TagsRead(fields, st, e1), TagsRead(fields, st, e2);
    SelfAlike(fields, tags1, st);
    SelfAlike(fields, tags2, st);
    RunLocal(fields, st, st, e1);
    RunLocal(fields, st, st, e2);
    assert forall k | 0 <= k < |a.msg| :: a.msg[k] == Patched(fields, tags1, st, a).msg[k];
    assert forall k | 0 <= k < |b.msg| :: b.msg[k] == Patched(fields, tags2, st, b).msg[k];
    RunLocal(fields, st, a, e2);
    RunLocal(fields, st, b, e1);
    var ab, ba := Patched(fields, tags2, a, b), Patched(fields, tags1, b, a);
    assert ab.msg == ba.msg;
    assert ab == ba;
    RecordsExtend(fields, st, e1, e2 + t);
    RecordsExtend(fields, a, e2, t);
    RecordsExtend(fields, st, e2, e1 + t);
    RecordsExtend(fields, b, e1, t);
    assert e1 + e2 + t == e1 + (e2 + t) && e2 + e1 + t == e2 + (e1 + t);
  }

  // ---------- last one wins ----------

  /** What a scalar record of field `f` leaves in its slot. */
  function Holding(f: Field, v: Value): Slot
  {
    if f.htype.Oneof? then Active(f.tag, v) else if f.HasFlag() then Opt(true, v) else Plain(v)
  }

  lemma ScalarRecord(fields: seq<Field>, st: State, i: nat, wireType: nat, data: Bytes, v: Value)
    requires i < |fields| && SlotOf(fields, i) < |st.msg| && !fields[i].htype.Repeated? && !fields[i].ltype.LSubmessage?
    requires DecodeScalar(fields[i], data) == Ok(v, [])
    ensures DecodeField(fields, st, i, wireType, data).Ok? && DecodeField(fields, st, i, wireType, data).rest == []
    ensures var m := DecodeField(fields, st, i, wireType, data).value.msg;
            |m| == |st.msg| && m[SlotOf(fields, i)] == Holding(fields[i], v)
  {
    hide DecodeScalar, SlotOf;
    var f, slot := fields[i], st.msg[SlotOf(fields, i)];
    assert DecodeSingle(f, slot, data) == Ok(Holding(f, v), []);
  }

  /**
   Last One Wins: whatever came before, a scalar field that is not repeated holds the value of its last
   record, if no later one names its slot. `g` is the key of that record and `data` the value, in any spelling.
   */
  lemma LastOneWins(fields: seq<Field>, st: State, s1: Bytes, g: Bytes, i: nat, data: Bytes, v: Value, s2: Bytes)
    requires TableOk(fields) && |st.msg| == SlotCount(fields) && DecodeRecords(fields, st, s1).Ended?
    requires i < |fields| && !fields[i].htype.Repeated? && !fields[i].ltype.LSubmessage?
    requires DecodeVarint32(g).Ok? && DecodeVarint32(g).rest == [] && DecodeVarint32(g).value / 8 == fields[i].tag
    requires DecodeScalar(fields[i], data) == Ok(v, [])
    requires var last := DecodeRecords(fields, st, s1 + (g + data));
             last.Ended? ==> !Named(fields, SlotOf(fields, i), TagsRead(fields, last.st, s2))
    ensures var last := DecodeRecords(fields, st, s1 + (g + data));
            && last.Ended?
            && DecodeRecords(fields, st, s1 + (g + data) + s2) == DecodeRecords(fields, last.st, s2)
    ensures var run := DecodeRecords(fields, st, s1 + (g + data) + s2);
            !run.Failed? ==> SlotOf(fields, i) < |run.st.msg| && run.st.msg[SlotOf(fields, i)] == Holding(fields[i], v)
  {
    hide DecodeField, DecodeScalar, DecodeVarint32, TableOk, SlotOf, SlotCount, Named, TagsRead, Reached, Broken;
    SlotInRange(fields, i);
    var st1, key := DecodeRecords(fields, st, s1).st, DecodeVarint32(g).value;
    RunFrame(fields, st, s1);
    RecordsExtend(fields, st, s1, g + data);
    DecodeVarint32Extends(g, data);
    assert [] + data == data;
    TagPositive(fields, i);
    FindOwnTag(fields, i);
    ScalarRecord(fields, st1, i, key % 8, data, v);
    var st2 := DecodeField(fields, st1, i, key % 8, data).value;
    NoMoreRecords(fields, st2);
    assert DecodeRecords(fields, st1, g + data) == DecodeRecords(fields, st2, []);
    RecordsExtend(fields, st, s1 + (g + data), s2);
    RunFrame(fields, st2, s2);
  }

  lemma TagPositive(fields: seq<Field>, i: nat)
    requires TableOk(fields) && i < |fields|
    ensures fields[i].tag >= 1
  {
    assert FieldOk(fields[i]);
  }

  // ---------- one record among others ----------

  /** A key of field `i`, in any spelling. */
  predicate KeyOf(fields: seq<Field>, i: nat, g: Bytes)
    requires i < |fields|
  {
    DecodeVarint32(g).Ok? && DecodeVarint32(g).rest == [] && DecodeVarint32(g).value / 8 == fields[i].tag
  }

  /** A complete record behind complete records, with anything behind it. */
  lemma OneRecordMore(fields: seq<Field>, st: State, s1: Bytes, i: nat, g: Bytes, data: Bytes, s2: Bytes)
    requires TableOk(fields) && i < |fields| && KeyOf(fields, i, g) && DecodeRecords(fields, st, s1).Ended?
    requires var p := DecodeField(fields, DecodeRecords(fields, st, s1).st, i, DecodeVarint32(g).value % 8, data);
             p.Ok? && p.rest == []
    ensures var st2 := DecodeField(fields, DecodeRecords(fields, st, s1).st, i, DecodeVarint32(g).value % 8, data).value;
            && DecodeRecords(fields, st, s1 + (g + data)) == Ended(st2)
            && DecodeRecords(fields, st, s1 + (g + data) + s2) == DecodeRecords(fields, st2, s2)
  {
    hide DecodeField, DecodeVarint32, TableOk, FindTag;
    var st1, key := DecodeRecords(fields, st, s1).st, DecodeVarint32(g).value;
    RecordsExtend(fields, st, s1, g + data);
    DecodeVarint32Extends(g, data);
    assert [] + data == data;
    TagPositive(fields, i);
    FindOwnTag(fields, i);
    var st2 := DecodeField(fields, st1, i, key % 8, data).value;
    NoMoreRecords(fields, st2);
    assert DecodeRecords(fields, st1, g + data) == DecodeRecords(fields, st2, []);
    RecordsExtend(fields, st, s1 + (g + data), s2);
  }
}
