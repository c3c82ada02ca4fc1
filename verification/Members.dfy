/**
 What the members of a struct hold, told from the entries of the table alone: their defaults, what a
 submessage does with what is there already, which member of a oneof is set, and what comes back.
 */
module Members {
  import opened Varint
  import opened Message
  import opened Encode
  import opened Decode
  import opened Normalize
  import opened RoundTrip
  import opened Elision
  import opened Compatibility
  import opened Required
  import opened Order
  import opened Effects
  import FieldIter

  // ---------- defaults ----------

  /** The default of a member: the value of the table entry, or all zeros. */
  predicate HoldsDefault(f: Field, v: Value)
  {
    if f.ltype.LSubmessage? then v == MsgV(DefaultMessage(f.sub))
    else if f.initial.Some? then v == f.initial.value
    else
      match f.ltype
      case LBool => v == BoolV(false)
      case LBytes => v == BytesV([])
      case LString => v == BytesV([])
      case LFixedLengthBytes => v.BytesV? && |v.bytes| == f.dataSize && forall j | 0 <= j < f.dataSize :: v.bytes[j] == 0
      case _ => v == IntV(0)
  }

  /** A member as it is when nothing has been received for it. */
  predicate Unreceived(f: Field, slot: Slot)
  {
    match f.htype
    case Required => slot.Plain? && HoldsDefault(f, slot.v)
    case Optional => if f.sizeOffset != 0 then slot.Opt? && !slot.has && HoldsDefault(f, slot.v) else slot.Plain? && HoldsDefault(f, slot.v)
    case Repeated => slot.Arr? && if f.sizeOffset != 0 then slot.items == [] else |slot.items| == f.arraySize
    case Oneof => slot == Unset
  }

  lemma DefaultMember(f: Field)
    ensures Unreceived(f, DefaultSlot(f))
  {
    hide DefaultMessage;
  }

  /** Members of the default struct hold what their entries say, down through submessages. */
  lemma DefaultMembers(fields: seq<Field>, i: nat)
    requires i < |fields|
    ensures SlotOf(fields, i) < |DefaultMessage(fields)| && Unreceived(fields[i], DefaultMessage(fields)[SlotOf(fields, i)])
  {
    hide DefaultMessage, DefaultSlot, Unreceived, SlotOf;
    DefaultMessageAt(fields, i);
    DefaultMember(fields[i]);
  }

  /** And so they do when an accepted message has no record of them. */
  lemma MissingIsDefault(fields: seq<Field>, s: Bytes, i: nat)
    requires TableOk(fields) && i < |fields| && DecodeMessage(fields, s).Ok?
    requires !Named(fields, SlotOf(fields, i), TagsRead(fields, Start(DefaultMessage(fields)), s))
    ensures var m := DecodeMessage(fields, s).value;
            SlotOf(fields, i) < |m| && Unreceived(fields[i], m[SlotOf(fields, i)])
  {
    hide DefaultMessage, DecodeNoInit, TagsRead, TableOk, Unreceived, SlotOf, Named;
    DefaultMembers(fields, i);
    UnnamedUntouched(fields, DefaultMessage(fields), s, SlotOf(fields, i));
  }

  /** Outside oneofs it is enough that the tag of the field was not met. */
  lemma NotNamed(fields: seq<Field>, i: nat, tags: set<nat>)
    requires i < |fields| && !fields[i].htype.Oneof? && fields[i].tag !in tags
    ensures !Named(fields, SlotOf(fields, i), tags)
  {
    hide SlotOf;
    forall j | 0 <= j < |fields| && j != i ensures SlotOf(fields, j) != SlotOf(fields, i) {
      if SlotOf(fields, j) == SlotOf(fields, i) { SharedSlot(fields, if i < j then i else j, if i < j then j else i); }
    }
  }

  // ---------- submessages ----------

  /** The required or optional submessage field `i` holds the struct `m`. */
  predicate HoldsMessage(fields: seq<Field>, st: State, i: nat, m: seq<Slot>)
    requires i < |fields|
  {
    var f, k := fields[i], SlotOf(fields, i);
    && f.ltype.LSubmessage? && (f.htype.Required? || f.htype.Optional?) && k < |st.msg|
    && if f.HasFlag() then st.msg[k].Opt? && st.msg[k].v == MsgV(m) else st.msg[k] == Plain(MsgV(m))
  }

  /** `st` once the submessage has received `m`. */
  function WithMessage(fields: seq<Field>, st: State, i: nat, m: seq<Slot>): State
    requires i < |fields| && SlotOf(fields, i) < |st.msg|
  {
    var f, k := fields[i], SlotOf(fields, i);
    st.(msg := st.msg[k := if f.HasFlag() then Opt(true, MsgV(m)) else Plain(MsgV(m))],
        seen := if f.htype.Required? then st.seen + {i} else st.seen)
  }

  /** A record of the field decodes its data into the struct that the member holds. */
  lemma IntoHeldMessage(fields: seq<Field>, st: State, i: nat, m: seq<Slot>, wireType: nat, s: Bytes, d: Bytes, r: Bytes)
    requires i < |fields| && HoldsMessage(fields, st, i, m) && ReadDelimited(s) == Ok(d, r)
    ensures DecodeField(fields, st, i, wireType, s)
         == if DecodeNoInit(fields[i].sub, m, d).Ok? then Ok(WithMessage(fields, st, i, DecodeNoInit(fields[i].sub, m, d).value), r)
            else Fail
  {
    hide DecodeNoInit, ReadDelimited, SlotOf, DefaultMessage;
    var f, slot := fields[i], st.msg[SlotOf(fields, i)];
    var p := DecodeNoInit(f.sub, m, d);
    assert DecodeValue(f, slot.v, s) == if p.Ok? then Ok(MsgV(p.value), r) else Fail;
    assert DecodeSingle(f, slot, s)
        == if p.Ok? then Ok(if f.HasFlag() then Opt(true, MsgV(p.value)) else Plain(MsgV(p.value)), r) else Fail;
  }

  /**
   A record that fails inside the submessage leaves it as far as its records have written it, and loses
   the bytes that they lose.
   */
  lemma FailsInHeldMessage(fields: seq<Field>, st: State, i: nat, m: seq<Slot>, wireType: nat, s: Bytes, d: Bytes, r: Bytes)
    requires i < |fields| && HoldsMessage(fields, st, i, m) && ReadDelimited(s) == Ok(d, r)
    ensures LostField(fields, st, i, wireType, s) == LostRun(fields[i].sub, Start(m), d)
    ensures WrittenField(fields, st, i, wireType, s)
         == WithMessage(fields, st, i, WrittenRun(fields[i].sub, Start(m), d)).msg
  {
    hide LostRun, WrittenRun, ReadDelimited, SlotOf, DefaultMessage;
    var f, slot := fields[i], st.msg[SlotOf(fields, i)];
    assert Prior(f, slot) == MsgV(m) && SubmessageStart(f, MsgV(m)) == m;
    assert WrittenValue(f, MsgV(m), s) == MsgV(WrittenRun(f.sub, Start(m), d));
  }

  /** A record in the run loop. */
  lemma MessageRecord(fields: seq<Field>, st: State, i: nat, m: seq<Slot>, g: Bytes, s: Bytes, d: Bytes, t: Bytes)
    requires TableOk(fields) && i < |fields| && HoldsMessage(fields, st, i, m)
    requires KeyOf(fields, i, g) && ReadDelimited(s) == Ok(d, []) && DecodeNoInit(fields[i].sub, m, d).Ok?
    ensures var st' := WithMessage(fields, st, i, DecodeNoInit(fields[i].sub, m, d).value);
            && DecodeRecords(fields, st, g + s + t) == DecodeRecords(fields, st', t)
            && HoldsMessage(fields, st', i, DecodeNoInit(fields[i].sub, m, d).value)
  {
    hide DecodeField, DecodeNoInit, ReadDelimited, DecodeVarint32, TableOk, SlotOf;
    IntoHeldMessage(fields, st, i, m, DecodeVarint32(g).value % 8, s, d, []);
    NoMoreRecords(fields, st);
    OneRecordMore(fields, st, [], i, g, s, t);
    assert [] + (g + s) + t == g + s + t;
  }

  /**
   A required or optional submessage in two records is merged: the second is decoded into what the
   first has left, members it does not name keep what the first brought, and one record with both
   contents does the same, unless they clash over a fixed array.
   */
  lemma SubmessagesMerge(
      fields: seq<Field>, st: State, i: nat, m: seq<Slot>, g1: Bytes, s1: Bytes, d1: Bytes, g2: Bytes, s2: Bytes, d2: Bytes, t: Bytes)
    requires TableOk(fields) && i < |fields| && HoldsMessage(fields, st, i, m) && KeyOf(fields, i, g1) && KeyOf(fields, i, g2)
    requires ReadDelimited(s1) == Ok(d1, []) && ReadDelimited(s2) == Ok(d2, [])
    requires DecodeNoInit(fields[i].sub, m, d1).Ok?
    requires DecodeNoInit(fields[i].sub, DecodeNoInit(fields[i].sub, m, d1).value, d2).Ok?
    ensures var m1 := DecodeNoInit(fields[i].sub, m, d1).value;
            var m2 := DecodeNoInit(fields[i].sub, m1, d2).value;
            && DecodeRecords(fields, st, g1 + s1 + (g2 + s2 + t)) == DecodeRecords(fields, WithMessage(fields, st, i, m2), t)
            && |m2| == |m1|
            && forall k | 0 <= k < |m1| && !Named(fields[i].sub, k, TagsRead(fields[i].sub, Start(m1), d2)) :: m2[k] == m1[k]
    ensures var sub := fields[i].sub;
            var m1, first := DecodeNoInit(sub, m, d1).value, DecodeRecords(sub, Start(m), d1);
            first.Ended? && !Clash(sub, first.st, Start(m1), d2) ==>
              forall s: Bytes | ReadDelimited(s) == Ok(d1 + d2, []) ::
                DecodeRecords(fields, st, g1 + s + t) == DecodeRecords(fields, st, g1 + s1 + (g2 + s2 + t))
  {
    hide DecodeNoInit, DecodeRecords, ReadDelimited, TableOk, KeyOf, SlotOf, HoldsMessage, Named, TagsRead, Clash;
    var sub := fields[i].sub;
    var m1 := DecodeNoInit(sub, m, d1).value;
    var m2 := DecodeNoInit(sub, m1, d2).value;
    HeldSlot(fields, st, i, m);
    MessageRecord(fields, st, i, m, g1, s1, d1, g2 + s2 + t);
    MessageRecord(fields, WithMessage(fields, st, i, m1), i, m1, g2, s2, d2, t);
    WithTwice(fields, st, i, m1, m2);
    Untouched(sub, m1, d2);
    if DecodeRecords(sub, Start(m), d1).Ended? && !Clash(sub, DecodeRecords(sub, Start(m), d1).st, Start(m1), d2) {
      MergeByConcatenation(sub, m, d1, d2);
      forall s: Bytes | ReadDelimited(s) == Ok(d1 + d2, [])
        ensures DecodeRecords(fields, st, g1 + s + t) == DecodeRecords(fields, st, g1 + s1 + (g2 + s2 + t))
      {
        MessageRecord(fields, st, i, m, g1, s, d1 + d2, t);
      }
    }
  }

  lemma HeldSlot(fields: seq<Field>, st: State, i: nat, m: seq<Slot>)
    requires TableOk(fields) && i < |fields| && HoldsMessage(fields, st, i, m)
    ensures SlotOf(fields, i) < |st.msg| && TableOk(fields[i].sub)
  {
    assert FieldOk(fields[i]);
  }

  lemma WithTwice(fields: seq<Field>, st: State, i: nat, m1: seq<Slot>, m2: seq<Slot>)
    requires i < |fields| && SlotOf(fields, i) < |st.msg|
    ensures WithMessage(fields, WithMessage(fields, st, i, m1), i, m2) == WithMessage(fields, st, i, m2)
  {
    hide SlotOf;
    assert st.seen + {i} + {i} == st.seen + {i};
  }

  lemma Untouched(fields: seq<Field>, m: seq<Slot>, d: Bytes)
    requires TableOk(fields) && DecodeNoInit(fields, m, d).Ok?
    ensures var m' := DecodeNoInit(fields, m, d).value;
            |m'| == |m| && forall k | 0 <= k < |m| && !Named(fields, k, TagsRead(fields, Start(m), d)) :: m'[k] == m[k]
  {
    hide TableOk, DecodeRecords, Named, TagsRead;
    RunFrame(fields, Start(m), d);
    forall k | 0 <= k < |m| && !Named(fields, k, TagsRead(fields, Start(m), d))
      ensures DecodeNoInit(fields, m, d).value[k] == m[k]
    {
      UnnamedUntouched(fields, m, d, k);
    }
  }

  /** The submessage of a oneof is not merged but starts from its defaults, and so does every item of an array. */
  lemma NewMessages(fields: seq<Field>, st: State, i: nat, wireType: nat, s: Bytes, d: Bytes, r: Bytes)
    requires i < |fields| && fields[i].ltype.LSubmessage? && SlotOf(fields, i) < |st.msg| && ReadDelimited(s) == Ok(d, r)
    ensures var f, k := fields[i], SlotOf(fields, i);
            var p := DecodeMessage(f.sub, d);
            && (f.htype.Oneof? ==>
                  DecodeField(fields, st, i, wireType, s)
                  == if p.Ok? then Ok(st.(msg := st.msg[k := Active(f.tag, MsgV(p.value))]), r) else Fail)
            && (f.Counted() && st.msg[k].Arr? && |st.msg[k].items| < f.arraySize ==>
                  DecodeField(fields, st, i, wireType, s)
                  == if p.Ok? then Ok(st.(msg := st.msg[k := Arr(st.msg[k].items + [MsgV(p.value)])]), r) else Fail)
  {
    hide DecodeNoInit, ReadDelimited, SlotOf, DefaultMessage;
    var f, p := fields[i], DecodeMessage(fields[i].sub, d);
    assert f.htype.Oneof? || f.htype.Repeated? ==> DecodeValue(f, DefaultValue(f), s) == if p.Ok? then Ok(MsgV(p.value), r) else Fail;
  }

  // ---------- oneofs ----------

  /** Fields `i` and `j` are members of one oneof, by the markers of their entries. */
  predicate OneUnion(fields: seq<Field>, i: nat, j: nat)
    requires i < |fields| && j < |fields|
  {
    && i != j && fields[i].htype.Oneof? && fields[j].htype.Oneof?
    && forall k | (if i < j then i else j) < k <= (if i < j then j else i) :: FieldIter.Joined(fields, k)
  }

  lemma OneofRecord(fields: seq<Field>, st: State, i: nat, wireType: nat, s: Bytes)
    requires i < |fields| && fields[i].htype.Oneof? && DecodeField(fields, st, i, wireType, s).Ok?
    ensures var m, k := DecodeField(fields, st, i, wireType, s).value.msg, SlotOf(fields, i);
            k < |st.msg| == |m| && m[k].Active? && m[k].which == fields[i].tag
  {
    hide DecodeValue, SlotOf;
  }

  /**
   Of the members of a oneof, only the one received last is set: they share a slot, and it holds the
   last one's tag and value, whatever records of other members came before.
   */
  lemma OnlyLastIsSet(fields: seq<Field>, st: State, s1: Bytes, i: nat, j: nat, g: Bytes, data: Bytes, s2: Bytes)
    requires TableOk(fields) && i < |fields| && j < |fields| && OneUnion(fields, i, j)
    requires KeyOf(fields, i, g) && DecodeRecords(fields, st, s1).Ended?
    requires var p := DecodeField(fields, DecodeRecords(fields, st, s1).st, i, DecodeVarint32(g).value % 8, data);
             p.Ok? && p.rest == [] && !Named(fields, SlotOf(fields, i), TagsRead(fields, p.value, s2))
    ensures SlotOf(fields, i) == SlotOf(fields, j)
    ensures var run := DecodeRecords(fields, st, s1 + (g + data) + s2);
            !run.Failed? ==>
              var k := SlotOf(fields, j);
              k < |run.st.msg| && run.st.msg[k].Active? && run.st.msg[k].which == fields[i].tag != fields[j].tag
  {
    hide DecodeField, DecodeRecords, DecodeVarint32, SlotOf, Named, TagsRead, Reached, Broken, FieldOk;
    FieldIter.UnionOfFields(fields, if i < j then i else j, if i < j then j else i);
    var st1 := DecodeRecords(fields, st, s1).st;
    var wireType := DecodeVarint32(g).value % 8;
    OneofRecord(fields, st1, i, wireType, data);
    OneRecordMore(fields, st, s1, i, g, data, s2);
    RunFrame(fields, DecodeField(fields, st1, i, wireType, data).value, s2);
  }

  // ---------- what comes back ----------

  /** The value after the trip: a scalar as it was, a submessage in its normal form. */
  predicate SameValue(f: Field, v: Value, v': Value)
  {
    if f.ltype.LSubmessage? then v.MsgV? && v' == MsgV(NormalMessage(f.sub, v.msg)) else v' == v
  }

  lemma NormalIsSame(f: Field, v: Value)
    requires f.ltype.LSubmessage? ==> v.MsgV?
    ensures SameValue(f, v, NormalValue(f, v))
  {
  }

  /**
   What the round trip brings back, label by label: every value that is set, with its flag, and every
   item; an optional member that is not set comes back not set.
   */
  lemma MemberComesBack(fields: seq<Field>, m: seq<Slot>, i: nat)
    requires TableOk(fields) && MessageTyped(fields, m) && i < |fields|
    ensures var n, s, f := NormalMessage(fields, m), SlotOf(fields, i), fields[i];
            && s < |m| == |n|
            && match f.htype
               case Required => n[s].Plain? && m[s].Plain? && SameValue(f, m[s].v, n[s].v)
               case Optional =>
                 if f.sizeOffset == 0 then n[s].Plain? && m[s].Plain? && SameValue(f, m[s].v, n[s].v)
                 else n[s].Opt? && m[s].Opt? && n[s].has == m[s].has && (m[s].has ==> SameValue(f, m[s].v, n[s].v))
               case Repeated =>
                 && n[s].Arr? && m[s].Arr? && |n[s].items| == |m[s].items|
                 && forall j | 0 <= j < |m[s].items| :: SameValue(f, m[s].items[j], n[s].items[j])
               case Oneof =>
                 && (m[s].Unset? ==> n[s].Unset?)
                 && (m[s].Active? && m[s].which == f.tag ==> n[s].Active? && n[s].which == f.tag && SameValue(f, m[s].v, n[s].v))
  {
    var f, s := fields[i], SlotOf(fields, i);
    TypedAt(fields, m, i);
    SlotSame(f, m[s]);
    hide MessageTyped, NormalMessage, SlotOf, NormalSlot, SameValue, TableOk, SlotTyped;
    if f.htype.Oneof? {
      NormalOneofAt(fields, m, i);
    } else if f.Singular() {
      SingularComesBack(fields, m, i);
    } else {
      NormalMessageAt(fields, m, i);
    }
  }

  /** The same for one slot in normal form, and for one that is not written. */
  lemma SlotSame(f: Field, slot: Slot)
    requires SlotTyped(f, slot)
    ensures (f.htype.Required? || f.Singular()) ==>
              slot.Plain? && NormalSlot(f, slot).Plain? && SameValue(f, slot.v, NormalSlot(f, slot).v)
    ensures f.htype.Required? ==> Written(f, slot)
    ensures f.HasFlag() ==>
              && slot.Opt? && (Written(f, slot) <==> slot.has)
              && (if slot.has then NormalSlot(f, slot).Opt? && NormalSlot(f, slot).has && SameValue(f, slot.v, NormalSlot(f, slot).v)
                  else DefaultSlot(f).Opt? && !DefaultSlot(f).has)
    ensures f.htype.Repeated? ==>
              && slot.Arr? && (Written(f, slot) <==> slot.items != [])
              && NormalSlot(f, slot).Arr? && |NormalSlot(f, slot).items| == |slot.items|
              && (forall j | 0 <= j < |slot.items| :: SameValue(f, slot.items[j], NormalSlot(f, slot).items[j]))
              && (slot.items == [] ==> DefaultSlot(f) == Arr([]))
    ensures f.htype.Oneof? && slot.Active? && slot.which == f.tag ==>
              NormalSlot(f, slot).Active? && NormalSlot(f, slot).which == f.tag && SameValue(f, slot.v, NormalSlot(f, slot).v)
  {
    hide MessageTyped, NormalMessage, DefaultValue, IsProto3Zero;
    if slot.Arr? && f.htype.Repeated? {
      forall j | 0 <= j < |slot.items| ensures SameValue(f, slot.items[j], NormalSlot(f, slot).items[j]) {
        assert ValueTyped(f, slot.items[j]);
        NormalIsSame(f, slot.items[j]);
      }
    } else if !slot.Unset? && (f.ltype.LSubmessage? ==> slot.v.MsgV?) {
      NormalIsSame(f, slot.v);
    }
  }
}
