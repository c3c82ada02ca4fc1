/**
 The proto3 rule of `pb_check_proto3_default_value`: what is left out of the encoding
 is what the decoder fills in by itself. With it, the meaning of `NormalMessage` field by field.
 */
module Elision {
  import opened Wrappers
  import opened Message
  import opened Encode
  import opened Normalize
  import opened RoundTrip

  /** A field that passes the check writes nothing. */
  lemma DefaultNotWritten(f: Field, slot: Slot)
    requires SlotTyped(f, slot) && IsProto3Default(f, slot)
    ensures !Written(f, slot) && EncodeField(f, slot) == Some([])
  {
    hide ValueTyped;
  }

  /** When every field from `k` on passes the check, none is written. */
  lemma {:induction false} NothingWritten(fields: seq<Field>, m: seq<Slot>, k: nat, acc: seq<Slot>)
    requires MessageTyped(fields, m) && k <= |fields| && AllProto3Default(fields, m, k)
    ensures NormalFrom(fields, m, k, acc) == acc
    ensures EncodeFrom(fields, m, k) == Some([])
    decreases |fields| - k
  {
    hide Written, NormalSlot, IsProto3Default, EncodeField, SlotTyped, MessageTyped, SlotOf, SlotCount;
    if k < |fields| {
      TypedAt(fields, m, k);
      DefaultNotWritten(fields[k], m[SlotOf(fields, k)]);
      NothingWritten(fields, m, k + 1, acc);
      var none: Bytes := [];
      assert none + none == none;
    }
  }

  /** Elision is sound: a proto3 value that is left out equals what `pb_field_set_to_default` produces, down through submessages. */
  lemma ElisionSound(f: Field, v: Value)
    requires FieldOk(f) && f.Singular() && ValueTyped(f, v) && IsProto3Zero(f, v)
    ensures NormalValue(f, v) == DefaultValue(f)
  {
    if f.ltype.LSubmessage? {
      NothingWritten(f.sub, v.msg, 0, DefaultMessage(f.sub));
    } else if f.ltype.LFixedLengthBytes? {
      assert v.bytes == Zeros(0);
    }
  }

  /** Some member of the oneof that field `k` belongs to has this tag. */
  predicate HasMember(fields: seq<Field>, k: nat, tag: nat)
    requires k < |fields|
  {
    exists j | 0 <= j < |fields| :: SlotOf(fields, j) == SlotOf(fields, k) && fields[j].htype.Oneof? && fields[j].tag == tag
  }

  /** A field writes nothing only if it passes the check, fixed arrays of length zero apart. */
  lemma EmptyIsDefault(f: Field, slot: Slot)
    requires SlotTyped(f, slot) && EncodeField(f, slot) == Some([])
    requires !(f.FixedCount() && f.arraySize == 0)
    requires f.htype.Oneof? ==> slot.Unset?
    ensures IsProto3Default(f, slot)
  {
    hide EncodeValue, ValueTyped, EncodeItems, PackItems, IsProto3Zero, Delimited, FieldTag;
    if slot.Arr? && slot.items != [] && !f.Packable() {
      EncodeItemsNotEmpty(f, slot.items);
    }
  }

  lemma EncodeItemsNotEmpty(f: Field, items: seq<Value>)
    requires items != []
    ensures EncodeItems(f, items) != Some([])
  {
  }

  /** Fields that do not lie in slot `s`, or are not written, leave it alone. */
  lemma {:induction false} NormalFromKeeps(fields: seq<Field>, m: seq<Slot>, k: nat, acc: seq<Slot>, s: nat)
    requires k <= |fields| && s < |acc| && s < |m|
    requires forall j | k <= j < |fields| && SlotOf(fields, j) == s :: !Written(fields[j], m[s])
    ensures |NormalFrom(fields, m, k, acc)| == |acc| && NormalFrom(fields, m, k, acc)[s] == acc[s]
    decreases |fields| - k
  {
    hide Written, NormalSlot;
    if k < |fields| {
      var s' := SlotOf(fields, k);
      var acc' := if s' < |m| && s' < |acc| && Written(fields[k], m[s']) then acc[s' := NormalSlot(fields[k], m[s'])] else acc;
      NormalFromKeeps(fields, m, k + 1, acc', s);
    }
  }

  /** The one field that is written in slot `s` decides it. */
  lemma {:induction false} NormalFromSets(fields: seq<Field>, m: seq<Slot>, k: nat, acc: seq<Slot>, i: nat)
    requires k <= i < |fields| && SlotOf(fields, i) < |acc| && SlotOf(fields, i) < |m|
    requires Written(fields[i], m[SlotOf(fields, i)])
    requires forall j | i < j < |fields| && SlotOf(fields, j) == SlotOf(fields, i) :: !Written(fields[j], m[SlotOf(fields, i)])
    ensures |NormalFrom(fields, m, k, acc)| == |acc|
    ensures NormalFrom(fields, m, k, acc)[SlotOf(fields, i)] == NormalSlot(fields[i], m[SlotOf(fields, i)])
    decreases |fields| - k
  {
    hide Written, NormalSlot;
    var s := SlotOf(fields, k);
    var acc' := if s < |m| && s < |acc| && Written(fields[k], m[s]) then acc[s := NormalSlot(fields[k], m[s])] else acc;
    if k < i {
      NormalFromSets(fields, m, k + 1, acc', i);
    } else {
      NormalFromKeeps(fields, m, k + 1, acc', s);
    }
  }

  /** The normal form of a field outside oneofs: what is written keeps its contents, what is not has its default. */
  lemma NormalMessageAt(fields: seq<Field>, m: seq<Slot>, i: nat)
    requires TableOk(fields) && MessageTyped(fields, m) && i < |fields| && !fields[i].htype.Oneof?
    ensures |NormalMessage(fields, m)| == |m| == SlotCount(fields) && SlotOf(fields, i) < |m|
    ensures var s := SlotOf(fields, i);
            NormalMessage(fields, m)[s] == if Written(fields[i], m[s]) then NormalSlot(fields[i], m[s]) else DefaultSlot(fields[i])
  {
    var s := SlotOf(fields, i);
    TypedAt(fields, m, i);
    DefaultMessageAt(fields, i);
    forall j | 0 <= j < |fields| && j != i ensures SlotOf(fields, j) != s {
      if SlotOf(fields, j) == s { SharedSlot(fields, if i < j then i else j, if i < j then j else i); }
    }
    hide MessageTyped, NormalSlot, DefaultSlot, DefaultMessage, SlotOf, SlotCount, TableOk, Written;
    if Written(fields[i], m[s]) {
      NormalFromSets(fields, m, 0, DefaultMessage(fields), i);
    } else {
      NormalFromKeeps(fields, m, 0, DefaultMessage(fields), s);
    }
  }

  /** The normal form of a oneof: its active member, or nothing when `which` names no member. */
  lemma NormalOneofAt(fields: seq<Field>, m: seq<Slot>, i: nat)
    requires TableOk(fields) && MessageTyped(fields, m) && i < |fields| && fields[i].htype.Oneof?
    ensures |NormalMessage(fields, m)| == |m| == SlotCount(fields) && SlotOf(fields, i) < |m|
    ensures var s := SlotOf(fields, i);
            && (m[s].Active? && m[s].which == fields[i].tag ==> NormalMessage(fields, m)[s] == NormalSlot(fields[i], m[s]))
            && (m[s].Unset? ==> NormalMessage(fields, m)[s] == Unset)
            && (m[s].Active? && !HasMember(fields, i, m[s].which) ==> NormalMessage(fields, m)[s] == Unset)
  {
    var s := SlotOf(fields, i);
    TypedAt(fields, m, i);
    DefaultMessageAt(fields, i);
    OneofDefault(fields[i]);
    NormalMessageLength(fields, m, 0, DefaultMessage(fields));
    forall j | 0 <= j < |fields| && SlotOf(fields, j) == s ensures fields[j].htype.Oneof? {
      if j != i { SharedSlot(fields, if i < j then i else j, if i < j then j else i); }
    }
    hide MessageTyped, NormalSlot, DefaultSlot, DefaultMessage, SlotOf, SlotCount, FieldOk;
    if m[s].Active? && m[s].which == fields[i].tag {
      NormalFromSets(fields, m, 0, DefaultMessage(fields), i);
    } else if m[s].Unset? || !HasMember(fields, i, m[s].which) {
      NormalFromKeeps(fields, m, 0, DefaultMessage(fields), s);
    }
  }

  lemma {:induction false} NormalMessageLength(fields: seq<Field>, m: seq<Slot>, k: nat, acc: seq<Slot>)
    requires k <= |fields|
    ensures |NormalFrom(fields, m, k, acc)| == |acc|
    decreases |fields| - k
  {
    hide Written, NormalSlot;
    if k < |fields| {
      var s := SlotOf(fields, k);
      var acc' := if s < |m| && s < |acc| && Written(fields[k], m[s]) then acc[s := NormalSlot(fields[k], m[s])] else acc;
      NormalMessageLength(fields, m, k + 1, acc');
    }
  }

  /** A proto3 field always comes back with its value: what is elided is the default. */
  lemma SingularComesBack(fields: seq<Field>, m: seq<Slot>, i: nat)
    requires TableOk(fields) && MessageTyped(fields, m) && i < |fields| && fields[i].Singular()
    ensures SlotOf(fields, i) < |m| == |NormalMessage(fields, m)|
    ensures NormalMessage(fields, m)[SlotOf(fields, i)] == NormalSlot(fields[i], m[SlotOf(fields, i)])
  {
    NormalMessageAt(fields, m, i);
    TypedAt(fields, m, i);
    hide MessageTyped, NormalMessage, SlotOf, NormalValue, DefaultValue, ValueTyped, IsProto3Zero;
    assert FieldOk(fields[i]);
    hide FieldOk;
    var slot := m[SlotOf(fields, i)];
    if IsProto3Zero(fields[i], slot.v) {
      ElisionSound(fields[i], slot.v);
    }
  }

  // ---------- elided exactly when empty ----------

  lemma {:induction false} EmptyFields(fields: seq<Field>, m: seq<Slot>, k: nat, j: nat)
    requires k <= j < |fields| && EncodeFrom(fields, m, k) == Some([])
    ensures SlotOf(fields, j) < |m| && EncodeField(fields[j], m[SlotOf(fields, j)]) == Some([])
    decreases |fields| - k
  {
    hide EncodeField;
    if k < j { EmptyFields(fields, m, k + 1, j); }
  }

  lemma {:induction false} AllDefault(fields: seq<Field>, m: seq<Slot>, k: nat)
    requires k <= |fields|
    requires forall j | 0 <= j < |fields| :: SlotOf(fields, j) < |m| && IsProto3Default(fields[j], m[SlotOf(fields, j)])
    ensures AllProto3Default(fields, m, k)
    decreases |fields| - k
  {
    hide IsProto3Default;
    if k < |fields| { AllDefault(fields, m, k + 1); }
  }

  /** If the check succeeds it does so for every field. */
  lemma {:induction false} EachDefault(fields: seq<Field>, m: seq<Slot>, k: nat, i: nat)
    requires k <= i < |fields| && AllProto3Default(fields, m, k)
    ensures SlotOf(fields, i) < |m| && IsProto3Default(fields[i], m[SlotOf(fields, i)])
    decreases i - k
  {
    hide IsProto3Default;
    if k < i { EachDefault(fields, m, k + 1, i); }
  }

  /** There is no fixed array, and every `which` names a member of its oneof. */
  predicate Elidable(fields: seq<Field>, m: seq<Slot>)
  {
    forall i | 0 <= i < |fields| ::
      && !fields[i].FixedCount()
      && (fields[i].htype.Oneof? ==>
            SlotOf(fields, i) < |m| && (m[SlotOf(fields, i)].Active? ==> HasMember(fields, i, m[SlotOf(fields, i)].which)))
  }

  /**
   The check on a submessage succeeds exactly when its encoding would be empty and nothing in it
   fails the check without being written: fixed arrays of length zero, and a stray `which`.
   */
  lemma ElidedIffEmpty(fields: seq<Field>, m: seq<Slot>)
    requires MessageTyped(fields, m)
    ensures AllProto3Default(fields, m, 0) <==> EncodeMessage(fields, m) == Some([]) && Elidable(fields, m)
  {
    hide EncodeField, IsProto3Default;
    if AllProto3Default(fields, m, 0) {
      NothingWritten(fields, m, 0, []);
      forall i | 0 <= i < |fields|
        ensures !fields[i].FixedCount() && SlotOf(fields, i) < |m| && (fields[i].htype.Oneof? ==> m[SlotOf(fields, i)].Unset?)
      {
        EachDefault(fields, m, 0, i);
        DefaultShape(fields[i], m[SlotOf(fields, i)]);
      }
    }
    if EncodeMessage(fields, m) == Some([]) && Elidable(fields, m) {
      forall i | 0 <= i < |fields|
        ensures SlotOf(fields, i) < |m| && IsProto3Default(fields[i], m[SlotOf(fields, i)])
      {
        var s := SlotOf(fields, i);
        EmptyFields(fields, m, 0, i);
        TypedAt(fields, m, i);
        if fields[i].htype.Oneof? && m[s].Active? {
          var j :| 0 <= j < |fields| && SlotOf(fields, j) == s && fields[j].htype.Oneof? && fields[j].tag == m[s].which;
          EmptyFields(fields, m, 0, j);
          MemberWritten(fields[j], m[s]);
        }
        hide MessageTyped, SlotOf, SlotTyped;
        EmptyIsDefault(fields[i], m[s]);
      }
      AllDefault(fields, m, 0);
    }
  }

  lemma DefaultShape(f: Field, slot: Slot)
    requires IsProto3Default(f, slot)
    ensures !f.FixedCount() && (f.htype.Oneof? ==> slot.Unset?)
  {
  }

  lemma MemberWritten(f: Field, slot: Slot)
    requires f.htype.Oneof? && slot.Active? && slot.which == f.tag
    ensures EncodeField(f, slot) != Some([])
  {
    hide EncodeValue;
  }
}
