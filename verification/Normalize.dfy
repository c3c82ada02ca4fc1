/**
 What a struct means on the wire: the same struct with the contents of absent fields
 set to their defaults, and which structs the decoder can take back.
 */
module Normalize {
  import opened Bits
  import opened Message
  import opened Encode

  /** Whether the encoder writes anything for the field. */
  predicate Written(f: Field, slot: Slot)
  {
    Present(f, slot) || (slot.Arr? && slot.items != [])
  }

  function NormalValue(f: Field, v: Value): Value
    decreases f, 0
  {
    if f.ltype.LSubmessage? && v.MsgV? then MsgV(NormalMessage(f.sub, v.msg)) else v
  }

  function NormalItems(f: Field, items: seq<Value>): (r: seq<Value>)
    ensures |r| == |items|
    decreases f, 1
  {
    seq(|items|, i requires 0 <= i < |items| => NormalValue(f, items[i]))
  }

  function NormalSlot(f: Field, slot: Slot): Slot
    decreases f, 2
  {
    match slot
    case Plain(v) => Plain(NormalValue(f, v))
    case Opt(has, v) => Opt(has, NormalValue(f, v))
    case Arr(items) => Arr(NormalItems(f, items))
    case Unset => Unset
    case Active(which, v) => Active(which, NormalValue(f, v))
  }

  /** `acc` with the fields of `m` from `k` on that are written. */
  function NormalFrom(fields: seq<Field>, m: seq<Slot>, k: nat, acc: seq<Slot>): seq<Slot>
    requires k <= |fields|
    decreases fields, |fields| - k
  {
    if k == |fields| then acc
    else
      var s := SlotOf(fields, k);
      var acc' := if s < |m| && s < |acc| && Written(fields[k], m[s]) then acc[s := NormalSlot(fields[k], m[s])] else acc;
      NormalFrom(fields, m, k + 1, acc')
  }

  function NormalMessage(fields: seq<Field>, m: seq<Slot>): seq<Slot>
    decreases fields, |fields| + 1
  {
    NormalFrom(fields, m, 0, DefaultMessage(fields))
  }

  // ---------- what the decoder can take back ----------

  /** Strings are terminated, and no length prefix needs more than 32 bits. */
  predicate SendableValue(f: Field, v: Value)
    decreases f, 0
  {
    match f.ltype
    case LString => v.BytesV? && |v.bytes| < f.dataSize
    case LSubmessage =>
      && v.MsgV?
      && (EncodeMessage(f.sub, v.msg).Some? ==> |EncodeMessage(f.sub, v.msg).value| < U32)
      && SendableFrom(f.sub, v.msg, 0)
    case _ => true
  }

  predicate SendableItems(f: Field, items: seq<Value>)
    decreases f, 1
  {
    if f.Packable() then PackItems(f, items).Some? ==> |PackItems(f, items).value| < U32
    else forall i | 0 <= i < |items| :: SendableValue(f, items[i])
  }

  predicate SendableSlot(f: Field, slot: Slot)
    decreases f, 2
  {
    if slot.Arr? then SendableItems(f, slot.items)
    else Present(f, slot) ==> SendableValue(f, slot.v)
  }

  /** The written fields from `k` on. */
  predicate SendableFrom(fields: seq<Field>, m: seq<Slot>, k: nat)
    requires k <= |fields|
    decreases fields, |fields| - k
  {
    k == |fields| ||
    (SlotOf(fields, k) < |m| && SendableSlot(fields[k], m[SlotOf(fields, k)]) && SendableFrom(fields, m, k + 1))
  }

  predicate Sendable(fields: seq<Field>, m: seq<Slot>)
  {
    SendableFrom(fields, m, 0)
  }
}
