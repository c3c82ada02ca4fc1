/**
 What is on the wire, in the terms of the Encoding specification: keys, wire types by number, and the
 bytes of every kind of value. None of it depends on who reads it.
 */
module WireFormat {
  import opened Wrappers
  import opened Bits
  import opened Varint
  import opened Scalars
  import opened Message
  import opened Encode
  import opened Decode
  import opened Records
  import opened ScalarLaws
  import opened RoundTrip
  import opened Elision

  // ---------- keys ----------

  /** The wire type of a field: 0 varint, 1 eight bytes, 2 length and bytes, 5 four bytes. */
  function WireNumber(l: LType): nat
  {
    match l
    case LBool => 0
    case LVarint => 0
    case LUVarint => 0
    case LSVarint => 0
    case LFixed64 => 1
    case LFixed32 => 5
    case LBytes => 2
    case LString => 2
    case LSubmessage => 2
    case LExtension => 2
    case LFixedLengthBytes => 2
  }

  /** The key of a record is one varint that spells eight times the tag plus the wire type. */
  lemma KeyOfField(f: Field)
    ensures IsVarint(FieldTag(f)) && Groups(FieldTag(f)) == 8 * f.tag + WireNumber(f.ltype)
  {
    EncodeIsVarint(8 * f.tag + WireType(f.ltype));
  }

  /** What skipping takes, by number. */
  lemma SkipByNumber(wireType: nat, s: Bytes)
    ensures SkipField(wireType, s)
         == if wireType == 0 then SkipVarint(s)
            else if wireType == 1 then if |s| >= 8 then Ok((), s[8..]) else Fail
            else if wireType == 5 then if |s| >= 4 then Ok((), s[4..]) else Fail
            else if wireType == 2 && ReadDelimited(s).Ok? then Ok((), ReadDelimited(s).rest)
            else Fail
  {
    hide ReadDelimited, SkipVarint;
  }

  // ---------- a value on the wire ----------

  /** The value stands behind no length prefix of 2^32 or more. */
  predicate ShortValue(f: Field, v: Value)
  {
    match v
    case BytesV(s) => |s| < U32
    case MsgV(m) => EncodeMessage(f.sub, m).Some? ==> |EncodeMessage(f.sub, m).value| < U32
    case _ => true
  }

  lemma SkipVarintValue(n: nat, t: Bytes)
    ensures SkipField(0, EncodeVarint(n) + t) == Ok((), t)
  {
    hide EncodeVarint, IsVarint;
    EncodeIsVarint(n);
    SplitOfVarint(EncodeVarint(n), t);
  }

  lemma SkipDelimited(s: Bytes, t: Bytes)
    requires |s| < U63
    ensures SkipField(2, Delimited(s) + t) == if |s| < U32 then Ok((), t) else Fail
  {
    hide Delimited, ReadDelimited;
    DelimitedRoundTrip(s, t);
  }

  lemma SkipFixed(s: Bytes, t: Bytes)
    ensures |s| == 4 ==> SkipField(5, s + t) == Ok((), t)
    ensures |s| == 8 ==> SkipField(1, s + t) == Ok((), t)
  {
    assert (s + t)[|s|..] == t;
  }

  /** Skipping by the wire type of the field takes exactly the value, unless its length does not fit 32 bits. */
  lemma ValueSkipped(f: Field, v: Value, s: Bytes, t: Bytes)
    requires EncodeValue(f, v) == Some(s) && |s| < U63
    ensures SkipField(WireNumber(f.ltype), s + t) == if ShortValue(f, v) then Ok((), t) else Fail
  {
    hide SkipField, EncodeVarint, LittleEndian, EncodeMessage, Unsigned, ZigZag;
    match v
    case BoolV(b) => SkipVarintValue(if b then 1 else 0, t);
    case IntV(i) =>
      if f.ltype.LFixed32? || f.ltype.LFixed64? {
        SkipFixed(s, t);
      } else {
        SkipVarintValue(if f.ltype.LSVarint? then ZigZag(i) else Unsigned(i, 8), t);
      }
    case BytesV(b) =>
      DelimitedLonger(b);
      SkipDelimited(b, t);
    case MsgV(m) =>
      DelimitedLonger(EncodeMessage(f.sub, m).value);
      SkipDelimited(EncodeMessage(f.sub, m).value, t);
    case Indeterminate =>
  }

  // ---------- the records of a field ----------

  /** A record that the table does not know is passed over, if skipping takes its value. */
  lemma UnknownStep(fields: seq<Field>, st: State, wireType: nat, tag: nat, p: Bytes)
    requires wireType < 8 && 1 <= tag < 0x2000_0000 && forall i | 0 <= i < |fields| :: fields[i].tag != tag
    ensures DecodeRecords(fields, st, Tag(wireType, tag) + p)
         == if SkipField(wireType, p).Ok? then DecodeRecords(fields, st, SkipField(wireType, p).rest) else Failed
  {
    hide Tag, SkipField, DecodeRecords;
    RecordStep(fields, st, wireType, tag, p);
    assert FindTag(fields, tag, 0) == |fields|;
  }

  /** The same for the record of a value. */
  lemma UnknownValue(fields: seq<Field>, st: State, f: Field, v: Value, s: Bytes, t: Bytes)
    requires 1 <= f.tag < 0x2000_0000 && forall i | 0 <= i < |fields| :: fields[i].tag != f.tag
    requires EncodeValue(f, v) == Some(s) && |s| < U63
    ensures DecodeRecords(fields, st, FieldTag(f) + (s + t)) == if ShortValue(f, v) then DecodeRecords(fields, st, t) else Failed
  {
    hide SkipField, DecodeRecords, EncodeValue, Tag, ShortValue;
    ValueSkipped(f, v, s, t);
    assert WireType(f.ltype) == WireNumber(f.ltype);
    UnknownStep(fields, st, WireType(f.ltype), f.tag, s + t);
  }

  /** No record of the slot has a length of 2^32 or more. */
  predicate ShortSlot(f: Field, slot: Slot)
  {
    match slot
    case Arr(items) =>
      if f.Packable() then PackItems(f, items).Some? ==> |PackItems(f, items).value| < U32
      else forall i | 0 <= i < |items| :: ShortValue(f, items[i])
    case Unset => true
    case _ => Present(f, slot) ==> ShortValue(f, slot.v)
  }

  lemma {:induction false} UnknownItems(fields: seq<Field>, st: State, f: Field, items: seq<Value>, e: Bytes, t: Bytes)
    requires 1 <= f.tag < 0x2000_0000 && forall i | 0 <= i < |fields| :: fields[i].tag != f.tag
    requires EncodeItems(f, items) == Some(e) && |e| < U63
    ensures DecodeRecords(fields, st, e + t)
         == if forall i | 0 <= i < |items| :: ShortValue(f, items[i]) then DecodeRecords(fields, st, t) else Failed
    decreases |items|
  {
    hide DecodeRecords, EncodeValue, FieldTag, ShortValue;
    if items == [] {
      assert e + t == t;
    } else {
      var head := Concat(Some(FieldTag(f)), EncodeValue(f, items[0]));
      var tail := EncodeItems(f, items[1..]);
      SplitConcat(head, tail, e, t);
      SplitConcat(Some(FieldTag(f)), EncodeValue(f, items[0]), head.value, tail.value + t);
      UnknownValue(fields, st, f, items[0], EncodeValue(f, items[0]).value, tail.value + t);
      UnknownItems(fields, st, f, items[1..], tail.value, t);
      assert forall i | 0 <= i < |items[1..]| :: items[1..][i] == items[i + 1];
      assert forall i | 1 <= i < |items| :: items[i] == items[1..][i - 1];
    }
  }

  /**
   Whatever the encoder writes for a field, a reader that does not know the tag passes over: exactly
   all of it, unless a length in it does not fit 32 bits, which is an error.
   */
  lemma UnknownFieldSkipped(fields: seq<Field>, st: State, f: Field, slot: Slot, e: Bytes, t: Bytes)
    requires 1 <= f.tag < 0x2000_0000 && forall i | 0 <= i < |fields| :: fields[i].tag != f.tag
    requires EncodeField(f, slot) == Some(e) && |e| < U63
    ensures DecodeRecords(fields, st, e + t) == if ShortSlot(f, slot) then DecodeRecords(fields, st, t) else Failed
  {
    hide DecodeRecords, EncodeValue, PackItems, EncodeItems, Tag, ShortValue;
    if slot.Arr? && slot.items != [] {
      if f.Packable() {
        var data := PackItems(f, slot.items).value;
        DelimitedLonger(data);
        assert e + t == Tag(2, f.tag) + (Delimited(data) + t);
        UnknownStep(fields, st, 2, f.tag, Delimited(data) + t);
        SkipDelimited(data, t);
      } else {
        UnknownItems(fields, st, f, slot.items, e, t);
      }
    } else if Present(f, slot) {
      var s := EncodeValue(f, slot.v);
      SplitConcat(Some(FieldTag(f)), s, e, t);
      UnknownValue(fields, st, f, slot.v, s.value, t);
    } else {
      assert e + t == t;
      if slot.Arr? { NothingPacked(f); }
    }
  }

  lemma NothingPacked(f: Field)
    ensures PackItems(f, []) == Some([])
  {
  }

  // ---------- the order of records ----------

  /** A record as any reader sees it: its tag and wire type. */
  datatype Head = Head(tag: nat, wireType: nat)

  /** The records of a message, read without any table; `None` if they cannot be told apart. */
  function Heads(s: Bytes): Option<seq<Head>>
    decreases |s|
  {
    if s == [] then Some([])
    else
      var p := DecodeVarint32(s);
      if p.Fail? || p.value == 0 then None
      else
        var q := SkipField(p.value % 8, p.rest);
        if q.Fail? || Heads(q.rest).None? then None
        else Some([Head(p.value / 8, p.value % 8)] + Heads(q.rest).value)
  }

  function Join(a: seq<Head>, b: Option<seq<Head>>): Option<seq<Head>>
  {
    if b.None? then None else Some(a + b.value)
  }

  /** The records that a slot is: one for an array of numbers or bools, one an item for other arrays, one for another member that is set. */
  function HeadsOf(f: Field, slot: Slot): seq<Head>
  {
    match slot
    case Arr(items) =>
      if items == [] then []
      else if f.ltype in {LBool, LVarint, LUVarint, LSVarint, LFixed32, LFixed64} then [Head(f.tag, 2)]
      else seq(|items|, _ => Head(f.tag, 2))
    case Plain(v) => if f.htype.Optional? && ProtoDefault(f, v) then [] else [Head(f.tag, WireNumber(f.ltype))]
    case Opt(has, _) => if has then [Head(f.tag, WireNumber(f.ltype))] else []
    case Active(which, _) => if which == f.tag then [Head(f.tag, WireNumber(f.ltype))] else []
    case Unset => []
  }

  /** The records of the fields from `k` on. */
  function HeadsFrom(fields: seq<Field>, m: seq<Slot>, k: nat): seq<Head>
    requires k <= |fields|
    decreases |fields| - k
  {
    if k == |fields| || SlotOf(fields, k) >= |m| then []
    else HeadsOf(fields[k], m[SlotOf(fields, k)]) + HeadsFrom(fields, m, k + 1)
  }

  lemma HeadStep(wireType: nat, tag: nat, p: Bytes)
    requires wireType < 8 && 1 <= tag < 0x2000_0000
    ensures Heads(Tag(wireType, tag) + p)
         == if SkipField(wireType, p).Ok? then Join([Head(tag, wireType)], Heads(SkipField(wireType, p).rest)) else None
  {
    hide EncodeVarint, DecodeVarint32, SkipField;
    var key := 8 * tag + wireType;
    Varint32RoundTrip(key, p);
    assert key / 8 == tag && key % 8 == wireType;
  }

  lemma HeadOfValue(f: Field, v: Value, s: Bytes, t: Bytes)
    requires 1 <= f.tag < 0x2000_0000 && EncodeValue(f, v) == Some(s) && |s| < U63 && ShortValue(f, v)
    ensures Heads(FieldTag(f) + (s + t)) == Join([Head(f.tag, WireNumber(f.ltype))], Heads(t))
  {
    hide SkipField, EncodeValue, Tag, ShortValue, Heads;
    ValueSkipped(f, v, s, t);
    assert WireType(f.ltype) == WireNumber(f.ltype);
    HeadStep(WireType(f.ltype), f.tag, s + t);
  }

  lemma {:induction false} HeadsOfItems(f: Field, items: seq<Value>, e: Bytes, t: Bytes)
    requires 1 <= f.tag < 0x2000_0000 && WireNumber(f.ltype) == 2 && EncodeItems(f, items) == Some(e) && |e| < U63
    requires forall i | 0 <= i < |items| :: ShortValue(f, items[i])
    ensures Heads(e + t) == Join(seq(|items|, _ => Head(f.tag, 2)), Heads(t))
    decreases |items|
  {
    hide EncodeValue, FieldTag, ShortValue, Heads;
    var all := seq(|items|, _ => Head(f.tag, 2));
    if items == [] {
      assert e + t == t && (Heads(t).Some? ==> all + Heads(t).value == Heads(t).value);
    } else {
      var head := Concat(Some(FieldTag(f)), EncodeValue(f, items[0]));
      var tail := EncodeItems(f, items[1..]);
      SplitConcat(head, tail, e, t);
      SplitConcat(Some(FieldTag(f)), EncodeValue(f, items[0]), head.value, tail.value + t);
      HeadOfValue(f, items[0], EncodeValue(f, items[0]).value, tail.value + t);
      HeadsOfItems(f, items[1..], tail.value, t);
      var rest := seq(|items[1..]|, _ => Head(f.tag, 2));
      assert all == [Head(f.tag, 2)] + rest;
      JoinTwice([Head(f.tag, 2)], rest, Heads(t));
    }
  }

  lemma JoinTwice(a: seq<Head>, b: seq<Head>, c: Option<seq<Head>>)
    ensures Join(a, Join(b, c)) == Join(a + b, c)
  {
    if c.Some? { assert a + (b + c.value) == (a + b) + c.value; }
  }

  /** What is written for a field is the records of its slot. */
  lemma HeadsOfField(f: Field, slot: Slot, e: Bytes, t: Bytes)
    requires 1 <= f.tag < 0x2000_0000 && SlotTyped(f, slot) && ShortSlot(f, slot)
    requires EncodeField(f, slot) == Some(e) && |e| < U63
    ensures Heads(e + t) == Join(HeadsOf(f, slot), Heads(t))
  {
    hide Heads, EncodeValue, PackItems, EncodeItems, Tag, ShortValue, ProtoDefault, ValueTyped, IsProto3Zero;
    if slot.Arr? && slot.items != [] {
      if f.Packable() {
        var data := PackItems(f, slot.items).value;
        DelimitedLonger(data);
        assert e + t == Tag(2, f.tag) + (Delimited(data) + t);
        HeadStep(2, f.tag, Delimited(data) + t);
        SkipDelimited(data, t);
      } else {
        assert WireNumber(f.ltype) == 2;
        HeadsOfItems(f, slot.items, e, t);
      }
    } else {
      if slot.Plain? && f.htype.Optional? {
        LeftOutIffDefault(f, slot.v);
        WrittenNotEmpty(f, slot);
      }
      if Present(f, slot) {
        var s := EncodeValue(f, slot.v);
        SplitConcat(Some(FieldTag(f)), s, e, t);
        HeadOfValue(f, slot.v, s.value, t);
      } else {
        assert e + t == t && HeadsOf(f, slot) == [];
        assert Heads(t).Some? ==> [] + Heads(t).value == Heads(t).value;
      }
    }
  }

  lemma WrittenNotEmpty(f: Field, slot: Slot)
    requires slot.Plain?
    ensures EncodeField(f, slot) == Some([]) ==> !Present(f, slot)
    ensures !Present(f, slot) ==> EncodeField(f, slot) == Some([])
  {
    hide EncodeValue, FieldTag;
  }

  /** All lengths from field `k` on fit 32 bits. */
  predicate ShortFrom(fields: seq<Field>, m: seq<Slot>, k: nat)
    requires k <= |fields|
  {
    forall i | k <= i < |fields| :: SlotOf(fields, i) < |m| ==> ShortSlot(fields[i], m[SlotOf(fields, i)])
  }

  /**
   A message is read without its table as the records of its members, in the order of the table: which
   they are, and with what tags and wire types, follows from the members alone.
   */
  lemma {:induction false} HeadsOfMessage(fields: seq<Field>, m: seq<Slot>, k: nat, b: Bytes)
    requires TableOk(fields) && MessageTyped(fields, m) && k <= |fields| && ShortFrom(fields, m, k)
    requires EncodeFrom(fields, m, k) == Some(b) && |b| < U63
    ensures Heads(b) == Some(HeadsFrom(fields, m, k))
    decreases |fields| - k
  {
    hide TableOk, MessageTyped, SlotTyped, SlotOf, EncodeField, HeadsOf, ShortSlot, Heads;
    if k == |fields| {
      NoHeads();
    } else {
      TypedAt(fields, m, k);
      TagInRange(fields, k);
      var head, tail := EncodeField(fields[k], m[SlotOf(fields, k)]), EncodeFrom(fields, m, k + 1);
      SplitConcat(head, tail, b, []);
      assert b + [] == b && head.value + (tail.value + []) == head.value + tail.value;
      HeadsOfField(fields[k], m[SlotOf(fields, k)], head.value, tail.value);
      HeadsOfMessage(fields, m, k + 1, tail.value);
    }
  }

  lemma NoHeads()
    ensures Heads([]) == Some([])
  {
  }

  lemma TagInRange(fields: seq<Field>, k: nat)
    requires TableOk(fields) && k < |fields|
    ensures 1 <= fields[k].tag < 0x2000_0000
  {
    assert FieldOk(fields[k]);
  }

  // ---------- arrays ----------

  /** An array of numbers or bools is one record of wire type 2, however many items it has; more than fit are refused. */
  lemma ArrayIsPacked(f: Field, items: seq<Value>)
    requires f.ltype in {LBool, LVarint, LUVarint, LSVarint, LFixed32, LFixed64}
    ensures |items| > f.arraySize ==> EncodeArray(f, items).None?
    ensures 0 < |items| <= f.arraySize && PackItems(f, items).Some? ==>
              EncodeArray(f, items) == Some(EncodeVarint(8 * f.tag + 2) + (EncodeVarint(|PackItems(f, items).value| % U64) + PackItems(f, items).value))
  {
    hide PackItems, EncodeVarint;
  }

  /** Items are packed in order, each as it is written alone. */
  lemma {:induction false} PackedInOrder(f: Field, a: seq<Value>, b: seq<Value>)
    ensures PackItems(f, a + b) == Concat(PackItems(f, a), PackItems(f, b))
    ensures forall v :: PackItems(f, [v]) == EncodeScalar(f, v)
  {
    hide EncodeScalar;
    if a == [] {
      assert a + b == b;
      assert PackItems(f, b).Some? ==> [] + PackItems(f, b).value == PackItems(f, b).value;
    } else {
      assert (a + b)[1..] == a[1..] + b;
      PackedInOrder(f, a[1..], b);
      Regroup(EncodeScalar(f, a[0]), PackItems(f, a[1..]), PackItems(f, b));
    }
    forall v ensures PackItems(f, [v]) == EncodeScalar(f, v) {
      assert [v][1..] == [];
      assert EncodeScalar(f, v).Some? ==> EncodeScalar(f, v).value + [] == EncodeScalar(f, v).value;
    }
  }

  lemma Regroup(a: Option<Bytes>, b: Option<Bytes>, c: Option<Bytes>)
    ensures Concat(a, Concat(b, c)) == Concat(Concat(a, b), c)
  {
    if a.Some? && b.Some? && c.Some? { assert a.value + (b.value + c.value) == (a.value + b.value) + c.value; }
  }

  /** Items that are not packed are records in order, each a key and a value. */
  lemma {:induction false} ItemsInOrder(f: Field, a: seq<Value>, b: seq<Value>)
    ensures EncodeItems(f, a + b) == Concat(EncodeItems(f, a), EncodeItems(f, b))
    ensures forall v :: EncodeItems(f, [v]) == Concat(Some(FieldTag(f)), EncodeValue(f, v))
    decreases |a|
  {
    hide EncodeValue, FieldTag;
    if a == [] {
      assert a + b == b;
      assert EncodeItems(f, b).Some? ==> [] + EncodeItems(f, b).value == EncodeItems(f, b).value;
    } else {
      assert (a + b)[1..] == a[1..] + b;
      ItemsInOrder(f, a[1..], b);
      Regroup(Concat(Some(FieldTag(f)), EncodeValue(f, a[0])), EncodeItems(f, a[1..]), EncodeItems(f, b));
    }
    forall v ensures EncodeItems(f, [v]) == Concat(Some(FieldTag(f)), EncodeValue(f, v)) {
      var one := Concat(Some(FieldTag(f)), EncodeValue(f, v));
      assert [v][1..] == [];
      assert one.Some? ==> one.value + [] == one.value;
    }
  }

  // ---------- numbers ----------

  /** The sign of a negative number fills 64 bits, whatever the width of the field: ten bytes. */
  lemma SignedBytes(f: Field, i: int, s: Bytes)
    requires f.ltype.LVarint? && ScalarTyped(f, IntV(i)) && EncodeScalar(f, IntV(i)) == Some(s)
    ensures IsVarint(s) && Groups(s) == if i < 0 then i + U64 else i
    ensures i < 0 ==> |s| == 10
  {
    hide EncodeVarint, IsVarint;
    var n: nat := if i < 0 then i + U64 else i;
    assert FitsSigned(i, 8);
    assert Unsigned(i, 8) == n;
    EncodeIsVarint(n);
    if i < 0 { HighBytes(n, n / 128 / 128 / 128 / 128 / 128); }
  }

  /** Unsigned numbers are spelled as they are, zigzag ones as 0, -1, 1, -2, 2 and so on. */
  lemma UnsignedBytes(f: Field, i: int, s: Bytes)
    requires f.ltype.LUVarint? || f.ltype.LSVarint?
    requires ScalarTyped(f, IntV(i)) && EncodeScalar(f, IntV(i)) == Some(s)
    ensures IsVarint(s)
    ensures Groups(s) == if f.ltype.LUVarint? then i else if i < 0 then -2 * i - 1 else 2 * i
  {
    hide EncodeVarint, IsVarint, ZigZag;
    if f.ltype.LUVarint? {
      assert Unsigned(i, 8) == i;
      EncodeIsVarint(i);
    } else {
      assert FitsSigned(i, 8);
      ZigZagOrder(i);
      EncodeIsVarint(ZigZag(i));
    }
  }

  /** Widths do not matter: what a field of one width writes, a field of any width the number fits reads as the same number. */
  lemma OtherWidth(f: Field, g: Field, i: int, s: Bytes, t: Bytes)
    requires f.ltype == g.ltype && f.ltype in {LVarint, LUVarint, LSVarint}
    requires ScalarTyped(f, IntV(i)) && EncodeScalar(f, IntV(i)) == Some(s)
    requires IsWidth(g.dataSize) && if g.ltype.LUVarint? then FitsUnsigned(i, g.dataSize) else FitsSigned(i, g.dataSize)
    ensures DecodeScalar(g, s + t) == Ok(IntV(i), t)
  {
    hide EncodeVarint, DecodeVarint, DecodeScalar, ZigZag;
    var n := if f.ltype.LSVarint? then ZigZag(i) else Unsigned(i, 8);
    if f.ltype.LSVarint? {
      assert FitsSigned(i, 8);
      ZigZagBijection(i, 0);
    } else {
      SameResidue(i, g.dataSize);
      if f.ltype.LUVarint? { assert Unsigned(i, 8) == i; }
    }
    VarintRoundTrip(n, t);
    IntRead(g, s + t, n, t, i);
  }

  lemma SameResidue(i: int, w: nat)
    ensures Unsigned(i, 8) < U64 && (i - Unsigned(i, 8)) % Modulus(w) == 0
  {
    var q := i / U64;
    assert i - Unsigned(i, 8) == U64 * q;
    MultipleOf(U64, q);
    MultipleOf(U32, U32 * q);
  }

  lemma MultipleOf(m: int, q: int)
    requires m > 0
    ensures (m * q) % m == 0
  {
    var r := (m * q) % m;
    var d := q - (m * q) / m;
    assert r == m * d;
    MultipleFar(m, d);
  }

  /** The low four bytes of a number, lowest first. */
  function FourOf(x: nat): seq<nat>
  {
    [x % 0x100, x / 0x100 % 0x100, x / 0x1_0000 % 0x100, x / 0x100_0000 % 0x100]
  }

  /** Fixed-width numbers are written lowest byte first. */
  lemma FixedBytes(f: Field, i: int, s: Bytes)
    requires f.ltype.LFixed32? || f.ltype.LFixed64?
    requires ScalarTyped(f, IntV(i)) && EncodeScalar(f, IntV(i)) == Some(s)
    ensures s == if f.ltype.LFixed32? then FourOf(i) else FourOf(i) + FourOf(i / U32)
  {
    hide LittleEndian, FourOf;
    if f.ltype.LFixed32? {
      assert Unsigned(i, 4) == i;
      FourBytes(i, 4);
      NoBytes(i / U32);
    } else {
      assert Unsigned(i, 8) == i;
      FourBytes(i, 8);
      FourBytes(i / U32, 4);
      NoBytes(i / U32 / U32);
    }
  }

  lemma NoBytes(x: nat)
    ensures LittleEndian(x, 0) == []
  {
  }

  lemma Nested(x: nat)
    ensures x / 0x100 / 0x100 == x / 0x1_0000 && x / 0x1_0000 / 0x100 == x / 0x100_0000 && x / 0x100_0000 / 0x100 == x / U32
  {
  }

  lemma FourBytes(x: nat, n: nat)
    requires n >= 4
    ensures LittleEndian(x, n) == FourOf(x) + LittleEndian(x / U32, n - 4)
  {
    hide LittleEndian;
    Nested(x);
    LowByte(x, n);
    LowByte(x / 0x100, n - 1);
    LowByte(x / 0x1_0000, n - 2);
    LowByte(x / 0x100_0000, n - 3);
  }

  lemma LowByte(x: nat, n: nat)
    requires n >= 1
    ensures LittleEndian(x, n) == [x % 0x100] + LittleEndian(x / 0x100, n - 1)
  {
  }

  // ---------- bools, bytes and strings ----------

  /** A bool is written as 0 or 1, and every number but 0 is read as true. */
  lemma BoolOnWire(f: Field, b: bool, s: Bytes)
    requires f.ltype.LBool?
    ensures EncodeScalar(f, BoolV(b)) == Some([if b then 1 else 0])
    ensures var p := DecodeVarint32(s);
            DecodeScalar(f, s) == if p.Fail? then Fail else Ok(BoolV(p.value > 0), p.rest)
  {
  }

  /** Bytes and strings are written behind their length; bytes that do not fit the member beside its size are refused. */
  lemma BytesOnWire(f: Field, b: Bytes)
    requires f.ltype in {LBytes, LString, LFixedLengthBytes} && |b| < U64
    ensures EncodeScalar(f, BytesV(b))
         == if f.ltype.LBytes? && PB_SIZE_WIDTH + |b| > f.dataSize then None else Some(EncodeVarint(|b|) + b)
  {
    hide EncodeVarint, Delimited;
    DelimitedShort(b);
  }

  /**
   What a member takes from bytes behind a length: a bytes member needs room for its size of
   `PB_SIZE_WIDTH` bytes, a string for its NUL; a member of fixed length takes just that, and no bytes as zeros.
   */
  lemma BytesRead(f: Field, s: Bytes, b: Bytes, t: Bytes)
    requires f.ltype in {LBytes, LString, LFixedLengthBytes} && f.dataSize <= PB_SIZE_MAX && ReadDelimited(s) == Ok(b, t)
    ensures DecodeScalar(f, s)
         == if f.ltype.LBytes? then if PB_SIZE_WIDTH + |b| <= f.dataSize then Ok(BytesV(b), t) else Fail
            else if f.ltype.LString? then if |b| + 1 <= f.dataSize then Ok(BytesV(CString(b)), t) else Fail
            else if |b| == 0 then Ok(BytesV(seq(f.dataSize, _ => 0)), t)
            else if |b| == f.dataSize then Ok(BytesV(b), t)
            else Fail
    ensures PB_SIZE_MAX == if PB_SIZE_WIDTH == 1 then 0xFF else if PB_SIZE_WIDTH == 2 then 0xFFFF else 0xFFFF_FFFF
  {
    hide DecodeVarint32, CString;
    var Ok(n, r) := DecodeVarint32(s);
    assert n == |b| && ReadBytes(r, n) == Ok(b, t);
    if n == 0 { assert r == t; }
  }

  // ---------- what is left out ----------

  /** The proto3 default of a member that is no submessage: false, 0 or no bytes. */
  predicate ProtoDefault(f: Field, v: Value)
  {
    match f.ltype
    case LBool => v == BoolV(false)
    case LBytes => v == BytesV([])
    case LString => v == BytesV([])
    case LFixedLengthBytes => f.dataSize == 0
    case LSubmessage => v.MsgV? && EncodeMessage(f.sub, v.msg) == Some([]) && Elidable(f.sub, v.msg)
    case _ => v == IntV(0)
  }

  /** A proto3 field is left out exactly if it holds the default, and a submessage if it has nothing to write. */
  lemma LeftOutIffDefault(f: Field, v: Value)
    requires f.Singular() && ValueTyped(f, v)
    ensures EncodeField(f, Plain(v)) == Some([]) <==> ProtoDefault(f, v)
  {
    hide EncodeValue, EncodeMessage, FieldTag, MessageTyped;
    if f.ltype.LSubmessage? { ElidedIffEmpty(f.sub, v.msg); }
  }
}
