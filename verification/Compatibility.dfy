/**
 Laws of the record loop on any input: bytes after a record never matter to it, records
 with unknown tags can be inserted anywhere, and decoding a concatenation merges.
 */
module Compatibility {
  import opened Wrappers
  import opened Bits
  import opened Varint
  import opened Scalars
  import opened Message
  import opened Encode
  import opened Decode
  import opened Records

  /** `p` with `t` behind the input. */
  function Extend<T>(p: Parsed<T>, t: Bytes): Parsed<T>
  {
    match p
    case Fail => Fail
    case Ok(v, r) => Ok(v, r + t)
  }

  // ---------- bytes behind a record ----------

  lemma ReadBytesExtends(s: Bytes, n: nat, t: Bytes)
    requires ReadBytes(s, n).Ok?
    ensures ReadBytes(s + t, n) == Extend(ReadBytes(s, n), t)
  {
    assert (s + t)[..n] == s[..n] && (s + t)[n..] == s[n..] + t;
  }

  lemma ReadDelimitedExtends(s: Bytes, t: Bytes)
    requires ReadDelimited(s).Ok?
    ensures ReadDelimited(s + t) == Extend(ReadDelimited(s), t)
  {
    hide DecodeVarint32, ReadBytes;
    DecodeVarint32Extends(s, t);
    var Ok(n, r) := DecodeVarint32(s);
    ReadBytesExtends(r, n, t);
  }

  lemma SkipFieldExtends(wireType: nat, s: Bytes, t: Bytes)
    requires SkipField(wireType, s).Ok?
    ensures SkipField(wireType, s + t) == Extend(SkipField(wireType, s), t)
  {
    hide ReadBytes, ReadDelimited, SplitVarint;
    if wireType == WT_VARINT {
      SplitExtends(s, t);
    } else if wireType == WT_64BIT {
      ReadBytesExtends(s, 8, t);
    } else if wireType == WT_STRING {
      ReadDelimitedExtends(s, t);
    } else {
      ReadBytesExtends(s, 4, t);
    }
  }

  lemma LengthThenBytes(s: Bytes, t: Bytes)
    requires DecodeVarint32(s).Ok?
    ensures DecodeVarint32(s + t) == Extend(DecodeVarint32(s), t)
    ensures var Ok(n, r) := DecodeVarint32(s); ReadBytes(r, n).Ok? ==> ReadBytes(r + t, n) == Extend(ReadBytes(r, n), t)
  {
    hide DecodeVarint32, ReadBytes;
    DecodeVarint32Extends(s, t);
    var Ok(n, r) := DecodeVarint32(s);
    if ReadBytes(r, n).Ok? { ReadBytesExtends(r, n, t); }
  }

  lemma DecodeScalarExtends(f: Field, s: Bytes, t: Bytes)
    requires DecodeScalar(f, s).Ok?
    ensures DecodeScalar(f, s + t) == Extend(DecodeScalar(f, s), t)
  {
    hide DecodeVarint, DecodeVarint32, ReadBytes, CString, FromLittleEndian, CastSigned, UnZigZag, Zeros, Signed, Unsigned;
    match f.ltype
    case LVarint => DecodeVarintExtends(s, t);
    case LUVarint => DecodeVarintExtends(s, t);
    case LSVarint => DecodeVarintExtends(s, t);
    case LFixed32 => ReadBytesExtends(s, 4, t);
    case LFixed64 => ReadBytesExtends(s, 8, t);
    case _ => LengthThenBytes(s, t);
  }

  lemma DecodeValueExtends(f: Field, prior: Value, s: Bytes, t: Bytes)
    requires DecodeValue(f, prior, s).Ok?
    ensures DecodeValue(f, prior, s + t) == Extend(DecodeValue(f, prior, s), t)
  {
    hide DecodeNoInit, ReadDelimited, DecodeScalar, DefaultMessage;
    if f.ltype.LSubmessage? {
      ReadDelimitedExtends(s, t);
    } else {
      DecodeScalarExtends(f, s, t);
    }
  }

  lemma DecodeItemsExtends(f: Field, wireType: nat, a: Items, s: Bytes, t: Bytes)
    requires DecodeItems(f, wireType, a, s).Ok?
    ensures DecodeItems(f, wireType, a, s + t) == Extend(DecodeItems(f, wireType, a, s), t)
  {
    hide DecodePacked, ReadDelimited, DecodeValue, DefaultValue;
    if wireType == WT_STRING && f.Packable() {
      ReadDelimitedExtends(s, t);
    } else {
      DecodeValueExtends(f, DefaultValue(f), s, t);
    }
  }

  lemma DecodeSingleExtends(f: Field, slot: Slot, s: Bytes, t: Bytes)
    requires DecodeSingle(f, slot, s).Ok?
    ensures DecodeSingle(f, slot, s + t) == Extend(DecodeSingle(f, slot, s), t)
  {
    hide DecodeValue, DefaultValue;
    var prior := if f.htype.Oneof? then DefaultValue(f) else if slot.Plain? || slot.Opt? then slot.v else BytesV([]);
    DecodeValueExtends(f, prior, s, t);
  }

  lemma DecodeFieldExtends(fields: seq<Field>, st: State, i: nat, wireType: nat, s: Bytes, t: Bytes)
    requires i < |fields| && DecodeField(fields, st, i, wireType, s).Ok?
    ensures DecodeField(fields, st, i, wireType, s + t) == Extend(DecodeField(fields, st, i, wireType, s), t)
  {
    hide DecodeItems, DecodeSingle, SlotOf, FixedComplete;
    var f, k := fields[i], SlotOf(fields, i);
    if f.FixedCount() {
      var count := if st.fixedField == Some(i) then st.fixedCount else 0;
      DecodeItemsExtends(f, wireType, Items(st.msg[k].items, count), s, t);
    } else if f.Counted() {
      DecodeItemsExtends(f, wireType, Items(st.msg[k].items, |st.msg[k].items|), s, t);
    } else {
      DecodeSingleExtends(f, st.msg[k], s, t);
    }
  }

  lemma DecodeRecordExtends(fields: seq<Field>, st: State, tag: nat, wireType: nat, s: Bytes, t: Bytes)
    requires DecodeRecord(fields, st, tag, wireType, s).Ok?
    ensures DecodeRecord(fields, st, tag, wireType, s + t) == Extend(DecodeRecord(fields, st, tag, wireType, s), t)
  {
    hide DecodeField, SkipField, DecodeVarint32, FindTag;
    var i := FindTag(fields, tag, 0);
    if i < |fields| {
      DecodeFieldExtends(fields, st, i, wireType, s, t);
    } else if fields == [] && tag == 0 {
      DecodeVarint32Extends(s, t);
    } else {
      SkipFieldExtends(wireType, s, t);
    }
  }

  /** A run over complete records goes on with whatever follows; a run that met a zero tag stops where it stopped. */
  lemma {:induction false} RecordsExtend(fields: seq<Field>, st: State, s: Bytes, t: Bytes)
    ensures match DecodeRecords(fields, st, s)
            case Failed => true
            case Ended(st') => DecodeRecords(fields, st, s + t) == DecodeRecords(fields, st', t)
            case Stopped(st', r) => DecodeRecords(fields, st, s + t) == Stopped(st', r + t)
    decreases |s|
  {
    hide DecodeRecord, DecodeVarint32;
    if s == [] {
      assert s + t == t;
    } else if DecodeVarint32(s).Ok? {
      DecodeVarint32Extends(s, t);
      var Ok(key, r) := DecodeVarint32(s);
      if key != 0 && DecodeRecord(fields, st, key / 8, key % 8, r).Ok? {
        DecodeRecordExtends(fields, st, key / 8, key % 8, r, t);
        var Ok(st', r') := DecodeRecord(fields, st, key / 8, key % 8, r);
        RecordsExtend(fields, st', r', t);
      }
    }
  }

  // ---------- unknown fields ----------

  /** Complete data of a record, for the four wire types and in any spelling of the length. */
  predicate WellFormedData(wireType: nat, data: Bytes)
  {
    || (wireType == WT_VARINT && IsVarint(data))
    || (wireType == WT_64BIT && |data| == 8)
    || (wireType == WT_32BIT && |data| == 4)
    || (wireType == WT_STRING && exists n | 0 <= n <= |data| :: DecodeVarint32(data[..n]) == Ok(|data| - n, []))
  }

  /** `pb_skip_field` consumes the data of the record, whatever follows, and no more: that is all it accepts. */
  lemma SkipIsExact(wireType: nat, data: Bytes, t: Bytes)
    ensures SkipField(wireType, data + t) == Ok((), t) <==> WellFormedData(wireType, data)
  {
    if wireType == WT_VARINT {
      SkipVarintExact(data, t);
    } else if wireType == WT_STRING {
      SkipStringExact(data, t);
    } else {
      assert |data| <= |data + t| ==> (data + t)[|data|..] == t;
    }
  }

  lemma SkipVarintExact(data: Bytes, t: Bytes)
    ensures SkipVarint(data + t) == Ok((), t) <==> IsVarint(data)
  {
    if IsVarint(data) { SplitOfVarint(data, t); }
    if SkipVarint(data + t) == Ok((), t) {
      var Ok(g, r) := SplitVarint(data + t);
      assert data + t == g + t && |g| == |data|;
      assert data == (data + t)[..|data|] == g;
    }
  }

  lemma SkipStringExact(data: Bytes, t: Bytes)
    ensures SkipField(WT_STRING, data + t) == Ok((), t) <==> WellFormedData(WT_STRING, data)
  {
    hide DecodeVarint32;
    if WellFormedData(WT_STRING, data) {
      var n :| 0 <= n <= |data| && DecodeVarint32(data[..n]) == Ok(|data| - n, []);
      DecodeVarint32Extends(data[..n], data[n..] + t);
      assert data[..n] + (data[n..] + t) == data + t;
      assert [] + (data[n..] + t) == data[n..] + t;
    }
    if SkipField(WT_STRING, data + t) == Ok((), t) {
      var Ok(size, r) := DecodeVarint32(data + t);
      var n := |data| - size;
      assert r[size..] == t && |r| == size + |t|;
      PrefixVarint(data + t, r);
      assert (data + t)[..n] == data[..n];
    }
  }

  /** A varint ends where its rest begins. */
  lemma PrefixVarint(s: Bytes, r: Bytes)
    requires DecodeVarint32(s).Ok? && DecodeVarint32(s).rest == r
    ensures |r| <= |s| && DecodeVarint32(s[..|s| - |r|]) == Ok(DecodeVarint32(s).value, [])
  {
    hide Accepts32, Acc32;
    var g := SplitVarint(s).value;
    SplitOfVarint(g, []);
    assert g + [] == g && s[..|s| - |r|] == g;
  }

  /** A complete record, in any spelling, that no field of the table takes. */
  predicate UnknownRecord(fields: seq<Field>, g: Bytes, data: Bytes)
  {
    && DecodeVarint32(g).Ok? && DecodeVarint32(g).rest == []
    && var key := DecodeVarint32(g).value;
       && key != 0 && (fields == [] ==> key >= 8)
       && (forall i | 0 <= i < |fields| :: fields[i].tag != key / 8)
       && WellFormedData(key % 8, data)
  }

  /** An unknown record can stand at any record boundary without changing the outcome. */
  lemma UnknownRecordIgnored(fields: seq<Field>, st: State, s1: Bytes, g: Bytes, data: Bytes, s2: Bytes)
    requires DecodeRecords(fields, st, s1).Ended? && UnknownRecord(fields, g, data)
    ensures DecodeRecords(fields, st, s1 + (g + data) + s2) == DecodeRecords(fields, st, s1 + s2)
  {
    hide DecodeField, SkipField, DecodeVarint32, WellFormedData;
    var st', key := DecodeRecords(fields, st, s1).st, DecodeVarint32(g).value;
    assert s1 + (g + data) + s2 == s1 + (g + (data + s2));
    RecordsExtend(fields, st, s1, g + (data + s2));
    RecordsExtend(fields, st, s1, s2);
    DecodeVarint32Extends(g, data + s2);
    assert [] + (data + s2) == data + s2;
    SkipIsExact(key % 8, data, s2);
    assert FindTag(fields, key / 8, 0) == |fields|;
  }

  /** Forward compatibility of `pb_decode_noinit`: an accepted message stays accepted, with the same struct. */
  lemma ForwardCompatible(fields: seq<Field>, m: seq<Slot>, s1: Bytes, g: Bytes, data: Bytes, s2: Bytes)
    requires DecodeRecords(fields, Start(m), s1).Ended? && UnknownRecord(fields, g, data)
    ensures DecodeNoInit(fields, m, s1 + (g + data) + s2) == DecodeNoInit(fields, m, s1 + s2)
  {
    hide DecodeRecords, UnknownRecord, Complete;
    UnknownRecordIgnored(fields, Start(m), s1, g, data, s2);
  }

  // ---------- tag 0 ----------

  /** A complete record with tag 0 and a wire type other than 0: the key is not the zero that ends a message. */
  predicate TagZeroRecord(g: Bytes, data: Bytes)
  {
    && DecodeVarint32(g).Ok? && DecodeVarint32(g).rest == []
    && 1 <= DecodeVarint32(g).value < 8 && WellFormedData(DecodeVarint32(g).value, data)
  }

  /** Records with tag 0 are skipped, at every record boundary. */
  ghost predicate SkipsTagZero(fields: seq<Field>, m: seq<Slot>)
  {
    forall s1: Bytes, g: Bytes, data: Bytes, s2: Bytes ::
      DecodeRecords(fields, Start(m), s1).Ended? && TagZeroRecord(g, data) ==>
        DecodeNoInit(fields, m, s1 + (g + data) + s2) == DecodeNoInit(fields, m, s1 + s2)
  }

  /**
   Records with tag 0 are skipped exactly when the table is not empty. On the empty table the
   terminator is taken for the field, and its data is read as a bool whatever the wire type.
   */
  lemma TagZero(fields: seq<Field>, m: seq<Slot>)
    requires TableOk(fields)
    ensures SkipsTagZero(fields, m) <==> fields != []
  {
    hide DecodeNoInit, DecodeVarint32, WellFormedData;
    if fields == [] {
      var g: Bytes, data: Bytes := [5], [0, 0, 0, 0];
      EmptyTableTagZero(m);
      assert [] + (g + data) + [] == [5, 0, 0, 0, 0];
      assert DecodeNoInit(fields, m, [] + (g + data) + []) != DecodeNoInit(fields, m, [] + []);
    } else {
      forall s1: Bytes, g: Bytes, data: Bytes, s2: Bytes | DecodeRecords(fields, Start(m), s1).Ended? && TagZeroRecord(g, data)
        ensures DecodeNoInit(fields, m, s1 + (g + data) + s2) == DecodeNoInit(fields, m, s1 + s2)
      {
        forall i | 0 <= i < |fields| ensures fields[i].tag != 0 { assert FieldOk(fields[i]); }
        ForwardCompatible(fields, m, s1, g, data, s2);
      }
    }
  }

  /** The record `05 00 00 00 00` on the empty table: one byte of the four is taken, and the next one ends the message. */
  lemma EmptyTableTagZero(m: seq<Slot>)
    ensures TagZeroRecord([5], [0, 0, 0, 0])
    ensures DecodeRecords([], Start(m), []) == Ended(Start(m)) && DecodeNoInit([], m, []) == Ok(m, [])
    ensures DecodeNoInit([], m, [5, 0, 0, 0, 0]) == Ok(m, [0, 0])
    ensures DecodeMessage([], [5, 0, 0, 0, 0]) == Ok([], [0, 0])
  {
    hide DecodeVarint32;
    OneByteVarint(5, []);
    OneByteVarint(5, [0, 0, 0, 0]);
    OneByteVarint(0, [0, 0, 0]);
    OneByteVarint(0, [0, 0]);
    assert [5] + [0, 0, 0, 0] == [5, 0, 0, 0, 0] && [0] + [0, 0, 0] == [0, 0, 0, 0] && [0] + [0, 0] == [0, 0, 0];
    var st := Start(m);
    assert DecodeRecord([], st, 0, 5, [0, 0, 0, 0]) == Ok(st, [0, 0, 0]);
    assert DecodeRecords([], st, [0, 0, 0]) == Stopped(st, [0, 0]);
    assert DecodeRecords([], st, [5, 0, 0, 0, 0]) == Stopped(st, [0, 0]);
    assert Complete([], st);
    assert DefaultMessage([]) == [];
  }

  lemma OneByteVarint(b: Byte, t: Bytes)
    requires b < 128
    ensures DecodeVarint32([b] + t) == Ok(b, t) && [b] + [] == [b]
  {
    Varint32RoundTrip(b, t);
  }

  // ---------- merging ----------

  /** The first fixed count field that a run meets. */
  function FirstFixed(fields: seq<Field>, st: State, s: Bytes): Option<nat>
    decreases |s|
  {
    if s == [] then None
    else
      match DecodeVarint32(s)
      case Fail => None
      case Ok(key, r) =>
        var i := FindTag(fields, key / 8, 0);
        if key == 0 then None
        else if i < |fields| && fields[i].FixedCount() then Some(i)
        else
          match DecodeRecord(fields, st, key / 8, key % 8, r)
          case Fail => None
          case Ok(st', r') => FirstFixed(fields, st', r')
  }

  /** `st`, as it is when an earlier message has ended in the state `carry`. */
  function After(carry: State, st: State): State
  {
    var seen := st.seen + carry.seen;
    if st.fixedField.Some? then st.(seen := seen)
    else State(st.msg, seen, carry.fixedField, carry.fixedCount)
  }

  function RunAfter(carry: State, run: Run): Run
  {
    match run
    case Failed => Failed
    case Ended(st) => Ended(After(carry, st))
    case Stopped(st, r) => Stopped(After(carry, st), r)
  }

  /** The array in progress in `carry` is not empty, and `s` goes on with it as its first fixed count field. */
  predicate Clash(fields: seq<Field>, carry: State, st: State, s: Bytes)
  {
    && carry.fixedField.Some? && carry.fixedField.value < |fields| && fields[carry.fixedField.value].arraySize > 0
    && st.fixedField.None? && FirstFixed(fields, st, s) == carry.fixedField
  }

  /** One record, unless it is the one that clashes. */
  lemma FieldAfter(fields: seq<Field>, carry: State, st: State, i: nat, wireType: nat, s: Bytes)
    requires i < |fields| && FixedComplete(fields, carry)
    requires fields[i].FixedCount() && st.fixedField.None? && carry.fixedField == Some(i) ==> fields[i].arraySize == 0
    ensures DecodeField(fields, After(carry, st), i, wireType, s)
         == match DecodeField(fields, st, i, wireType, s)
            case Fail => Fail
            case Ok(st', r) => Ok(After(carry, st'), r)
  {
    hide DecodeItems, DecodeSingle, SlotOf;
    assert (st.seen + carry.seen) + {i} == (st.seen + {i}) + carry.seen;
  }

  /** Without a clash the earlier message changes nothing but the fields it has seen. */
  lemma {:induction false} RecordsAfter(fields: seq<Field>, carry: State, st: State, s: Bytes)
    requires FixedComplete(fields, carry) && !Clash(fields, carry, st, s)
    ensures DecodeRecords(fields, After(carry, st), s) == RunAfter(carry, DecodeRecords(fields, st, s))
    decreases |s|
  {
    hide DecodeField, SkipField, DecodeVarint32, FindTag, FixedComplete;
    if s != [] && DecodeVarint32(s).Ok? {
      var Ok(key, r) := DecodeVarint32(s);
      if key != 0 {
        var i := FindTag(fields, key / 8, 0);
        if i < |fields| { FieldAfter(fields, carry, st, i, key % 8, r); }
        if DecodeRecord(fields, st, key / 8, key % 8, r).Ok? {
          var Ok(st', r') := DecodeRecord(fields, st, key / 8, key % 8, r);
          if i < |fields| { FixedStarted(fields, st, i, key % 8, r); }
          RecordsAfter(fields, carry, st', r');
        }
      }
    }
  }

  /** Only a record of a fixed count field changes which one is in progress. */
  lemma FixedStarted(fields: seq<Field>, st: State, i: nat, wireType: nat, s: Bytes)
    requires i < |fields| && DecodeField(fields, st, i, wireType, s).Ok?
    ensures var st' := DecodeField(fields, st, i, wireType, s).value;
            if fields[i].FixedCount() then st'.fixedField == Some(i)
            else st'.fixedField == st.fixedField && st'.fixedCount == st.fixedCount
  {
    hide DecodeItems, DecodeSingle, SlotOf;
  }

  /** A record for an array that is full already: an error, unless it is packed and has no items. */
  lemma FullArray(fields: seq<Field>, full: State, st: State, i: nat, wireType: nat, s: Bytes)
    requires i < |fields| && fields[i].FixedCount() && fields[i].arraySize > 0
    requires full.msg == st.msg && full.fixedField == Some(i) && full.fixedCount == fields[i].arraySize
    requires st.fixedField.None? || (st.fixedField == Some(i) && st.fixedCount == 0)
    requires DecodeField(fields, full, i, wireType, s).Ok?
    ensures DecodeField(fields, full, i, wireType, s).value == full
    ensures DecodeField(fields, st, i, wireType, s)
         == Ok(st.(fixedField := Some(i), fixedCount := 0), DecodeField(fields, full, i, wireType, s).rest)
  {
    hide DecodeValue, DecodeScalar, SlotOf, ReadDelimited;
    var k := SlotOf(fields, i);
    assert st.msg[k := Arr(st.msg[k].items)] == st.msg;
  }

  /** Once they clash, a run that would succeed from `st` fails from `full`. */
  lemma {:induction false} RunsClash(fields: seq<Field>, full: State, st: State, i: nat, s: Bytes)
    requires i < |fields| && fields[i].FixedCount() && fields[i].arraySize > 0
    requires full.msg == st.msg && full.fixedField == Some(i) && full.fixedCount == fields[i].arraySize
    requires if st.fixedField.None? then FirstFixed(fields, st, s) == Some(i) else st.fixedField == Some(i) && st.fixedCount == 0
    requires !DecodeRecords(fields, st, s).Failed? && FixedComplete(fields, DecodeRecords(fields, st, s).st)
    ensures DecodeRecords(fields, full, s).Failed?
    decreases |s|
  {
    hide DecodeField, SkipField, DecodeVarint32, FindTag;
    assert s != [] && DecodeVarint32(s).Ok? && DecodeVarint32(s).value != 0;
    var Ok(key, r) := DecodeVarint32(s);
    var j, wireType := FindTag(fields, key / 8, 0), key % 8;
    var Ok(st', r') := DecodeRecord(fields, st, key / 8, wireType, r);
    if j < |fields| {
      if fields[j].FixedCount() {
        OtherFixed(fields, st, j, wireType, r);
        assert j == i;
        if DecodeField(fields, full, i, wireType, r).Ok? {
          FullArray(fields, full, st, i, wireType, r);
          RunsClash(fields, full, st', i, r');
        }
      } else {
        FieldIgnoresFixed(fields, full, st, j, wireType, r);
        FixedStarted(fields, st, j, wireType, r);
        RunsClash(fields, DecodeField(fields, full, j, wireType, r).value, st', i, r');
      }
    } else {
      RunsClash(fields, full, st', i, r');
    }
  }

  /** Another fixed count field is an error while the one in progress is incomplete. */
  lemma OtherFixed(fields: seq<Field>, st: State, j: nat, wireType: nat, s: Bytes)
    requires j < |fields| && DecodeField(fields, st, j, wireType, s).Ok? && fields[j].FixedCount()
    ensures st.fixedField == Some(j) || FixedComplete(fields, st)
  {
  }

  lemma FieldIgnoresFixed(fields: seq<Field>, full: State, st: State, j: nat, wireType: nat, s: Bytes)
    requires j < |fields| && !fields[j].FixedCount() && full.msg == st.msg && DecodeField(fields, st, j, wireType, s).Ok?
    ensures var p := DecodeField(fields, full, j, wireType, s);
            && p.Ok? && p.rest == DecodeField(fields, st, j, wireType, s).rest
            && p.value.msg == DecodeField(fields, st, j, wireType, s).value.msg
            && p.value.fixedField == full.fixedField && p.value.fixedCount == full.fixedCount
  {
    hide DecodeItems, DecodeSingle, SlotOf;
  }

  /**
   What `e2` does to the struct that `e1` left, `e1 + e2` does in one call, and required fields
   of `e1` need not come again: exactly unless `e2` goes on with the fixed array that `e1` ended with.
   */
  lemma MergeByConcatenation(fields: seq<Field>, m: seq<Slot>, e1: Bytes, e2: Bytes)
    requires DecodeNoInit(fields, m, e1).Ok? && DecodeRecords(fields, Start(m), e1).Ended?
    ensures var m1, st1 := DecodeNoInit(fields, m, e1).value, DecodeRecords(fields, Start(m), e1).st;
            var clash := Clash(fields, st1, Start(m1), e2);
            && (!clash ==>
                  DecodeNoInit(fields, m, e1 + e2)
                  == match DecodeRecords(fields, Start(m1), e2)
                     case Failed => Fail
                     case Ended(st) => if FixedComplete(fields, st) then Ok(st.msg, []) else Fail
                     case Stopped(st, r) => if FixedComplete(fields, st) then Ok(st.msg, r) else Fail)
            && (DecodeNoInit(fields, m1, e2).Ok? ==>
                  (DecodeNoInit(fields, m, e1 + e2) == DecodeNoInit(fields, m1, e2) <==> !clash))
  {
    hide DecodeRecords, FirstFixed;
    var st1 := DecodeRecords(fields, Start(m), e1).st;
    var st2 := Start(st1.msg);
    RecordsExtend(fields, Start(m), e1, e2);
    assert After(st1, st2) == st1;
    if Clash(fields, st1, st2, e2) {
      FirstFixedIsFixed(fields, st2, e2);
      if DecodeNoInit(fields, st1.msg, e2).Ok? { RunsClash(fields, st1, st2, st1.fixedField.value, e2); }
    } else {
      RecordsAfter(fields, st1, st2, e2);
    }
  }

  lemma {:induction false} FirstFixedIsFixed(fields: seq<Field>, st: State, s: Bytes)
    ensures var i := FirstFixed(fields, st, s); i.Some? ==> i.value < |fields| && fields[i.value].FixedCount()
    decreases |s|
  {
    hide DecodeRecord, DecodeVarint32, FindTag;
    if s != [] && DecodeVarint32(s).Ok? {
      var Ok(key, r) := DecodeVarint32(s);
      if DecodeRecord(fields, st, key / 8, key % 8, r).Ok? {
        var Ok(st', r') := DecodeRecord(fields, st, key / 8, key % 8, r);
        FirstFixedIsFixed(fields, st', r');
      }
    }
  }

  /** An array of one bool: the message `08 01` is accepted, but twice in a row it clashes with itself. */
  lemma FixedCountDoesNotMerge(f: Field, m: seq<Slot>, e: Bytes)
    requires f == Field(1, Static, Repeated, LBool, 0, 0, 1, 1, [], None) && m == [Arr([BoolV(false)])]
    requires e == Tag(WT_VARINT, 1) + EncodeVarint(1)
    ensures DecodeNoInit([f], m, e) == Ok([Arr([BoolV(true)])], [])
    ensures DecodeNoInit([f], m, e + e).Fail?
  {
    hide Tag, EncodeVarint, DecodeVarint32, DecodeRecords;
    var st0 := Start(m);
    var one := EncodeVarint(1);
    Varint32RoundTrip(1, []);
    Varint32RoundTrip(1, e);
    assert one + [] == one && e + e == Tag(WT_VARINT, 1) + (one + e);
    var st1 := Received([f], st0, 0, [BoolV(true)]);
    assert [] + [BoolV(true)] == [BoolV(true)];
    assert Splice([BoolV(false)], 0, [BoolV(true)]) == [BoolV(true)];
    assert st1.msg == [Arr([BoolV(true)])] && Complete([f], st1);
    assert Holds([f], st0, 0, []) && Holds([f], st1, 0, [BoolV(true)]);
    FieldStep([f], st0, 0, WT_VARINT, one);
    OneItem([f], st0, 0, [], WT_VARINT, one);
    FieldStep([f], st0, 0, WT_VARINT, one + e);
    OneItem([f], st0, 0, [], WT_VARINT, one + e);
    FieldStep([f], st1, 0, WT_VARINT, one);
    OneItem([f], st1, 0, [BoolV(true)], WT_VARINT, one);
    NoMoreRecords([f], st1);
  }

  lemma NoMoreRecords(fields: seq<Field>, st: State)
    ensures DecodeRecords(fields, st, []) == Ended(st)
  {
  }
}
