/**
 `pb_encode.c` as it runs: an output stream that writes into a buffer or only counts,
 and the encoder's methods on it, each proved to emit what `Encode` says.
 */
module OutputStream {
  import opened Wrappers
  import opened Bits
  import Varint
  import opened Scalars
  import opened Message
  import opened Encode
  import FieldIter

  lemma ConcatAssoc(done: Bytes, a: Option<Bytes>, b: Option<Bytes>)
    ensures Concat(Some(done), Concat(a, b)) == Concat(Concat(Some(done), a), b)
  {
    if a.Some? && b.Some? {
      assert done + (a.value + b.value) == (done + a.value) + b.value;
    }
  }

  lemma ConcatNothing(a: Option<Bytes>)
    ensures Concat(Some([]), a) == a && Concat(a, Some([])) == a
  {
    if a.Some? {
      assert [] + a.value == a.value && a.value + [] == a.value;
    }
  }

  lemma Shift8(v: nat)
    ensures v / 0x100 / 0x100 == v / 0x1_0000
    ensures v / 0x1_0000 / 0x100 == v / 0x100_0000
    ensures v / 0x100_0000 / 0x100 == v / U32
  {
  }

  lemma LittleEndianStep(v: nat, n: nat)
    ensures LittleEndian(v, n + 1) == [v % 256] + LittleEndian(v / 0x100, n)
  {
  }

  /** The four bytes `pb_encode_fixed32` stores, and the bytes after them. */
  lemma LittleEndianFour(v: nat, n: nat)
    ensures LittleEndian(v, n + 4)
         == [v % 256, v / 0x100 % 256, v / 0x1_0000 % 256, v / 0x100_0000 % 256] + LittleEndian(v / U32, n)
  {
    hide LittleEndian;
    Shift8(v);
    LittleEndianStep(v, n + 3);
    LittleEndianStep(v / 0x100, n + 2);
    LittleEndianStep(v / 0x1_0000, n + 1);
    LittleEndianStep(v / 0x100_0000, n);
  }

  lemma LittleEndianNone(v: nat)
    ensures LittleEndian(v, 0) == []
  {
  }

  /** The packed items of a fixed-width type take `width` bytes each. */
  lemma {:induction false} PackedFixedSize(f: Field, items: seq<Value>, width: nat)
    requires (f.ltype.LFixed32? && width == 4) || (f.ltype.LFixed64? && width == 8)
    requires forall i | 0 <= i < |items| :: ScalarTyped(f, items[i])
    ensures PackItems(f, items).Some? && |PackItems(f, items).value| == width * |items|
  {
    hide ScalarTyped, EncodeScalar;
    if items != [] {
      FixedSize(f, items[0], width);
      PackedFixedSize(f, items[1..], width);
      NextMultiple(width, |items[1..]|);
    }
  }

  lemma FixedSize(f: Field, v: Value, width: nat)
    requires (f.ltype.LFixed32? && width == 4) || (f.ltype.LFixed64? && width == 8)
    requires ScalarTyped(f, v)
    ensures EncodeScalar(f, v).Some? && |EncodeScalar(f, v).value| == width
  {
    hide LittleEndian;
  }

  lemma NextMultiple(width: nat, n: nat)
    ensures width * (n + 1) == width + width * n
  {
  }

  lemma PackStep(f: Field, items: seq<Value>, i: nat)
    requires i < |items|
    ensures PackItems(f, items[i..]) == Concat(EncodeScalar(f, items[i]), PackItems(f, items[i + 1..]))
  {
    assert items[i..][1..] == items[i + 1..];
  }

  lemma ItemsStep(f: Field, items: seq<Value>, i: nat)
    requires i < |items|
    ensures EncodeItems(f, items[i..])
         == Concat(Concat(Some(FieldTag(f)), EncodeValue(f, items[i])), EncodeItems(f, items[i + 1..]))
  {
    assert items[i..][1..] == items[i + 1..];
  }

  /** Between two rounds of the loop of `pb_encode_varint`: the groups `g` are stored, `v` is left. */
  predicate GroupsStored(g: Bytes, v: nat, value: nat)
  {
    if v != 0 then g + Varint.EncodeVarint(v) == Varint.EncodeVarint(value)
    else g != [] && g[|g| - 1] >= 128 && g[..|g| - 1] + [g[|g| - 1] - 128] == Varint.EncodeVarint(value)
  }

  lemma StoreGroup(g: Bytes, v: nat, value: nat)
    requires v != 0 && GroupsStored(g, v, value)
    ensures GroupsStored(g + [v % 128 + 128], v / 128, value)
    ensures |g| < |Varint.EncodeVarint(value)|
  {
    var g' := g + [v % 128 + 128];
    if v >= 128 {
      assert g' + Varint.EncodeVarint(v / 128) == g + Varint.EncodeVarint(v);
    } else {
      assert g'[..|g'| - 1] == g;
    }
  }

  lemma GroupsStart(value: nat)
    requires value != 0
    ensures GroupsStored([], value, value)
  {
    var g: Bytes := [];
    assert g + Varint.EncodeVarint(value) == Varint.EncodeVarint(value);
  }

  lemma GroupsEnd(g: Bytes, value: nat)
    requires GroupsStored(g, 0, value)
    ensures g != [] && g[|g| - 1 := g[|g| - 1] % 128] == Varint.EncodeVarint(value)
  {
    var n := |g| - 1;
    assert g[n := g[n] % 128] == g[..n] + [g[n] - 128];
  }

  /** The loop of `pb_encode_varint`; its ten-byte buffer is never overrun. */
  method VarintGroups(value: nat) returns (buffer: array<Byte>, n: nat)
    requires 0x7F < value < U64
    ensures fresh(buffer) && n <= buffer.Length == 10
    ensures buffer[..n] == Varint.EncodeVarint(value)
  {
    hide *;
    Varint.EncodeLength64(value);
    buffer := new Byte[10];
    n := 0;
    var v := value;
    ghost var g: Bytes := [];
    GroupsStart(value);
    while v != 0
      invariant n == |g| <= 10 && g == buffer[..n]
      invariant GroupsStored(g, v, value)
      decreases v
    {
      var group := v % 128 + 128;
      StoreGroup(g, v, value);
      buffer[n] := group;
      n := n + 1;
      assert buffer[..n] == g + [group];
      g := g + [group];
      v := v / 128;
    }
    GroupsEnd(g, value);
    buffer[n - 1] := buffer[n - 1] % 128;
    assert buffer[..n] == g[n - 1 := g[n - 1] % 128];
  }

  /** `pb_ostream_t`. */
  class OStream {
    /** Whether `callback` is NULL: the stream only counts. */
    const sizing: bool
    const buf: array<Byte>
    const maxSize: nat
    var state: nat
    var bytesWritten: nat

    /** Where the stream began to write. */
    ghost const base: nat
    /** Everything emitted so far; a sizing stream counts it without storing it. */
    ghost var out: Bytes

    ghost predicate Valid()
      reads this, buf
    {
      && bytesWritten == |out|
      && (sizing ==> buf.Length == 0)
      && (!sizing ==>
            && state == base + bytesWritten && bytesWritten <= maxSize && base + maxSize <= buf.Length
            && buf[base..state] == out)
    }

    /** There is room for `n` more bytes. */
    ghost predicate Fits(n: nat)
      reads this
    {
      sizing || bytesWritten + n <= maxSize
    }

    /**
     What every encoder method promises: it succeeds exactly when its data is encodable and
     fits, has then emitted exactly `e`, and in no case has changed what was emitted before
     or touched a byte outside the stream's room.
     */
    twostate predicate Emitted(new e: Option<Bytes>, ok: bool)
      reads this, buf
    {
      && Valid() && old(Valid())
      && (ok <==> e.Some? && old(Fits(|e.value|)))
      && (ok ==> out == old(out) + e.value)
      && old(out) <= out
      && forall i | 0 <= i < buf.Length && (i < base || base + maxSize <= i) :: buf[i] == old(buf[i])
    }

    /** `PB_OSTREAM_SIZING` */
    constructor Sizing()
      ensures Valid() && sizing && out == [] && fresh(buf)
    {
      sizing := true;
      buf := new Byte[0];
      maxSize, state, bytesWritten, base := 0, 0, 0, 0;
      out := [];
    }

    /** `pb_ostream_from_buffer`; with another `cursor`, the substream of `pb_encode_submessage`. */
    constructor FromBuffer(buffer: array<Byte>, cursor: nat, size: nat)
      requires cursor + size <= buffer.Length
      ensures Valid() && !sizing && buf == buffer && state == base == cursor && maxSize == size && out == []
    {
      sizing := false;
      buf := buffer;
      maxSize, state, bytesWritten, base := size, cursor, 0, cursor;
      out := [];
    }

    /** `buf_write` */
    method BufWrite(src: Bytes)
      requires !sizing && state + |src| <= buf.Length
      modifies this`state, buf
      ensures state == old(state) + |src|
      ensures buf[old(state)..state] == src
      ensures forall i | 0 <= i < buf.Length && !(old(state) <= i < state) :: buf[i] == old(buf[i])
    {
      var dest := state;
      state := dest + |src|;
      for i := 0 to |src|
        invariant buf[dest..dest + i] == src[..i]
        invariant forall j | 0 <= j < buf.Length && !(dest <= j < dest + i) :: buf[j] == old(buf[j])
        modifies buf
      {
        buf[dest + i] := src[i];
      }
    }

    /** `pb_write`; a sizing stream is given only the count, as `src` may be NULL there. */
    method Write(src: Bytes) returns (ok: bool)
      requires Valid()
      modifies this, buf
      ensures Emitted(Some(src), ok)
    {
      if |src| > 0 && !sizing {
        if bytesWritten + |src| > maxSize {
          return false;
        }
        BufWrite(src);
      }
      bytesWritten := bytesWritten + |src|;
      out := out + src;
      return true;
    }

    /** `pb_write(stream, NULL, count)`: "just sizing". */
    method Count(count: nat, ghost data: Bytes) returns (ok: bool)
      requires Valid() && sizing && |data| == count
      modifies this
      ensures Emitted(Some(data), ok)
    {
      bytesWritten := bytesWritten + count;
      out := out + data;
      return true;
    }

    /** `pb_encode_varint` */
    method EncodeVarint(value: nat) returns (ok: bool)
      requires Valid() && value < U64
      modifies this, buf
      ensures Emitted(Some(Varint.EncodeVarint(value)), ok)
    {
      if value <= 0x7F {
        ok := Write([value]);
        return;
      }
      var buffer, n := VarintGroups(value);
      ok := Write(buffer[..n]);
    }

    /** `pb_encode_svarint` */
    method EncodeSVarint(value: int) returns (ok: bool)
      requires Valid() && FitsSigned(value, 8)
      modifies this, buf
      ensures Emitted(Some(Varint.EncodeVarint(ZigZag(value))), ok)
    {
      var zigzagged := Unsigned(2 * Unsigned(value, 8), 8);
      if value < 0 {
        zigzagged := U64 - 1 - zigzagged;
      }
      ok := EncodeVarint(zigzagged);
    }

    /** `pb_encode_fixed32` */
    method EncodeFixed32(val: nat) returns (ok: bool)
      requires Valid() && val < U32
      modifies this, buf
      ensures Emitted(Some(LittleEndian(val, 4)), ok)
    {
      hide LittleEndian;
      var bytes := [val % 256, val / 0x100 % 256, val / 0x1_0000 % 256, val / 0x100_0000 % 256];
      LittleEndianFour(val, 0);
      LittleEndianNone(val / U32);
      assert bytes == LittleEndian(val, 4);
      ok := Write(bytes);
    }

    /** `pb_encode_fixed64` */
    method EncodeFixed64(val: nat) returns (ok: bool)
      requires Valid() && val < U64
      modifies this, buf
      ensures Emitted(Some(LittleEndian(val, 8)), ok)
    {
      hide LittleEndian;
      var high := val / U32;
      var bytes := [val % 256, val / 0x100 % 256, val / 0x1_0000 % 256, val / 0x100_0000 % 256,
                    high % 256, high / 0x100 % 256, high / 0x1_0000 % 256, high / 0x100_0000 % 256];
      LittleEndianFour(val, 4);
      LittleEndianFour(high, 0);
      LittleEndianNone(high / U32);
      assert bytes == bytes[..4] + bytes[4..];
      assert bytes == LittleEndian(val, 8);
      ok := Write(bytes);
    }

    /** `pb_encode_tag` */
    method EncodeTag(wireType: nat, tag: nat) returns (ok: bool)
      requires Valid() && wireType < 8 && tag < 0x2000_0000
      modifies this, buf
      ensures Emitted(Some(Tag(wireType, tag)), ok)
    {
      ok := EncodeVarint(8 * tag + wireType);
    }

    /** `pb_encode_tag_for_field` */
    method EncodeTagForField(f: Field) returns (ok: bool)
      requires Valid() && FieldOk(f)
      modifies this, buf
      ensures Emitted(Some(FieldTag(f)), ok)
    {
      ok := EncodeTag(WireType(f.ltype), f.tag);
    }

    /** `pb_encode_string` */
    method EncodeString(data: Bytes) returns (ok: bool)
      requires Valid()
      modifies this, buf
      ensures Emitted(Some(Delimited(data)), ok)
    {
      hide Varint.EncodeVarint;
      ok := EncodeVarint(|data| % U64);
      if ok {
        ok := Write(data);
        ConcatAssoc(old(out), Some(Varint.EncodeVarint(|data| % U64)), Some(data));
      }
    }

    /** `pb_enc_bool`, `pb_enc_varint`, ... : the field encoders other than the one for submessages. */
    method EncodeScalar(f: Field, v: Value) returns (ok: bool)
      requires Valid() && ScalarTyped(f, v) && !f.ltype.LSubmessage?
      modifies this, buf
      ensures Emitted(Encode.EncodeScalar(f, v), ok)
    {
      if f.ltype in {LVarint, LUVarint, LSVarint} && !IsWidth(f.dataSize) {
        return false;
      }
      match f.ltype
      case LBool => ok := EncodeVarint(if v.b then 1 else 0);
      case LVarint => ok := EncodeVarint(Unsigned(v.i, 8));
      case LUVarint => ok := EncodeVarint(Unsigned(v.i, 8));
      case LSVarint => ok := EncodeSVarint(v.i);
      case LFixed32 => ok := EncodeFixed32(Unsigned(v.i, 4));
      case LFixed64 => ok := EncodeFixed64(Unsigned(v.i, 8));
      case LBytes =>
        if |v.bytes| + BYTES_OFFSET > f.dataSize {
          return false;
        }
        ok := EncodeString(v.bytes);
      case LString =>
        // the strnlen loop of pb_enc_string: a string value is the bytes before the NUL
        ok := EncodeString(v.bytes);
      case LFixedLengthBytes => ok := EncodeString(v.bytes);
    }

    /** The first pass over a packed array: its size, counted by a sizing stream unless the type has a fixed width. */
    static method PackedSize(f: Field, items: seq<Value>) returns (ok: bool, size: nat)
      requires FieldOk(f) && f.Packable() && forall i | 0 <= i < |items| :: ScalarTyped(f, items[i])
      ensures ok <==> PackItems(f, items).Some?
      ensures ok ==> size == |PackItems(f, items).value|
    {
      if f.ltype.LFixed32? {
        PackedFixedSize(f, items, 4);
        return true, 4 * |items|;
      } else if f.ltype.LFixed64? {
        PackedFixedSize(f, items, 8);
        return true, 8 * |items|;
      }
      var sizestream := new OStream.Sizing();
      size := 0;
      hide ScalarTyped, FieldOk, Encode.EncodeScalar;
      ConcatNothing(PackItems(f, items));
      assert items[0..] == items;
      for i := 0 to |items|
        invariant sizestream.Valid() && sizestream.sizing && fresh(sizestream) && fresh(sizestream.buf)
        invariant PackItems(f, items) == Concat(Some(sizestream.out), PackItems(f, items[i..]))
      {
        ghost var done := sizestream.out;
        PackStep(f, items, i);
        ConcatAssoc(done, Encode.EncodeScalar(f, items[i]), PackItems(f, items[i + 1..]));
        ok := sizestream.EncodeScalar(f, items[i]);
        if !ok {
          return;
        }
      }
      ConcatNothing(Some(sizestream.out));
      return true, sizestream.bytesWritten;
    }

    /** The second pass over a packed array. */
    method WritePacked(f: Field, items: seq<Value>) returns (ok: bool)
      requires Valid() && FieldOk(f) && f.Packable() && forall i | 0 <= i < |items| :: ScalarTyped(f, items[i])
      modifies this, buf
      ensures Emitted(PackItems(f, items), ok)
    {
      hide ScalarTyped, FieldOk, Encode.EncodeScalar;
      ghost var done := [];
      ConcatNothing(PackItems(f, items));
      assert items[0..] == items;
      for i := 0 to |items|
        invariant Emitted(Some(done), true)
        invariant PackItems(f, items) == Concat(Some(done), PackItems(f, items[i..]))
      {
        var item := Encode.EncodeScalar(f, items[i]);
        PackStep(f, items, i);
        ConcatAssoc(done, item, PackItems(f, items[i + 1..]));
        ConcatAssoc(old(out), Some(done), item);
        ok := EncodeScalar(f, items[i]);
        if !ok {
          return;
        }
        done := done + item.value;
      }
      ConcatNothing(Some(done));
      return true;
    }

    /** The packed branch of `encode_array`. */
    method EncodePacked(f: Field, items: seq<Value>) returns (ok: bool)
      requires Valid() && FieldOk(f) && f.Packable() && forall i | 0 <= i < |items| :: ScalarTyped(f, items[i])
      modifies this, buf
      ensures Emitted(if PackItems(f, items).Some? then Some(Tag(WT_STRING, f.tag) + Delimited(PackItems(f, items).value)) else None, ok)
    {
      hide ScalarTyped, PackItems, Tag, Varint.EncodeVarint;
      ok := EncodeTag(WT_STRING, f.tag);
      if !ok {
        return;
      }
      var size: nat;
      ok, size := PackedSize(f, items);
      if !ok {
        return;
      }
      ghost var data := PackItems(f, items).value;
      ghost var length := Varint.EncodeVarint(size % U64);
      assert Tag(WT_STRING, f.tag) + Delimited(data) == (Tag(WT_STRING, f.tag) + length) + data;
      ok := EncodeVarint(size % U64);
      if !ok {
        return;
      }
      if sizing {
        ok := Count(size, data);
      } else {
        ok := WritePacked(f, items);
      }
    }

    /** `pb_encode_submessage`: one pass to size the message, one to write it into a substream of exactly that size. */
    method EncodeSubmessage(fields: seq<Field>, m: seq<Slot>) returns (ok: bool)
      requires Valid() && TableOk(fields) && MessageTyped(fields, m)
      modifies this, buf
      ensures Emitted(Encode.EncodeDelimited(fields, m), ok)
      decreases fields, 9
    {
      hide TableOk, MessageTyped, Encode.EncodeMessage, Varint.EncodeVarint;
      var sizestream := new OStream.Sizing();
      ok := sizestream.EncodeMessage(fields, m);
      if !ok {
        return;
      }
      var size := sizestream.bytesWritten;
      ghost var data := Encode.EncodeMessage(fields, m).value;
      ok := EncodeVarint(size % U64);
      if !ok {
        return;
      }
      ConcatAssoc(old(out), Some(Varint.EncodeVarint(size % U64)), Some(data));
      if sizing {
        ok := Count(size, data);
        return;
      }
      ok := WriteSubmessage(fields, m, size);
    }

    /** The second pass of `pb_encode_submessage`; "submsg size changed" never happens. */
    method WriteSubmessage(fields: seq<Field>, m: seq<Slot>, size: nat) returns (ok: bool)
      requires Valid() && !sizing && TableOk(fields) && MessageTyped(fields, m)
      requires Encode.EncodeMessage(fields, m).Some? && size == |Encode.EncodeMessage(fields, m).value|
      modifies this, buf
      ensures Emitted(Encode.EncodeMessage(fields, m), ok)
      decreases fields, 8
    {
      hide TableOk, MessageTyped, Encode.EncodeMessage;
      if bytesWritten + size > maxSize {
        return false;
      }
      var substream := new OStream.FromBuffer(buf, state, size);
      var status := substream.EncodeMessage(fields, m);
      bytesWritten := bytesWritten + substream.bytesWritten;
      state := substream.state;
      out := out + substream.out;
      assert buf[base..old(state)] == old(out);
      assert buf[base..state] == buf[base..old(state)] + buf[old(state)..state];
      if substream.bytesWritten != size {
        assert false;
        return false;
      }
      return status;
    }

    /** The function that `PB_ENCODERS` holds for the type of the field. */
    method EncodeValue(f: Field, v: Value) returns (ok: bool)
      requires Valid() && FieldOk(f) && ValueTyped(f, v)
      modifies this, buf
      ensures Emitted(Encode.EncodeValue(f, v), ok)
      decreases f, 0
    {
      if f.ltype.LSubmessage? {
        ok := EncodeSubmessage(f.sub, v.msg);
      } else {
        ok := EncodeScalar(f, v);
      }
    }

    /** The tag of a field and one value. */
    method EncodeTagged(f: Field, v: Value) returns (ok: bool)
      requires Valid() && FieldOk(f) && ValueTyped(f, v)
      modifies this, buf
      ensures Emitted(Concat(Some(FieldTag(f)), Encode.EncodeValue(f, v)), ok)
      decreases f, 1
    {
      hide FieldTag, Encode.EncodeValue, FieldOk, ValueTyped;
      ok := EncodeTagForField(f);
      if ok {
        ConcatAssoc(old(out), Some(FieldTag(f)), Encode.EncodeValue(f, v));
        ok := EncodeValue(f, v);
      }
    }

    /** The unpacked branch of `encode_array`. */
    method EncodeItems(f: Field, items: seq<Value>) returns (ok: bool)
      requires Valid() && FieldOk(f) && forall i | 0 <= i < |items| :: ValueTyped(f, items[i])
      modifies this, buf
      ensures Emitted(Encode.EncodeItems(f, items), ok)
      decreases f, 2
    {
      hide ValueTyped, FieldOk, Encode.EncodeValue, FieldTag;
      ghost var done := [];
      ConcatNothing(Encode.EncodeItems(f, items));
      assert items[0..] == items;
      for i := 0 to |items|
        invariant Emitted(Some(done), true)
        invariant Encode.EncodeItems(f, items) == Concat(Some(done), Encode.EncodeItems(f, items[i..]))
      {
        ghost var item := Concat(Some(FieldTag(f)), Encode.EncodeValue(f, items[i]));
        ItemsStep(f, items, i);
        ConcatAssoc(done, item, Encode.EncodeItems(f, items[i + 1..]));
        ConcatAssoc(old(out), Some(done), item);
        ok := EncodeTagged(f, items[i]);
        if !ok {
          return;
        }
        done := done + item.value;
      }
      ConcatNothing(Some(done));
      return true;
    }

    /** `encode_array` */
    method EncodeArray(f: Field, items: seq<Value>) returns (ok: bool)
      requires Valid() && FieldOk(f) && forall i | 0 <= i < |items| :: ValueTyped(f, items[i])
      modifies this, buf
      ensures Emitted(Encode.EncodeArray(f, items), ok)
      decreases f, 3
    {
      if |items| == 0 {
        return true;
      }
      if |items| > f.arraySize {
        return false;
      }
      if f.Packable() {
        assert forall i | 0 <= i < |items| :: ScalarTyped(f, items[i]) by {
          forall i | 0 <= i < |items| ensures ScalarTyped(f, items[i]) { assert ValueTyped(f, items[i]); }
        }
        hide FieldOk, ValueTyped, ScalarTyped, PackItems;
        ok := EncodePacked(f, items);
      } else {
        hide FieldOk, ValueTyped, ScalarTyped, Encode.EncodeItems;
        ok := EncodeItems(f, items);
      }
    }

    /** `encode_basic_field` */
    method EncodeField(f: Field, slot: Slot) returns (ok: bool)
      requires Valid() && FieldOk(f) && SlotTyped(f, slot)
      modifies this, buf
      ensures Emitted(Encode.EncodeField(f, slot), ok)
      decreases f, 4
    {
      var implicitHas := true;
      if f.htype.Optional? {
        if f.sizeOffset != 0 {
          implicitHas := slot.has;
        } else {
          var elided := CheckProto3Default(f, slot);
          implicitHas := !elided;
        }
      }
      hide FieldOk, ValueTyped, Encode.EncodeValue, Encode.EncodeArray, IsProto3Zero, FieldTag;
      match f.htype
      case Required =>
        ok := EncodeTagged(f, slot.v);
      case Optional =>
        ok := true;
        if implicitHas {
          ok := EncodeTagged(f, slot.v);
        }
      case Repeated =>
        ok := EncodeArray(f, slot.items);
      case Oneof =>
        ok := true;
        if slot.Active? && slot.which == f.tag {
          ok := EncodeTagged(f, slot.v);
        }
    }

    /** `pb_encode` */
    method EncodeMessage(fields: seq<Field>, m: seq<Slot>) returns (ok: bool)
      requires Valid() && TableOk(fields) && MessageTyped(fields, m)
      modifies this, buf
      ensures Emitted(Encode.EncodeMessage(fields, m), ok)
      decreases fields, 7
    {
      hide TableOk, MessageTyped, Encode.EncodeField, SlotTyped, SlotOf, SlotCount, EncodeFrom;
      hide FieldIter.Iter.Valid, FieldOk, AllProto3Default, SharesUnion, FieldIter.Iter.Tag;
      TagsNotZero(fields);
      var iter := new FieldIter.Iter(fields, 0);
      if fields == [] {
        FromEnd(fields, m);
        return true;
      }
      ghost var done, k := [], 0;
      ConcatNothing(EncodeFrom(fields, m, 0));
      var more := true;
      while more
        invariant iter.Valid() && iter.start == fields && fresh(iter)
        invariant k <= |fields| && more == (k < |fields|)
        invariant more ==> iter.pos == k && iter.slot == SlotOf(fields, k)
        invariant Emitted(Some(done), true)
        invariant Encode.EncodeMessage(fields, m) == Concat(Some(done), EncodeFrom(fields, m, k))
        decreases |fields| - k
      {
        FieldAt(fields, m, k);
        ghost var e := Encode.EncodeField(fields[k], m[SlotOf(fields, k)]);
        FromStep(fields, m, k);
        ConcatAssoc(done, e, EncodeFrom(fields, m, k + 1));
        ConcatAssoc(old(out), Some(done), e);
        ok := EncodeField(fields[iter.pos], m[iter.slot]);
        if !ok {
          return;
        }
        done, k := done + e.value, k + 1;
        more := iter.Next();
      }
      FromEnd(fields, m);
      ConcatNothing(Some(done));
      return true;
    }

    /** `pb_encode_delimited` */
    method EncodeDelimited(fields: seq<Field>, m: seq<Slot>) returns (ok: bool)
      requires Valid() && TableOk(fields) && MessageTyped(fields, m)
      modifies this, buf
      ensures Emitted(Encode.EncodeDelimited(fields, m), ok)
    {
      ok := EncodeSubmessage(fields, m);
    }

    /** `pb_encode_nullterminated` */
    method EncodeNullTerminated(fields: seq<Field>, m: seq<Slot>) returns (ok: bool)
      requires Valid() && TableOk(fields) && MessageTyped(fields, m)
      modifies this, buf
      ensures Emitted(Concat(Encode.EncodeMessage(fields, m), Some([0])), ok)
    {
      hide TableOk, MessageTyped, Encode.EncodeMessage;
      ok := EncodeMessage(fields, m);
      if ok {
        ConcatAssoc(old(out), Encode.EncodeMessage(fields, m), Some([0]));
        ok := Write([0]);
      }
    }
  }

  lemma FromStep(fields: seq<Field>, m: seq<Slot>, k: nat)
    requires k < |fields| && SlotOf(fields, k) < |m|
    ensures EncodeFrom(fields, m, k)
         == Concat(Encode.EncodeField(fields[k], m[SlotOf(fields, k)]), EncodeFrom(fields, m, k + 1))
  {
  }

  lemma FromEnd(fields: seq<Field>, m: seq<Slot>)
    ensures EncodeFrom(fields, m, |fields|) == Some([])
  {
  }

  lemma TagsNotZero(fields: seq<Field>)
    requires TableOk(fields)
    ensures forall i | 0 <= i < |fields| :: fields[i].tag != 0
  {
    forall i | 0 <= i < |fields| ensures fields[i].tag != 0 { assert FieldOk(fields[i]); }
  }

  lemma FieldAt(fields: seq<Field>, m: seq<Slot>, k: nat)
    requires TableOk(fields) && MessageTyped(fields, m) && k < |fields|
    ensures FieldOk(fields[k]) && SlotOf(fields, k) < |m| && SlotTyped(fields[k], m[SlotOf(fields, k)])
  {
  }

  /** `pb_check_proto3_default_value`: the walk over a submessage stops at the first field that is not default. */
  method CheckProto3Default(f: Field, slot: Slot) returns (isDefault: bool)
    requires FieldOk(f) && SlotTyped(f, slot)
    ensures isDefault <==> IsProto3Default(f, slot)
    decreases f
  {
    if f.htype.Required? {
      return false;
    } else if f.htype.Repeated? {
      if f.sizeOffset != 0 {
        return |slot.items| == 0;
      }
      return false;
    } else if f.htype.Oneof? {
      return slot.Unset?;
    } else if f.htype.Optional? && f.sizeOffset != 0 {
      return !slot.has;
    }
    var v := slot.v;
    if f.ltype.LBytes? || f.ltype.LString? {
      return |v.bytes| == 0;
    } else if f.ltype.LFixedLengthBytes? {
      return f.dataSize == 0;
    } else if f.ltype.LSubmessage? {
      isDefault := CheckAllDefault(f.sub, v.msg);
      return;
    }
    return if v.BoolV? then !v.b else v.i == 0;
  }

  /** The submessage branch of `pb_check_proto3_default_value`. */
  method CheckAllDefault(fields: seq<Field>, m: seq<Slot>) returns (isDefault: bool)
    requires TableOk(fields) && MessageTyped(fields, m)
    ensures isDefault <==> AllProto3Default(fields, m, 0)
    decreases fields
  {
    hide *;
    TagsNotZero(fields);
    var iter := new FieldIter.Iter(fields, 0);
    if fields == [] {
      AllDefaultEnd(fields, m);
      return true;
    }
    ghost var k := 0;
    var more := true;
    while more
      invariant iter.Valid() && iter.start == fields && fresh(iter)
      invariant k <= |fields| && more == (k < |fields|)
      invariant more ==> iter.pos == k && iter.slot == SlotOf(fields, k)
      invariant AllProto3Default(fields, m, 0) <==> AllProto3Default(fields, m, k)
      decreases |fields| - k
    {
      FieldAt(fields, m, k);
      AllDefaultStep(fields, m, k);
      isDefault := CheckProto3Default(fields[iter.pos], m[iter.slot]);
      if !isDefault {
        return false;
      }
      k := k + 1;
      more := iter.Next();
    }
    AllDefaultEnd(fields, m);
    return true;
  }

  lemma AllDefaultStep(fields: seq<Field>, m: seq<Slot>, k: nat)
    requires k < |fields| && SlotOf(fields, k) < |m|
    ensures AllProto3Default(fields, m, k)
       <==> IsProto3Default(fields[k], m[SlotOf(fields, k)]) && AllProto3Default(fields, m, k + 1)
  {
  }

  lemma AllDefaultEnd(fields: seq<Field>, m: seq<Slot>)
    ensures AllProto3Default(fields, m, |fields|)
  {
  }

  /** `pb_get_encoded_size` */
  method GetEncodedSize(fields: seq<Field>, m: seq<Slot>) returns (ok: bool, size: nat)
    requires TableOk(fields) && MessageTyped(fields, m)
    ensures ok <==> EncodeMessage(fields, m).Some?
    ensures ok ==> size == |EncodeMessage(fields, m).value|
  {
    var stream := new OStream.Sizing();
    ok := stream.EncodeMessage(fields, m);
    size := stream.bytesWritten;
  }

  /** Exact fit: a message goes into a buffer of `n` bytes exactly when its size is at most `n`, and nothing lies beyond. */
  method EncodeToBuffer(buffer: array<Byte>, n: nat, fields: seq<Field>, m: seq<Slot>) returns (ok: bool, written: nat)
    requires n <= buffer.Length && TableOk(fields) && MessageTyped(fields, m)
    modifies buffer
    ensures ok <==> EncodeMessage(fields, m).Some? && |EncodeMessage(fields, m).value| <= n
    ensures ok ==> written <= n && buffer[..written] == EncodeMessage(fields, m).value
    ensures buffer[n..] == old(buffer[n..])
  {
    var stream := new OStream.FromBuffer(buffer, 0, n);
    ok := stream.EncodeMessage(fields, m);
    written := stream.bytesWritten;
  }
}
