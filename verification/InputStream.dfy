/**
 `pb_decode.c` as it runs: an input stream over a buffer, substreams, and the decoder's
 methods, each proved to read what `Decode` says and to consume exactly that.
 */
module InputStream {
  import opened Wrappers
  import opened Bits
  import opened Varint
  import opened Scalars
  import opened Message
  import opened Encode
  import opened Decode
  import FieldIter
  import opened Effects
  import opened RequiredMask
  import opened RoundTrip
  import NormalForm
  import Records
  import OutputStream

  /** The input a successful parse leaves. */
  function RestOf<T>(p: Parsed<T>): Option<Bytes>
  {
    match p
    case Fail => None
    case Ok(_, r) => Some(r)
  }

  // ---------- varints byte by byte ----------

  /** All bytes have the continuation bit. */
  predicate Continues(g: Bytes)
  {
    forall i | 0 <= i < |g| :: g[i] >= 128
  }

  /** What a varint loop knows after the bytes `g`, with `s` still ahead. */
  lemma {:induction false} SplitAfter(g: Bytes, s: Bytes)
    requires Continues(g)
    ensures SplitVarint(g + s)
         == match SplitVarint(s)
            case Fail => Fail
            case Ok(h, r) => Ok(g + h, r)
  {
    if g == [] {
      assert g + s == s;
      assert SplitVarint(s).Ok? ==> g + SplitVarint(s).value == SplitVarint(s).value;
    } else {
      assert (g + s)[1..] == g[1..] + s;
      SplitAfter(g[1..], s);
      assert forall h: Bytes :: [g[0]] + (g[1..] + h) == g + h;
    }
  }

  lemma SplitEnds(g: Bytes, b: Byte, r: Bytes)
    requires Continues(g)
    ensures b < 128 ==> SplitVarint(g + ([b] + r)) == Ok(g + [b], r)
    ensures SplitVarint(g).Fail?
  {
    SplitAfter(g, [b] + r);
    SplitAfter(g, []);
    assert g + [] == g;
    assert ([b] + r)[1..] == r;
  }

  lemma LowGroup64(r: nat, c: nat, p: nat)
    requires r < Pow2(p) && p <= 64
    ensures Or(r, Shl(c, p) % U64) == (r + Shl(c, p)) % U64
  {
    assert Pow2(64) == U64 by { Pow2Values(); }
    ShiftOr(r, c, p, 64);
  }

  lemma GroupsBelowU64(g: Bytes)
    requires |g| <= 9
    ensures Groups(g) < U64
  {
    GroupsBound(g);
    ShlMonotonic(1, 7 * |g|, 63);
    Pow2Values();
  }

  /** One step of the 64-bit accumulator: up to ten groups, the last one cut to one bit. */
  lemma Accumulate64(g: Bytes, b: Byte, p: nat, r: nat)
    requires p == 7 * |g| <= 63 && r == Groups(g) % U64
    ensures Or(r, Shl(b % 128, p) % U64) == Groups(g + [b]) % U64
  {
    GroupsAppend(g, b);
    GroupsBound(g);
    GroupsBelowU64(g);
    hide Or, Shl, Groups;
    assert r == Groups(g);
    LowGroup64(r, b % 128, p);
  }

  /** `bitpos` and `result` after the bytes `g` in `pb_decode_varint32_eof`, no overflow so far. */
  predicate Folded32(g: Bytes, bitpos: nat, result: nat)
  {
    bitpos == BitPos(|g|) && result == Acc32(g) && forall i | 0 <= i < |g| :: Step32Ok(g, i)
  }

  lemma Step32Prefix(g: Bytes, h: Bytes, i: nat)
    requires i < |g|
    ensures Step32Ok(g, i) <==> Step32Ok(g + h, i)
  {
    assert (g + h)[..i] == g[..i];
  }

  /** `bitpos` and `result` after the bytes `g` in `pb_decode_varint`. */
  predicate Folded64(g: Bytes, bitpos: nat, result: nat)
  {
    |g| <= 10 && bitpos == 7 * |g| && result == Groups(g) % U64
  }

  lemma Folded64Step(g: Bytes, b: Byte, bitpos: nat, result: nat)
    requires Folded64(g, bitpos, result) && bitpos < 64
    ensures Folded64(g + [b], (bitpos + 7) % 256, Or(result, Shl(b % 128, bitpos) % U64))
  {
    hide Or, Shl, Groups;
    Accumulate64(g, b, bitpos, result);
  }

  lemma VarintDone(g: Bytes, b: Byte, bitpos: nat, result: nat, r: Bytes)
    requires Continues(g) && b < 128 && Folded64(g + [b], bitpos, result)
    ensures DecodeVarint(g + ([b] + r)) == Ok(result, r)
  {
    hide Groups;
    SplitEnds(g, b, r);
  }

  /** The loop of `pb_decode_varint` has read the bytes `g` of the input `s0`, with `s` still ahead. */
  predicate Reading64(s0: Bytes, g: Bytes, s: Bytes, bitpos: nat, result: nat)
  {
    s0 == g + s && Continues(g) && Folded64(g, bitpos, result)
  }

  lemma Reading64Start(s0: Bytes)
    ensures Reading64(s0, [], s0, 0, 0)
  {
    assert [] + s0 == s0;
  }

  lemma Reading64Full(s0: Bytes, g: Bytes, s: Bytes, bitpos: nat, result: nat)
    requires Reading64(s0, g, s, bitpos, result) && bitpos >= 64
    ensures DecodeVarint(s0).Fail? && Stop64(s0) == |s|
  {
    hide DecodeVarint, Stop64, Groups;
    VarintCut(g, s);
  }

  lemma Reading64Cut(s0: Bytes, g: Bytes, s: Bytes, bitpos: nat, result: nat)
    requires Reading64(s0, g, s, bitpos, result) && bitpos < 64 && s == []
    ensures DecodeVarint(s0).Fail? && Stop64(s0) == 0
  {
    hide DecodeVarint, Stop64, Groups;
    VarintCut(g, s);
  }

  lemma Reading64Next(s0: Bytes, g: Bytes, b: Byte, s: Bytes, bitpos: nat, result: nat)
    requires Reading64(s0, g, [b] + s, bitpos, result) && bitpos < 64
    ensures var result', bitpos' := Or(result, Shl(b % 128, bitpos) % U64), (bitpos + 7) % 256;
            if b < 128 then DecodeVarint(s0) == Ok(result', s) && Stop64(s0) == |s|
            else Reading64(s0, g + [b], s, bitpos', result')
  {
    hide Or, Shl, DecodeVarint, Folded64, SplitVarint;
    var result', bitpos' := Or(result, Shl(b % 128, bitpos) % U64), (bitpos + 7) % 256;
    Folded64Step(g, b, bitpos, result);
    if b < 128 {
      VarintDone(g, b, bitpos', result', s);
    } else {
      assert g + ([b] + s) == (g + [b]) + s;
    }
  }

  lemma BitPosNext(n: nat)
    ensures BitPos(n + 1) == (BitPos(n) + 7) % 256
  {
    var q, r := 7 * n / 256, 7 * n % 256;
    assert 7 * (n + 1) == 256 * q + (r + 7);
  }

  lemma StepsAppend(g: Bytes, b: Byte)
    requires forall i | 0 <= i < |g| :: Step32Ok(g, i)
    requires BitPos(|g|) >= 32 ==>
               b % 128 == 0 || (Acc32(g) / 0x8000_0000 != 0 && b == if BitPos(|g|) < 63 then 0xFF else 0x01)
    ensures forall i | 0 <= i < |g + [b]| :: Step32Ok(g + [b], i)
  {
    hide Acc32, BitPos;
    assert (g + [b])[..|g|] == g;
    forall i | 0 <= i < |g + [b]| ensures Step32Ok(g + [b], i) {
      if i < |g| { Step32Prefix(g, [b], i); }
    }
  }

  /** One byte of the 32-bit loop. */
  lemma Fold32Step(g: Bytes, b: Byte, bitpos: nat, result: nat, result': nat)
    requires Folded32(g, bitpos, result)
    requires bitpos >= 32 ==> b % 128 == 0 || (result / 0x8000_0000 != 0 && b == if bitpos < 63 then 0xFF else 0x01)
    requires result' == if bitpos >= 32 then result else Or(result, Shl(b % 128, bitpos) % U32)
    ensures Folded32(g + [b], (bitpos + 7) % 256, result')
  {
    hide Or, Shl, Acc32, BitPos, Step32Ok;
    Acc32Append(g, b);
    BitPosNext(|g|);
    StepsAppend(g, b);
  }

  /** A byte that overflows makes every varint that begins so an error. */
  lemma Fold32Overflow(g: Bytes, b: Byte, bitpos: nat, result: nat, s: Bytes)
    requires Continues(g) && Folded32(g, bitpos, result) && bitpos >= 32
    requires b % 128 != 0 && (result / 0x8000_0000 == 0 || b != if bitpos < 63 then 0xFF else 0x01)
    ensures DecodeVarint32(g + ([b] + s)).Fail?
  {
    hide Acc32;
    SplitAfter(g, [b] + s);
    var p := SplitVarint(g + ([b] + s));
    if p.Ok? {
      var h := SplitVarint([b] + s).value;
      assert h[0] == b;
      assert p.value == (g + [b]) + h[1..];
      assert p.value[..|g|] == g && p.value[|g|] == b;
      assert !Step32Ok(p.value, |g|);
    }
  }

  lemma Fold32Done(g: Bytes, b: Byte, bitpos: nat, result: nat, r: Bytes)
    requires Continues(g) && b < 128 && Folded32(g + [b], bitpos, result)
    ensures DecodeVarint32(g + ([b] + r)) == if bitpos == 35 && b / 16 % 8 != 0 then Fail else Ok(result, r)
  {
    hide Acc32, Step32Ok;
    SplitEnds(g, b, r);
  }

  /** The end of the data is the end of the varint loop. */
  lemma Stop32End(g: Bytes)
    ensures Stop32From(g, |g|) == 0
  {
  }

  lemma FirstStop(b: Byte, s: Bytes)
    ensures Stop32From([b] + s, 0) == if b < 128 then |s| else Stop32From([b] + s, 1)
  {
    assert BitPos(0) == 0;
  }

  /** The byte after `g` ends the loop if it overflows or has no continuation bit. */
  lemma Stop32Step(g: Bytes, b: Byte, bitpos: nat, result: nat, s: Bytes)
    requires Folded32(g, bitpos, result)
    ensures Stop32From(g + ([b] + s), |g|)
         == if (bitpos >= 32 && b % 128 != 0 && (result / 0x8000_0000 == 0 || b != if bitpos < 63 then 0xFF else 0x01)) || b < 128
            then |s| else Stop32From(g + ([b] + s), |g + [b]|)
  {
    hide Acc32, BitPos;
    var s0 := g + ([b] + s);
    assert s0[..|g|] == g && s0[|g|] == b;
  }

  // ---------- the stream ----------

  /** `pb_istream_t` over a buffer. */
  class IStream {
    const buf: array<Byte>
    var state: nat
    var bytesLeft: nat

    ghost predicate Valid()
      reads this
    {
      state + bytesLeft <= buf.Length
    }

    /** The input ahead. */
    ghost function Left(): (s: Bytes)
      requires Valid()
      reads this, buf
      ensures |s| == bytesLeft
    {
      buf[state..state + bytesLeft]
    }

    /**
     What every decoder method promises: it succeeds exactly when the parse does, and then
     the rest is still ahead and ends where it ended before; in no case is the end passed.
     */
    twostate predicate Took(new rest: Option<Bytes>, ok: bool)
      requires old(Valid())
      reads this, buf
    {
      && Valid()
      && (ok <==> rest.Some?)
      && (ok ==> Left() == rest.value && state + bytesLeft == old(state + bytesLeft))
      && state + bytesLeft <= old(state + bytesLeft) && old(state) <= state
    }

    /** The end of the input is where it was: cursor and bytes left still add up, whether the call succeeded or not. */
    twostate predicate Kept()
      reads this
    {
      state + bytesLeft == old(state + bytesLeft)
    }

    /** Cursor and bytes left add up but for `lost` bytes, which no longer count as left though the cursor is in front of them. */
    twostate predicate KeptBut(new lost: nat)
      reads this
    {
      state + bytesLeft + lost == old(state + bytesLeft)
    }

    /** `pb_istream_from_buffer`; with another `cursor`, a substream. */
    constructor (buffer: array<Byte>, cursor: nat, size: nat)
      requires cursor + size <= buffer.Length
      ensures Valid() && buf == buffer && state == cursor && bytesLeft == size
    {
      buf, state, bytesLeft := buffer, cursor, size;
    }

    /** `pb_read` into a buffer. */
    method Read(dest: array<Byte>, count: nat) returns (ok: bool)
      requires Valid() && dest != buf && count <= dest.Length
      modifies this, dest
      ensures Kept()
      ensures Took(RestOf(ReadBytes(old(Left()), count)), ok)
      ensures bytesLeft == if old(bytesLeft) < count then old(bytesLeft) else old(bytesLeft) - count
      ensures ok ==> dest[..count] == ReadBytes(old(Left()), count).value
    {
      if count == 0 {
        return true;
      }
      if bytesLeft < count {
        return false;
      }
      var source := state;
      ghost var s := Left();
      for i := 0 to count
        invariant dest[..i] == s[..i]
        modifies dest
      {
        dest[i] := buf[source + i];
      }
      state := state + count;
      bytesLeft := bytesLeft - count;
      return true;
    }

    /** `pb_read` with a NULL buffer: the bytes are skipped. */
    method Skip(count: nat) returns (ok: bool)
      requires Valid()
      modifies this
      ensures Kept()
      ensures Took(RestOf(ReadBytes(old(Left()), count)), ok)
    {
      if bytesLeft < count {
        return false;
      }
      state := state + count;
      bytesLeft := bytesLeft - count;
      return true;
    }

    /** `pb_readbyte` */
    method ReadByte() returns (ok: bool, b: Byte)
      requires Valid()
      modifies this
      ensures Valid() && old(state + bytesLeft) == state + bytesLeft
      ensures ok <==> old(bytesLeft) > 0
      ensures ok ==> old(Left()) == [b] + Left() && state == old(state) + 1
      ensures !ok ==> state == old(state)
    {
      b := 0;
      if bytesLeft == 0 {
        return false, b;
      }
      b := buf[state];
      state := state + 1;
      bytesLeft := bytesLeft - 1;
      return true, b;
    }

    /** `pb_decode_varint` */
    method DecodeVarint() returns (ok: bool, dest: nat)
      requires Valid()
      modifies this
      ensures Kept()
      ensures Took(RestOf(Varint.DecodeVarint(old(Left()))), ok)
      ensures bytesLeft == Stop64(old(Left()))
      ensures ok ==> dest == Varint.DecodeVarint(old(Left())).value
    {
      hide Or, Shl, Varint.DecodeVarint, Stop64, Reading64;
      ghost var g: Bytes, s0 := [], Left();
      Reading64Start(s0);
      var bitpos: nat := 0;
      var result: nat := 0;
      dest := 0;
      while true
        invariant Valid() && Kept() && old(state) <= state
        invariant Reading64(s0, g, Left(), bitpos, result)
        decreases bytesLeft
      {
        ghost var s := Left();
        if bitpos >= 64 {
          Reading64Full(s0, g, s, bitpos, result);
          return false, 0;
        }
        var b: Byte;
        ok, b := ReadByte();
        if !ok {
          Reading64Cut(s0, g, s, bitpos, result);
          return false, 0;
        }
        Reading64Next(s0, g, b, Left(), bitpos, result);
        result := Or(result, Shl(b % 128, bitpos) % U64);
        bitpos := (bitpos + 7) % 256;
        if b < 128 {
          return true, result;
        }
        g := g + [b];
      }
    }

    /** `pb_decode_varint32_eof`; `eof` is set only when no byte could be read. */
    method DecodeVarint32() returns (ok: bool, dest: nat, eof: bool)
      requires Valid()
      modifies this
      ensures Kept()
      ensures Took(RestOf(Varint.DecodeVarint32(old(Left()))), ok)
      ensures bytesLeft == Stop32From(old(Left()), 0)
      ensures ok ==> dest == Varint.DecodeVarint32(old(Left())).value
      ensures eof <==> old(bytesLeft) == 0
    {
      hide SplitVarint, Varint.DecodeVarint32, Or, Shl, Folded32, Acc32, BitPos, Stop32From;
      dest := 0;
      var b: Byte;
      ghost var s0 := Left();
      ok, b := ReadByte();
      if !ok {
        assert s0 == [];
        NoTerminator([]);
        Stop32End([]);
        return false, 0, true;
      }
      FirstByte(b);
      FirstStop(b, Left());
      if b < 128 {
        assert [] + [b] == [b];
        Fold32Done([], b, 7, b % 128, Left());
        assert [] + ([b] + Left()) == s0;
        return true, b, false;
      }
      ok, dest := MultiByte(b);
      return ok, dest, false;
    }

    /** The multibyte case, behind a first byte with the continuation bit. */
    method MultiByte(first: Byte) returns (ok: bool, dest: nat)
      requires Valid() && first >= 128
      modifies this
      ensures Kept()
      ensures Took(RestOf(Varint.DecodeVarint32([first] + old(Left()))), ok)
      ensures bytesLeft == Stop32From([first] + old(Left()), 1)
      ensures ok ==> dest == Varint.DecodeVarint32([first] + old(Left())).value
    {
      hide SplitVarint, Varint.DecodeVarint32, Or, Shl, Folded32, Acc32, BitPos, Stop32From;
      dest := 0;
      FirstByte(first);
      var b: Byte;
      var result: nat := first % 128;
      var bitpos: nat := 7;
      ghost var g: Bytes := [first];
      ghost var s0 := [first] + Left();
      while true
        invariant Valid() && Kept() && old(state) <= state
        invariant Continues(g) && Folded32(g, bitpos, result)
        invariant s0 == g + Left()
        invariant Stop32From(s0, 1) == Stop32From(s0, |g|)
        decreases bytesLeft
      {
        ghost var s := Left();
        ok, b := ReadByte();
        if !ok {
          assert g + s == g;
          NoTerminator(g);
          Stop32End(g);
          return false, 0;
        }
        Stop32Step(g, b, bitpos, result, Left());
        if bitpos >= 32 {
          if b % 128 != 0 && (result / 0x8000_0000 == 0 || b != if bitpos < 63 then 0xFF else 0x01) {
            Fold32Overflow(g, b, bitpos, result, Left());
            return false, 0;
          }
        }
        var result' := if bitpos >= 32 then result else Or(result, Shl(b % 128, bitpos) % U32);
        Fold32Step(g, b, bitpos, result, result');
        result := result';
        bitpos := (bitpos + 7) % 256;
        if b < 128 {
          Fold32Done(g, b, bitpos, result, Left());
          if bitpos == 35 && b / 16 % 8 != 0 {
            return false, 0;
          }
          return true, result;
        }
        assert g + ([b] + Left()) == (g + [b]) + Left();
        g := g + [b];
      }
    }

    /** `pb_skip_varint` */
    method SkipVarint() returns (ok: bool)
      requires Valid()
      modifies this
      ensures Kept()
      ensures Took(RestOf(Decode.SkipVarint(old(Left()))), ok)
    {
      ghost var g: Bytes := [];
      assert g + Left() == Left();
      hide SplitVarint;
      while true
        invariant Valid() && state + bytesLeft == old(state + bytesLeft) && old(state) <= state
        invariant Continues(g) && old(Left()) == g + Left()
        decreases bytesLeft
      {
        ghost var s := Left();
        var b: Byte;
        ok, b := ReadByte();
        if !ok {
          assert g + s == g;
          SplitEnds(g, 0, []);
          return false;
        }
        if b < 128 {
          SplitEnds(g, b, Left());
          return true;
        }
        assert g + ([b] + Left()) == (g + [b]) + Left();
        g := g + [b];
      }
    }

    /** `pb_skip_string` */
    method SkipString() returns (ok: bool)
      requires Valid()
      modifies this
      ensures Kept()
      ensures Took(RestOf(ReadDelimited(old(Left()))), ok)
    {
      hide Varint.DecodeVarint32, ReadBytes;
      var length, eof;
      ok, length, eof := DecodeVarint32();
      if ok {
        ok := Skip(length);
      }
    }

    /** `pb_decode_tag`: a zero tag, or no input at all, is the end of the message. */
    method DecodeTag() returns (ok: bool, wireType: nat, tag: nat, eof: bool)
      requires Valid()
      modifies this
      ensures Kept()
      ensures var p := Varint.DecodeVarint32(old(Left()));
              && Took(RestOf(p), p.Ok?)
              && (ok <==> p.Ok? && p.value != 0)
              && (ok ==> tag == p.value / 8 && wireType == p.value % 8)
              && (!ok ==> (eof <==> old(bytesLeft) == 0 || p.Ok?))
    {
      hide Varint.DecodeVarint32;
      wireType, tag := 0, 0;
      var temp: nat;
      ok, temp, eof := DecodeVarint32();
      if !ok {
        return;
      }
      if temp == 0 {
        return false, 0, 0, true;
      }
      tag := temp / 8;
      wireType := temp % 8;
    }

    /** `pb_skip_field` */
    method SkipField(wireType: nat) returns (ok: bool)
      requires Valid()
      modifies this
      ensures Kept()
      ensures Took(RestOf(Decode.SkipField(wireType, old(Left()))), ok)
    {
      hide ReadBytes, ReadDelimited, SplitVarint;
      if wireType == WT_VARINT {
        ok := SkipVarint();
      } else if wireType == WT_64BIT {
        ok := Skip(8);
      } else if wireType == WT_STRING {
        ok := SkipString();
      } else if wireType == WT_32BIT {
        ok := Skip(4);
      } else {
        return false;
      }
    }

    /**
     `pb_make_string_substream`: the child sees the announced bytes and no more, and the
     parent keeps what comes behind them; its cursor stays at the child's until the close.
     */
    method MakeSubstream() returns (ok: bool, sub: IStream)
      requires Valid()
      modifies this
      ensures Valid() && state + bytesLeft <= old(state + bytesLeft) && old(state) <= state
      ensures ok <==> ReadDelimited(old(Left())).Ok?
      ensures ok ==> fresh(sub) && sub.Valid() && sub.buf == buf && sub.state == state
      ensures ok ==> sub.Left() == ReadDelimited(old(Left())).value
      ensures ok ==> state + sub.bytesLeft + bytesLeft == old(state + bytesLeft)
      ensures ok ==> buf[state + sub.bytesLeft..state + sub.bytesLeft + bytesLeft] == ReadDelimited(old(Left())).rest
      ensures !ok ==> sub == this && Kept()
    {
      hide Varint.DecodeVarint32;
      sub := this;
      var size, eof;
      ok, size, eof := DecodeVarint32();
      if !ok {
        return;
      }
      if bytesLeft < size {
        return false, this;
      }
      SplitSlice(buf, state, bytesLeft, size);
      sub := new IStream(buf, state, size);
      bytesLeft := bytesLeft - size;
    }

    /** `pb_close_string_substream`: whatever the child has read, the parent ends up behind the child's end. */
    method CloseSubstream(sub: IStream) returns (ok: bool)
      requires sub != this && Valid() && sub.Valid() && sub.buf == buf
      requires sub.state + sub.bytesLeft + bytesLeft <= buf.Length
      modifies this, sub
      ensures ok && Valid() && bytesLeft == old(bytesLeft) && state == old(sub.state + sub.bytesLeft)
    {
      ok := true;
      if sub.bytesLeft > 0 {
        ok := sub.Skip(sub.bytesLeft);
        if !ok {
          return;
        }
      }
      state := sub.state;
    }

    // ---------- scalars ----------

    /** `pb_decode_svarint` */
    method DecodeSVarint() returns (ok: bool, dest: int)
      requires Valid()
      modifies this
      ensures Kept()
      ensures Took(RestOf(Varint.DecodeVarint(old(Left()))), ok)
      ensures bytesLeft == Stop64(old(Left()))
      ensures ok ==> dest == UnZigZag(Varint.DecodeVarint(old(Left())).value)
    {
      var value: nat;
      ok, value := DecodeVarint();
      dest := 0;
      if !ok {
        return;
      }
      if value % 2 == 1 {
        dest := Signed(U64 - 1 - value / 2, 8);
      } else {
        dest := Signed(value / 2, 8);
      }
    }

    /** `pb_decode_fixed32` */
    method DecodeFixed32() returns (ok: bool, dest: nat)
      requires Valid()
      modifies this
      ensures Kept()
      ensures Took(RestOf(ReadBytes(old(Left()), 4)), ok)
      ensures bytesLeft == if old(bytesLeft) < 4 then old(bytesLeft) else old(bytesLeft) - 4
      ensures ok ==> dest == FromLittleEndian(ReadBytes(old(Left()), 4).value)
    {
      hide FromLittleEndian, ReadBytes;
      dest := 0;
      var bytes := new Byte[4];
      ok := Read(bytes, 4);
      if ok {
        FromFour(bytes[..4]);
        dest := Word(bytes[0], bytes[1], bytes[2], bytes[3]);
      }
    }

    /** `pb_decode_fixed64` */
    method DecodeFixed64() returns (ok: bool, dest: nat)
      requires Valid()
      modifies this
      ensures Kept()
      ensures Took(RestOf(ReadBytes(old(Left()), 8)), ok)
      ensures bytesLeft == if old(bytesLeft) < 8 then old(bytesLeft) else old(bytesLeft) - 8
      ensures ok ==> dest == FromLittleEndian(ReadBytes(old(Left()), 8).value)
    {
      hide FromLittleEndian, ReadBytes;
      dest := 0;
      var bytes := new Byte[8];
      ok := Read(bytes, 8);
      if ok {
        FromEight(bytes[..8]);
        dest := Word(bytes[0], bytes[1], bytes[2], bytes[3]) + U32 * Word(bytes[4], bytes[5], bytes[6], bytes[7]);
      }
    }

    /** `pb_dec_varint`: a field narrower than 64 bits first takes the low 32 bits. */
    method DecVarint(f: Field) returns (ok: bool, v: Value)
      requires Valid() && f.ltype.LVarint?
      modifies this
      ensures Kept()
      ensures Took(RestOf(Decode.DecodeScalar(f, old(Left()))), ok)
      ensures bytesLeft == Stop64(old(Left()))
      ensures ok ==> v == Decode.DecodeScalar(f, old(Left())).value
    {
      hide Varint.DecodeVarint, Signed;
      v := IntV(0);
      var value: nat;
      ok, value := DecodeVarint();
      if !ok {
        return;
      }
      if !IsWidth(f.dataSize) {
        return false, v;
      }
      var svalue := if f.dataSize == 8 then Signed(value, 8) else Signed(value, 4);
      var clamped := Signed(svalue, f.dataSize);
      if clamped != svalue {
        return false, v;
      }
      v := IntV(clamped);
    }

    /** `pb_dec_uvarint` */
    method DecUVarint(f: Field) returns (ok: bool, v: Value)
      requires Valid() && f.ltype.LUVarint?
      modifies this
      ensures Kept()
      ensures Took(RestOf(Decode.DecodeScalar(f, old(Left()))), ok)
      ensures bytesLeft == Stop64(old(Left()))
      ensures ok ==> v == Decode.DecodeScalar(f, old(Left())).value
    {
      hide Varint.DecodeVarint;
      v := IntV(0);
      var value: nat;
      ok, value := DecodeVarint();
      if !ok {
        return;
      }
      if !IsWidth(f.dataSize) {
        return false, v;
      }
      var clamped := Unsigned(value, f.dataSize);
      if clamped != value {
        return false, v;
      }
      v := IntV(clamped);
    }

    /** `pb_dec_svarint` */
    method DecSVarint(f: Field) returns (ok: bool, v: Value)
      requires Valid() && f.ltype.LSVarint?
      modifies this
      ensures Kept()
      ensures Took(RestOf(Decode.DecodeScalar(f, old(Left()))), ok)
      ensures bytesLeft == Stop64(old(Left()))
      ensures ok ==> v == Decode.DecodeScalar(f, old(Left())).value
    {
      hide Varint.DecodeVarint, Signed, UnZigZag;
      v := IntV(0);
      var value: int;
      ok, value := DecodeSVarint();
      if !ok {
        return;
      }
      if !IsWidth(f.dataSize) {
        return false, v;
      }
      var clamped := Signed(value, f.dataSize);
      if clamped != value {
        return false, v;
      }
      v := IntV(clamped);
    }

    /** A length, if it passes the checks of the field, and that many bytes: the tail of `pb_dec_bytes` and its like. */
    method ReadPayload(size: nat) returns (ok: bool, data: Bytes)
      requires Valid()
      modifies this
      ensures Kept()
      ensures Took(RestOf(ReadBytes(old(Left()), size)), ok)
      ensures ok ==> data == ReadBytes(old(Left()), size).value
    {
      var dest := new Byte[size];
      ok := Read(dest, size);
      data := dest[..];
    }

    /** `pb_dec_bytes` */
    method DecBytes(f: Field) returns (ok: bool, v: Value)
      requires Valid() && f.ltype.LBytes?
      modifies this
      ensures Kept()
      ensures Took(RestOf(Decode.DecodeScalar(f, old(Left()))), ok)
      ensures ok ==> v == Decode.DecodeScalar(f, old(Left())).value
    {
      hide Varint.DecodeVarint32, ReadBytes;
      v := IntV(0);
      var size, eof;
      ok, size, eof := DecodeVarint32();
      if !ok {
        return;
      }
      if size > PB_SIZE_MAX {
        return false, v;
      }
      if size + BYTES_OFFSET > f.dataSize {
        return false, v;
      }
      var data: Bytes;
      ok, data := ReadPayload(size);
      v := BytesV(data);
    }

    /** `pb_dec_string`: the terminator needs room too. */
    method DecString(f: Field) returns (ok: bool, v: Value)
      requires Valid() && f.ltype.LString?
      modifies this
      ensures Kept()
      ensures Took(RestOf(Decode.DecodeScalar(f, old(Left()))), ok)
      ensures ok ==> v == Decode.DecodeScalar(f, old(Left())).value
    {
      hide Varint.DecodeVarint32, ReadBytes, CString;
      v := IntV(0);
      var size, eof;
      ok, size, eof := DecodeVarint32();
      if !ok {
        return;
      }
      var allocSize := size + 1;
      if allocSize > f.dataSize {
        return false, v;
      }
      var data: Bytes;
      ok, data := ReadPayload(size);
      v := BytesV(CString(data));
    }

    /** `pb_dec_fixed_length_bytes`: empty data stands for all zeros. */
    method DecFixedLengthBytes(f: Field) returns (ok: bool, v: Value)
      requires Valid() && f.ltype.LFixedLengthBytes?
      modifies this
      ensures Kept()
      ensures Took(RestOf(Decode.DecodeScalar(f, old(Left()))), ok)
      ensures ok ==> v == Decode.DecodeScalar(f, old(Left())).value
    {
      hide Varint.DecodeVarint32, ReadBytes, Zeros;
      v := IntV(0);
      var size, eof;
      ok, size, eof := DecodeVarint32();
      if !ok {
        return;
      }
      if size > PB_SIZE_MAX {
        return false, v;
      }
      if size == 0 {
        return true, BytesV(Zeros(f.dataSize));
      }
      if size != f.dataSize {
        return false, v;
      }
      var data: Bytes;
      ok, data := ReadPayload(size);
      v := BytesV(data);
    }

    /** The entries of `PB_DECODERS` other than `pb_dec_submessage`; one that fails may have written anything to its item. */
    method DecodeScalar(f: Field) returns (ok: bool, v: Value)
      requires Valid() && !f.ltype.LSubmessage?
      modifies this
      ensures Kept()
      ensures Took(RestOf(Decode.DecodeScalar(f, old(Left()))), ok)
      ensures f.Packable() ==> bytesLeft == ScalarStop(f, old(Left()))
      ensures !ok ==> v.Indeterminate?
      ensures ok ==> v == Decode.DecodeScalar(f, old(Left())).value
    {
      hide Varint.DecodeVarint32, Varint.DecodeVarint, ReadBytes, CString, FromLittleEndian, CastSigned;
      var n, eof;
      match f.ltype {
        case LBool =>
          ok, n, eof := DecodeVarint32();
          v := BoolV(n != 0);
        case LVarint => ok, v := DecVarint(f);
        case LUVarint => ok, v := DecUVarint(f);
        case LSVarint => ok, v := DecSVarint(f);
        case LFixed32 =>
          ok, n := DecodeFixed32();
          v := IntV(n);
        case LFixed64 =>
          ok, n := DecodeFixed64();
          v := IntV(n);
        case LBytes => ok, v := DecBytes(f);
        case LString => ok, v := DecString(f);
        case LFixedLengthBytes => ok, v := DecFixedLengthBytes(f);
        case LExtension => ok := false;
      }
      if !ok {
        v := Indeterminate;
      }
    }

    // ---------- fields ----------

    /** `pb_dec_submessage`; the items of a repeated field are initialized first. */
    method DecSubmessage(f: Field, prior: Value) returns (ok: bool, v: Value)
      requires Valid() && FieldOk(f) && f.ltype.LSubmessage?
      modifies this
      ensures Took(RestOf(Decode.DecodeValue(f, prior, old(Left()))), ok)
      ensures KeptBut(LostValue(f, prior, old(Left())))
      ensures ReadDelimited(old(Left())).Ok? ==> bytesLeft == |ReadDelimited(old(Left())).rest|
      ensures ok ==> v == Decode.DecodeValue(f, prior, old(Left())).value
      ensures v == WrittenValue(f, prior, old(Left()))
      decreases bytesLeft, 0
    {
      hide TableOk, FieldOk, Decode.DecodeNoInit, Decode.DecodeValue, ReadDelimited, SubmessageStart,
        WrittenValue, WrittenRun, LostValue, LostRun;
      SubmessageTable(f);
      v := if f.htype.Repeated? then Indeterminate else prior;
      ghost var s0 := Left();
      var sub: IStream;
      ok, sub := MakeSubstream();
      if !ok {
        SubmessageUnframed(f, prior, s0);
        return;
      }
      SubmessageFramed(f, prior, s0, sub.Left(), ReadDelimited(s0).rest);
      var m: seq<Slot>;
      ok, m := sub.DecodeInside(f, prior);
      var closed := CloseSubstream(sub);
      v := MsgV(m);
    }

    /** The choice of `pb_dec_submessage`: new items get their defaults, other members keep what they hold. */
    method DecodeInside(f: Field, prior: Value) returns (ok: bool, m: seq<Slot>)
      requires Valid() && f.ltype.LSubmessage? && TableOk(f.sub)
      modifies this
      ensures Took(RestOf(Decode.DecodeNoInit(f.sub, SubmessageStart(f, prior), old(Left()))), ok)
      ensures KeptBut(LostRun(f.sub, Start(SubmessageStart(f, prior)), old(Left())))
      ensures ok ==> m == Decode.DecodeNoInit(f.sub, SubmessageStart(f, prior), old(Left())).value
      ensures m == WrittenRun(f.sub, Start(SubmessageStart(f, prior)), old(Left()))
      decreases bytesLeft, 6
    {
      hide TableOk, Decode.DecodeNoInit, DefaultMessage, SlotCount, WrittenRun, LostRun;
      if f.htype.Repeated? {
        ok, m := DecodeMessage(f.sub, seq(SlotCount(f.sub), _ => Unset));
      } else {
        ok, m := DecodeNoInit(f.sub, if prior.MsgV? then prior.msg else []);
      }
    }

    /** The function that `PB_DECODERS` holds for the type of the field. */
    method DecodeValue(f: Field, prior: Value) returns (ok: bool, v: Value)
      requires Valid() && FieldOk(f)
      modifies this
      ensures Took(RestOf(Decode.DecodeValue(f, prior, old(Left()))), ok)
      ensures KeptBut(LostValue(f, prior, old(Left())))
      ensures ok ==> v == Decode.DecodeValue(f, prior, old(Left())).value
      ensures v == WrittenValue(f, prior, old(Left()))
      decreases bytesLeft, 1
    {
      hide FieldOk, Decode.DecodeNoInit, Decode.DecodeScalar, ReadDelimited, DefaultMessage, WrittenRun, LostRun, ScalarStop;
      if f.ltype.LSubmessage? {
        ok, v := DecSubmessage(f, prior);
      } else {
        ok, v := DecodeScalar(f);
      }
    }

    /** The loop of the packed branch of `decode_static_field`, on the substream: items while there is data and room. */
    method PackedLoop(f: Field, a: Items) returns (status: bool, a': Items)
      requires Valid() && f.Packable()
      modifies this
      ensures Valid() && Kept() && old(state) <= state
      ensures bytesLeft == PackedStop(f, a, old(Left()))
      ensures Decode.DecodePacked(f, a, old(Left())) == if status && bytesLeft == 0 then Some(a') else None
      ensures a' == WrittenPacked(f, a, old(Left()))
    {
      hide Decode.DecodeScalar, Decode.DecodePacked, PackedStop, WrittenPacked, ScalarStop;
      status, a' := true, a;
      while bytesLeft > 0 && a'.count < f.arraySize && status
        invariant Valid() && Kept() && old(state) <= state
        invariant Decode.DecodePacked(f, a, old(Left()))
               == if status then Decode.DecodePacked(f, a', Left()) else None
        invariant PackedStop(f, a, old(Left())) == if status then PackedStop(f, a', Left()) else bytesLeft
        invariant WrittenPacked(f, a, old(Left())) == if status then WrittenPacked(f, a', Left()) else a'
        decreases bytesLeft, status
      {
        var v: Value;
        PackedStep(f, a', Left());
        status, v := DecodeScalar(f);
        if status {
          a' := Items(PutItem(a'.items, a'.count, v), a'.count + 1);
        } else if a'.count < |a'.items| {
          a' := Items(a'.items[a'.count := v], a'.count);
        }
      }
      PackedEnd(f, a', Left());
    }

    /**
     The packed branch of `decode_static_field`. When data is left over the substream is not
     closed: the bytes of the array are gone, and the cursor stays in front of them.
     */
    method DecodePacked(f: Field, a: Items) returns (ok: bool, a': Items)
      requires Valid() && f.Packable()
      modifies this
      ensures Took(RestOf(PackedRest(f, a, old(Left()))), ok)
      ensures KeptBut(LostPacked(f, a, old(Left())))
      ensures ok ==> Some(a') == PackedResult(f, a, old(Left()))
      ensures var p := ReadDelimited(old(Left())); a' == if p.Ok? then WrittenPacked(f, a, p.value) else a
    {
      hide ReadDelimited, Decode.DecodePacked, PackedStop, WrittenPacked;
      a' := a;
      var sub: IStream;
      ok, sub := MakeSubstream();
      if !ok {
        return;
      }
      ok, a' := sub.PackedLoop(f, a);
      if sub.bytesLeft != 0 {
        return false, a';
      }
      var closed := CloseSubstream(sub);
    }

    /** The repeated branch of `decode_static_field`; the count, a `pb_size_t`, goes up before the item is read or refused. */
    method DecodeItems(f: Field, wireType: nat, a: Items) returns (ok: bool, a': Items)
      requires Valid() && FieldOk(f) && f.htype.Repeated?
      modifies this
      ensures Took(RestOf(Decode.DecodeItems(f, wireType, a, old(Left()))), ok)
      ensures KeptBut(LostItems(f, wireType, a, old(Left())))
      ensures ok ==> a' == Decode.DecodeItems(f, wireType, a, old(Left())).value
      ensures a' == WrittenItems(f, wireType, a, old(Left()))
      decreases bytesLeft, 2
    {
      hide FieldOk, Decode.DecodePacked, Decode.DecodeValue, ReadDelimited, DefaultValue, WrittenValue, WrittenPacked,
        LostValue, LostPacked;
      if wireType == WT_STRING && f.Packable() {
        ok, a' := DecodePacked(f, a);
        return;
      }
      if a.count >= f.arraySize {
        var count := (a.count + 1) % (PB_SIZE_MAX + 1);
        if f.FixedCount() {
          return false, Items(a.items, count);
        }
        return false, Items(if count <= |a.items| then a.items[..count] else a.items + [Indeterminate], count);
      }
      var v: Value;
      ok, v := DecodeValue(f, DefaultValue(f));
      a' := Items(PutItem(a.items, a.count, v), a.count + 1);
    }

    /**
     The other branches of `decode_static_field`; the submessage of a oneof starts from its
     defaults, and flag and `which` are set before the value is read.
     */
    method DecodeSingle(f: Field, slot: Slot) returns (ok: bool, slot': Slot)
      requires Valid() && FieldOk(f)
      modifies this
      ensures Took(RestOf(Decode.DecodeSingle(f, slot, old(Left()))), ok)
      ensures KeptBut(LostValue(f, Prior(f, slot), old(Left())))
      ensures ok ==> slot' == Decode.DecodeSingle(f, slot, old(Left())).value
      ensures slot' == WrittenSlot(f, slot, old(Left()))
      decreases bytesLeft, 2
    {
      hide FieldOk, Decode.DecodeValue, DefaultValue, WrittenValue, LostValue;
      var prior := if f.htype.Oneof? then DefaultValue(f) else if slot.Plain? || slot.Opt? then slot.v else BytesV([]);
      var v: Value;
      ok, v := DecodeValue(f, prior);
      slot' := if f.htype.Oneof? then Active(f.tag, v) else if f.HasFlag() then Opt(true, v) else Plain(v);
    }

    /**
     The record loop once `pb_field_iter_find` has found field `i`, which lives in slot `k`.
     Whether the record is decoded or fails half way, only that slot is written.
     */
    method DecodeFound(fields: seq<Field>, i: nat, k: nat, wireType: nat, m: seq<Slot>,
        fixedField: Option<nat>, fixedCount: nat, ghost seen: set<nat>)
      returns (ok: bool, m': seq<Slot>, fixedField': Option<nat>, fixedCount': nat)
      requires Valid() && TableOk(fields) && i < |fields| && k == SlotOf(fields, i)
      modifies this
      ensures var st := State(m, seen, fixedField, fixedCount);
              var p := DecodeField(fields, st, i, wireType, old(Left()));
              && Took(RestOf(p), ok)
              && KeptBut(LostField(fields, st, i, wireType, old(Left())))
              && (ok ==> p.value == State(m', p.value.seen, fixedField', fixedCount'))
              && (ok ==> p.value.seen == if fields[i].Required() then seen + {i} else seen)
              && m' == WrittenField(fields, st, i, wireType, old(Left()))
      decreases bytesLeft, 3, 0
    {
      TableFieldOk(fields, i);
      hide TableOk, FieldOk, SlotOf, Decode.DecodeItems, Decode.DecodeSingle, WrittenItems, WrittenSlot, LostItems, LostValue, Prior;
      var f := fields[i];
      m', fixedField', fixedCount' := m, fixedField, fixedCount;
      if k >= |m| {
        return false, m, fixedField, fixedCount;
      }
      if f.htype.Repeated? {
        var count: nat;
        if f.sizeOffset == 0 {
          if fixedField != Some(i) {
            if fixedField.Some? &&
               !(fixedField.value < |fields| && fixedCount == fields[fixedField.value].arraySize) {
              return false, m, fixedField, fixedCount;
            }
            fixedField' := Some(i);
            fixedCount' := 0;
          }
          count := fixedCount';
        }
        if !m[k].Arr? {
          return false, m, fixedField, fixedCount;
        }
        if f.sizeOffset != 0 {
          count := |m[k].items|;
        }
        var a: Items;
        ok, a := DecodeItems(f, wireType, Items(m[k].items, count));
        m' := m[k := Arr(a.items)];
        if f.sizeOffset == 0 {
          fixedCount' := a.count;
        }
      } else {
        var slot: Slot;
        ok, slot := DecodeSingle(f, m[k]);
        m' := m[k := slot];
      }
    }

    /** `pb_decode_noinit`; on failure the struct is as the records before the one that fails have left it, and as far as that one has written it. */
    method DecodeNoInit(fields: seq<Field>, dest: seq<Slot>) returns (ok: bool, m: seq<Slot>)
      requires Valid() && TableOk(fields)
      modifies this
      ensures Took(RestOf(Decode.DecodeNoInit(fields, dest, old(Left()))), ok)
      ensures KeptBut(LostRun(fields, Start(dest), old(Left())))
      ensures ok ==> m == Decode.DecodeNoInit(fields, dest, old(Left())).value
      ensures m == WrittenRun(fields, Start(dest), old(Left()))
      decreases bytesLeft, 4
    {
      hide TableOk, FieldOk, DecodeRecords, Decode.DecodeNoInit, Agree, Tracked, WrittenRun, LostRun;
      var fieldsSeen := new nat[2](_ => 0);
      OutputStream.TagsNotZero(fields);
      var iter := new FieldIter.Iter(fields, 0);
      var fixedField: Option<nat>;
      var fixedCount: nat;
      ghost var run: Run;
      ok, m, fixedField, fixedCount, run := RecordLoop(fields, dest, iter, fieldsSeen);
      NoInitResult(fields, dest, old(Left()));
      if !ok {
        return;
      }
      if fixedField.Some? && !(fixedField.value < |fields| && fixedCount == fields[fixedField.value].arraySize) {
        return false, m;
      }
      ok := CheckRequired(fields, iter, fieldsSeen, run.st.seen);
    }

    /** `pb_decode` */
    method DecodeMessage(fields: seq<Field>, dest: seq<Slot>) returns (ok: bool, m: seq<Slot>)
      requires Valid() && TableOk(fields) && |dest| == SlotCount(fields)
      modifies this
      ensures Took(RestOf(Decode.DecodeMessage(fields, old(Left()))), ok)
      ensures KeptBut(LostRun(fields, Start(DefaultMessage(fields)), old(Left())))
      ensures ok ==> m == Decode.DecodeMessage(fields, old(Left())).value
      ensures m == WrittenRun(fields, Start(DefaultMessage(fields)), old(Left()))
      decreases bytesLeft, 5
    {
      hide TableOk, Decode.DecodeNoInit, DefaultMessage, SlotCount, WrittenRun, LostRun;
      m := MessageSetToDefaults(fields, dest);
      ok, m := DecodeNoInit(fields, m);
    }

    /**
     `pb_decode_delimited`. Once there is a frame, as many bytes are left as lie behind it, whatever
     is in it; the cursor is there too unless a packed array was left over inside.
     */
    method DecodeDelimited(fields: seq<Field>, dest: seq<Slot>) returns (ok: bool, m: seq<Slot>)
      requires Valid() && TableOk(fields) && |dest| == SlotCount(fields)
      modifies this
      ensures Took(RestOf(Decode.DecodeDelimited(fields, old(Left()))), ok)
      ensures KeptBut(LostDelimited(fields, old(Left())))
      ensures ReadDelimited(old(Left())).Ok? ==> bytesLeft == |ReadDelimited(old(Left())).rest|
      ensures ok ==> m == Decode.DecodeDelimited(fields, old(Left())).value
      ensures m == WrittenDelimited(fields, dest, old(Left()))
    {
      hide TableOk, Decode.DecodeMessage, ReadDelimited, SlotCount, DefaultMessage, WrittenRun, LostRun;
      m := dest;
      var sub: IStream;
      ok, sub := MakeSubstream();
      if !ok {
        return;
      }
      ok, m := sub.DecodeMessage(fields, dest);
      var closed := CloseSubstream(sub);
    }

    /** The body of the record loop behind the tag. */
    method OneRecord(fields: seq<Field>, wireType: nat, tag: nat, iter: FieldIter.Iter, fieldsSeen: array<nat>,
        m: seq<Slot>, fixedField: Option<nat>, fixedCount: nat, ghost st: State)
      returns (ok: bool, m': seq<Slot>, fixedField': Option<nat>, fixedCount': nat)
      requires Valid() && TableOk(fields) && iter.Valid() && iter.start == fields
      requires fieldsSeen.Length == 2 && (fields == [] || Agree(fields, st.seen, fieldsSeen[..]))
      requires st == State(m, st.seen, fixedField, fixedCount)
      modifies this, iter, fieldsSeen
      ensures var p := DecodeRecord(fields, st, tag, wireType, old(Left()));
              && Took(RestOf(p), ok)
              && (ok ==> p.value == State(m', p.value.seen, fixedField', fixedCount'))
              && (ok ==> iter.Valid() && (fields == [] || Agree(fields, p.value.seen, fieldsSeen[..])))
      ensures KeptBut(LostRecord(fields, st, tag, wireType, old(Left())))
      ensures m' == WrittenRecord(fields, st, tag, wireType, old(Left()))
      decreases bytesLeft, 3, 1
    {
      hide TableOk, FieldOk, SlotOf, RequiredIndex, DecodeRecord, DecodeField, Agree, Marked,
        WrittenRecord, WrittenField, LostRecord, LostField, Varint.DecodeVarint32, Decode.SkipField, Or, Shl;
      ok, m', fixedField', fixedCount' := true, m, fixedField, fixedCount;
      var found := iter.Find(tag);
      if !found {
        NotFound(fields, st, tag, wireType, Left());
        ok := SkipField(wireType);
      } else if iter.pos == |fields| {
        // the terminator of an empty table was found, and its type reads as a required bool
        EmptyTable(st, tag, wireType, Left());
        fieldsSeen[0] := Or(fieldsSeen[0], Pow2(0));
        var value, eof;
        ok, value, eof := DecodeVarint32();
      } else {
        FoundField(fields, st, iter.pos, wireType, Left());
        MarkField(fields, st.seen, fieldsSeen[..], iter.pos);
        Mark(fields, iter, fieldsSeen);
        ok, m', fixedField', fixedCount' :=
          DecodeFound(fields, iter.pos, iter.slot, wireType, m, fixedField, fixedCount, st.seen);
      }
    }

    /** The record loop of `pb_decode_noinit`. */
    method RecordLoop(fields: seq<Field>, dest: seq<Slot>, iter: FieldIter.Iter, fieldsSeen: array<nat>)
      returns (ok: bool, m: seq<Slot>, fixedField: Option<nat>, fixedCount: nat, ghost run: Run)
      requires Valid() && TableOk(fields) && iter.Valid() && iter.start == fields
      requires fieldsSeen.Length == 2 && fieldsSeen[0] == fieldsSeen[1] == 0
      modifies this, iter, fieldsSeen
      ensures run == DecodeRecords(fields, Start(dest), old(Left()))
      ensures ok ==> state + bytesLeft == old(state + bytesLeft)
      ensures Valid() && state + bytesLeft <= old(state + bytesLeft) && old(state) <= state
      ensures KeptBut(LostRun(fields, Start(dest), old(Left())))
      ensures m == WrittenRun(fields, Start(dest), old(Left()))
      ensures ok <==> !run.Failed?
      ensures ok ==> run.st == State(m, run.st.seen, fixedField, fixedCount)
      ensures ok ==> Left() == if run.Stopped? then run.rest else []
      ensures ok ==> iter.Valid() && (fields == [] || Agree(fields, run.st.seen, fieldsSeen[..]))
      decreases bytesLeft, 3, 2
    {
      hide TableOk, RequiredIndex, DecodeRecords, DecodeRecord, Agree, WrittenRun, WrittenRecord, LostRun, LostRecord,
        Varint.DecodeVarint32;
      ok, m, fixedField, fixedCount := true, dest, None, 0;
      ghost var st := Start(dest);
      run := DecodeRecords(fields, Start(dest), Left());
      NothingSeen(fields);
      assert fieldsSeen[..] == [0, 0];
      StartState(dest);
      while bytesLeft > 0
        invariant Valid() && state + bytesLeft == old(state + bytesLeft) && old(state) <= state
        invariant iter.Valid() && iter.start == fields
        invariant fields == [] || Agree(fields, st.seen, fieldsSeen[..])
        invariant st == State(m, st.seen, fixedField, fixedCount)
        invariant run == DecodeRecords(fields, st, Left())
        invariant WrittenRun(fields, Start(dest), old(Left())) == WrittenRun(fields, st, Left())
        invariant LostRun(fields, Start(dest), old(Left())) == LostRun(fields, st, Left())
        invariant ok
        decreases bytesLeft
      {
        RecordsUnfold(fields, st, Left());
        EffectsUnfold(fields, st, Left());
        var wireType, tag, eof;
        ok, wireType, tag, eof := DecodeTag();
        if !ok {
          if eof {
            return true, m, fixedField, fixedCount, run;
          } else {
            return;
          }
        }
        ghost var s1 := Left();
        ok, m, fixedField, fixedCount := OneRecord(fields, wireType, tag, iter, fieldsSeen, m, fixedField, fixedCount, st);
        if !ok {
          return;
        }
        st := DecodeRecord(fields, st, tag, wireType, s1).value;
      }
      RecordsEnd(fields, st);
      EffectsUnfold(fields, st, []);
    }
  }

  lemma EffectsUnfold(fields: seq<Field>, st: State, s: Bytes)
    ensures WrittenRun(fields, st, s)
         == if s == [] || DecodeVarint32(s).Fail? || DecodeVarint32(s).value == 0 then st.msg
            else
              var Ok(key, r) := DecodeVarint32(s);
              match DecodeRecord(fields, st, key / 8, key % 8, r)
              case Fail => WrittenRecord(fields, st, key / 8, key % 8, r)
              case Ok(st', r') => WrittenRun(fields, st', r')
    ensures LostRun(fields, st, s)
         == if s == [] || DecodeVarint32(s).Fail? || DecodeVarint32(s).value == 0 then 0
            else
              var Ok(key, r) := DecodeVarint32(s);
              match DecodeRecord(fields, st, key / 8, key % 8, r)
              case Fail => LostRecord(fields, st, key / 8, key % 8, r)
              case Ok(st', r') => LostRun(fields, st', r')
  {
  }

  /** `fields_seen[required_field_index >> 5] |= 1 << (required_field_index & 31)`, for the first 64 required fields. */
  method Mark(fields: seq<Field>, iter: FieldIter.Iter, fieldsSeen: array<nat>)
    requires iter.pos < |fields| && iter.requiredFieldIndex == RequiredIndex(fields, iter.pos) && fieldsSeen.Length == 2
    modifies fieldsSeen
    ensures fieldsSeen[..] == Marked(fields, iter.pos, old(fieldsSeen[..]))
  {
    hide Or, Shl, RequiredIndex;
    var index := iter.requiredFieldIndex;
    if fields[iter.pos].htype.Required? && index < PB_MAX_REQUIRED_FIELDS {
      fieldsSeen[index / 32] := Or(fieldsSeen[index / 32], Pow2(index % 32));
    }
  }

  /**
   The check behind the record loop: the iterator runs on to the end of the table, wherever
   it stands, to count the required fields, and the words are compared with `allbits`.
   */
  method CheckRequired(fields: seq<Field>, iter: FieldIter.Iter, fieldsSeen: array<nat>, ghost seen: set<nat>)
    returns (ok: bool)
    requires iter.Valid() && iter.start == fields && fieldsSeen.Length == 2
    requires fields == [] || Agree(fields, seen, fieldsSeen[..])
    modifies iter
    ensures ok <==> forall i | 0 <= i < |fields| && Tracked(fields, i) :: i in seen
  {
    hide *;
    var count := CountRequired(fields, iter);
    if count > PB_MAX_REQUIRED_FIELDS {
      count := PB_MAX_REQUIRED_FIELDS;
    }
    if fields == [] {
      return true;
    }
    ghost var words := fieldsSeen[..];
    FirstBitsMeansSeen(fields, seen, words);
    TrackedCountIs(fields);
    for i := 0 to count / 32
      invariant forall r: nat | r < 32 * i :: BitAt(words, r)
    {
      WordCheck(fields, seen, words, i, 32);
      AllBits();
      if fieldsSeen[i] != 0xFFFF_FFFF {
        MissingBit(words, 32 * i, 32, count);
        return false;
      }
    }
    var rest := count % 32;
    if rest != 0 {
      WordCheck(fields, seen, words, count / 32, rest);
      if fieldsSeen[count / 32] != Pow2(rest) - 1 {
        MissingBit(words, 32 * (count / 32), rest, count);
        return false;
      }
    }
    AllFirstBits(words, count);
    return true;
  }

  /** The do-while loop that seeks the end of the table, and the fixup for a required last field. */
  method CountRequired(fields: seq<Field>, iter: FieldIter.Iter) returns (count: nat)
    requires iter.Valid() && iter.start == fields
    modifies iter
    ensures count == RequiredIndex(fields, |fields|)
  {
    count := iter.requiredFieldIndex;
    var last := iter.pos;
    var more := iter.Next();
    while more
      invariant iter.Valid() && (fields == [] || last < |fields|)
      invariant more ==> iter.pos == last + 1 < |fields|
      invariant !more && fields != [] ==> last + 1 == |fields|
      invariant fields == [] ==> !more && count == 0
      invariant fields != [] ==> count == RequiredIndex(fields, last)
      decreases |fields| - last, more
    {
      count := iter.requiredFieldIndex;
      last := iter.pos;
      more := iter.Next();
    }
    if fields != [] && fields[last].htype.Required? && iter.Tag() != 0 {
      count := count + 1;
    }
  }

  lemma StartState(dest: seq<Slot>)
    ensures Start(dest) == State(dest, {}, None, 0)
  {
  }

  lemma RecordsUnfold(fields: seq<Field>, st: State, s: Bytes)
    requires s != []
    ensures DecodeRecords(fields, st, s)
         == match DecodeVarint32(s)
            case Fail => Failed
            case Ok(key, r) =>
              if key == 0 then Stopped(st, r)
              else
                match DecodeRecord(fields, st, key / 8, key % 8, r)
                case Fail => Failed
                case Ok(st', r') => DecodeRecords(fields, st', r')
  {
  }

  lemma RecordsEnd(fields: seq<Field>, st: State)
    ensures DecodeRecords(fields, st, []) == Ended(st)
  {
  }

  lemma NotFound(fields: seq<Field>, st: State, tag: nat, wireType: nat, s: Bytes)
    requires TableOk(fields) && !exists i | 0 <= i < |fields| :: FieldIter.Matches(fields[i], tag)
    requires !(fields == [] && tag == 0)
    ensures DecodeRecord(fields, st, tag, wireType, s)
         == match Decode.SkipField(wireType, s) case Fail => Fail case Ok(_, r) => Ok(st, r)
    ensures WrittenRecord(fields, st, tag, wireType, s) == st.msg && LostRecord(fields, st, tag, wireType, s) == 0
  {
    var i := FindTag(fields, tag, 0);
    assert i < |fields| ==> FieldOk(fields[i]) && FieldIter.Matches(fields[i], tag);
  }

  lemma EmptyTable(st: State, tag: nat, wireType: nat, s: Bytes)
    requires tag == 0
    ensures DecodeRecord([], st, tag, wireType, s)
         == match DecodeVarint32(s) case Fail => Fail case Ok(_, r) => Ok(st, r)
    ensures WrittenRecord([], st, tag, wireType, s) == st.msg && LostRecord([], st, tag, wireType, s) == 0
  {
  }

  lemma FoundField(fields: seq<Field>, st: State, i: nat, wireType: nat, s: Bytes)
    requires TableOk(fields) && i < |fields|
    ensures DecodeRecord(fields, st, fields[i].tag, wireType, s) == DecodeField(fields, st, i, wireType, s)
    ensures WrittenRecord(fields, st, fields[i].tag, wireType, s) == WrittenField(fields, st, i, wireType, s)
    ensures LostRecord(fields, st, fields[i].tag, wireType, s) == LostField(fields, st, i, wireType, s)
  {
    Records.FindOwnTag(fields, i);
  }

  lemma NoInitResult(fields: seq<Field>, m: seq<Slot>, s: Bytes)
    ensures Decode.DecodeNoInit(fields, m, s)
         == match DecodeRecords(fields, Start(m), s)
            case Failed => Fail
            case Ended(st) =>
              if FixedComplete(fields, st) && (forall i | 0 <= i < |fields| && Tracked(fields, i) :: i in st.seen)
              then Ok(st.msg, []) else Fail
            case Stopped(st, r) =>
              if FixedComplete(fields, st) && (forall i | 0 <= i < |fields| && Tracked(fields, i) :: i in st.seen)
              then Ok(st.msg, r) else Fail
  {
  }

  lemma TrackedCountIs(fields: seq<Field>)
    ensures TrackedCount(fields)
         == if RequiredIndex(fields, |fields|) > PB_MAX_REQUIRED_FIELDS then PB_MAX_REQUIRED_FIELDS else RequiredIndex(fields, |fields|)
    ensures PB_MAX_REQUIRED_FIELDS == 64
  {
  }

  lemma AllBits()
    ensures Pow2(32) - 1 == 0xFFFF_FFFF
  {
    Pow2Values();
  }

  lemma MissingBit(words: seq<nat>, from: nat, n: nat, count: nat)
    requires |words| == 2 && from + n <= count <= 64
    requires !forall r: nat | from <= r < from + n :: BitAt(words, r)
    ensures !FirstBits(words, count)
  {
    hide Bit;
  }

  lemma AllFirstBits(words: seq<nat>, count: nat)
    requires |words| == 2 && count <= 64
    requires forall r: nat | r < 32 * (count / 32) :: BitAt(words, r)
    requires forall r: nat | 32 * (count / 32) <= r < 32 * (count / 32) + count % 32 :: BitAt(words, r)
    ensures FirstBits(words, count)
  {
    hide Bit;
  }

  lemma SubmessageTable(f: Field)
    requires FieldOk(f) && f.ltype.LSubmessage?
    ensures TableOk(f.sub)
  {
  }

  lemma SubmessageUnframed(f: Field, prior: Value, s: Bytes)
    requires f.ltype.LSubmessage? && ReadDelimited(s).Fail?
    ensures Decode.DecodeValue(f, prior, s).Fail? && LostValue(f, prior, s) == 0
    ensures WrittenValue(f, prior, s) == if f.htype.Repeated? then Indeterminate else prior
  {
  }

  lemma SubmessageFramed(f: Field, prior: Value, s: Bytes, data: Bytes, r: Bytes)
    requires f.ltype.LSubmessage? && ReadDelimited(s) == Ok(data, r)
    ensures var p := Decode.DecodeNoInit(f.sub, SubmessageStart(f, prior), data);
            Decode.DecodeValue(f, prior, s) == if p.Ok? then Ok(MsgV(p.value), r) else Fail
    ensures WrittenValue(f, prior, s) == MsgV(WrittenRun(f.sub, Start(SubmessageStart(f, prior)), data))
    ensures LostValue(f, prior, s) == LostRun(f.sub, Start(SubmessageStart(f, prior)), data)
  {
  }

  /** What is left behind a packed record. */
  function PackedRest(f: Field, a: Items, s: Bytes): Parsed<()>
  {
    match ReadDelimited(s)
    case Fail => Fail
    case Ok(data, r) => if Decode.DecodePacked(f, a, data).Some? then Ok((), r) else Fail
  }

  /** The items behind a packed record. */
  function PackedResult(f: Field, a: Items, s: Bytes): Option<Items>
  {
    match ReadDelimited(s)
    case Fail => None
    case Ok(data, r) => Decode.DecodePacked(f, a, data)
  }

  lemma PackedStep(f: Field, a: Items, s: Bytes)
    requires f.Packable() && s != [] && a.count < f.arraySize
    ensures Decode.DecodePacked(f, a, s)
         == match Decode.DecodeScalar(f, s)
            case Fail => None
            case Ok(v, r) => Decode.DecodePacked(f, Items(PutItem(a.items, a.count, v), a.count + 1), r)
    ensures PackedStop(f, a, s)
         == match Decode.DecodeScalar(f, s)
            case Fail => ScalarStop(f, s)
            case Ok(v, r) => PackedStop(f, Items(PutItem(a.items, a.count, v), a.count + 1), r)
    ensures WrittenPacked(f, a, s)
         == match Decode.DecodeScalar(f, s)
            case Fail => if a.count < |a.items| then Items(a.items[a.count := Indeterminate], a.count) else a
            case Ok(v, r) => WrittenPacked(f, Items(PutItem(a.items, a.count, v), a.count + 1), r)
  {
  }

  lemma PackedEnd(f: Field, a: Items, s: Bytes)
    requires f.Packable()
    ensures s == [] ==> Decode.DecodePacked(f, a, s) == Some(a)
    ensures s != [] && a.count >= f.arraySize ==> Decode.DecodePacked(f, a, s).None?
    ensures s == [] || a.count >= f.arraySize ==> PackedStop(f, a, s) == |s| && WrittenPacked(f, a, s) == a
  {
  }

  // ---------- default values ----------

  /** `pb_field_set_to_default` */
  method FieldSetToDefault(f: Field) returns (slot: Slot)
    requires FieldOk(f)
    ensures slot == DefaultSlot(f)
    decreases f
  {
    if f.htype.Repeated? {
      if f.sizeOffset != 0 {
        return Arr([]);
      }
      // the count goes to where the items are, which are not set otherwise
      return Arr(seq(f.arraySize, _ => Indeterminate));
    } else if f.htype.Oneof? {
      return Unset;
    }
    var v: Value;
    if f.ltype.LSubmessage? {
      var m := MessageSetToDefaults(f.sub, seq(SlotCount(f.sub), _ => Unset));
      v := MsgV(m);
    } else if f.initial.Some? {
      v := f.initial.value;
    } else {
      v := ZeroValue(f);
    }
    assert v == DefaultValue(f);
    hide DefaultValue, FieldOk;
    if f.htype.Optional? && f.sizeOffset != 0 {
      return Opt(false, v);
    }
    return Plain(v);
  }

  /** `pb_message_set_to_defaults`: whatever the struct held, every member gets its default. */
  method MessageSetToDefaults(fields: seq<Field>, dest: seq<Slot>) returns (m: seq<Slot>)
    requires TableOk(fields) && |dest| == SlotCount(fields)
    ensures m == DefaultMessage(fields)
    decreases fields
  {
    hide *;
    m := dest;
    DefaultMessageLength(fields);
    OutputStream.TagsNotZero(fields);
    var iter := new FieldIter.Iter(fields, 0);
    if fields == [] {
      NoSlots(fields);
      return;
    }
    ghost var k := 0;
    var more := true;
    while more
      invariant iter.Valid() && iter.start == fields && fresh(iter) && |m| == SlotCount(fields)
      invariant k <= |fields| && more == (k < |fields|)
      invariant more ==> iter.pos == k && iter.slot == SlotOf(fields, k)
      invariant forall j | 0 <= j < k :: SlotOf(fields, j) < |m| && m[SlotOf(fields, j)] == DefaultSlot(fields[j])
      decreases |fields| - k
    {
      TableFieldOk(fields, k);
      SlotInRange(fields, k);
      var slot := FieldSetToDefault(fields[iter.pos]);
      m := m[iter.slot := slot];
      forall j | 0 <= j < k ensures m[SlotOf(fields, j)] == DefaultSlot(fields[j]) {
        if SlotOf(fields, j) == SlotOf(fields, k) { SharedDefault(fields, j, k); }
      }
      k := k + 1;
      more := iter.Next();
    }
    forall s | 0 <= s < |m| ensures m[s] == DefaultMessage(fields)[s] {
      NormalForm.OwnedSlot(fields, s);
      var i :| 0 <= i < |fields| && SlotOf(fields, i) == s;
      DefaultMessageAt(fields, i);
    }
    assert m == DefaultMessage(fields);
  }

  lemma NoSlots(fields: seq<Field>)
    requires fields == []
    ensures SlotCount(fields) == 0
  {
  }

  lemma TableFieldOk(fields: seq<Field>, k: nat)
    requires TableOk(fields) && k < |fields|
    ensures FieldOk(fields[k])
  {
  }

  lemma SharedDefault(fields: seq<Field>, j: nat, k: nat)
    requires j < k < |fields| && SlotOf(fields, j) == SlotOf(fields, k)
    ensures DefaultSlot(fields[j]) == DefaultSlot(fields[k])
  {
    SharedSlot(fields, j, k);
    OneofDefault(fields[j]);
    OneofDefault(fields[k]);
  }

  /** Four bytes shifted into place. */
  function Word(b0: nat, b1: nat, b2: nat, b3: nat): nat
  {
    b0 + 0x100 * b1 + 0x1_0000 * b2 + 0x100_0000 * b3
  }

  lemma FromStep(s: Bytes)
    requires s != []
    ensures FromLittleEndian(s) == s[0] + 0x100 * FromLittleEndian(s[1..])
  {
  }

  lemma FromFour(s: Bytes)
    requires |s| >= 4
    ensures FromLittleEndian(s)
         == Word(s[0], s[1], s[2], s[3]) + U32 * FromLittleEndian(s[4..])
    ensures |s| == 4 ==> FromLittleEndian(s[4..]) == 0
  {
    FromStep(s);
    FromStep(s[1..]);
    FromStep(s[2..]);
    FromStep(s[3..]);
    assert s[1..][1..] == s[2..] && s[2..][1..] == s[3..] && s[3..][1..] == s[4..];
  }

  lemma FromEight(s: Bytes)
    requires |s| == 8
    ensures FromLittleEndian(s)
         == Word(s[0], s[1], s[2], s[3]) + U32 * Word(s[4], s[5], s[6], s[7])
  {
    hide FromLittleEndian;
    FromFour(s);
    FromFour(s[4..]);
  }

  lemma FirstByte(b: Byte)
    ensures Folded32([b], 7, b % 128)
  {
    hide Or, Shl;
    OrZero(b % 128);
    NoShift(b % 128);
    Fold32Step([], b, 0, 0, b % 128);
    assert [] + [b] == [b];
  }

  lemma NoShift(x: nat)
    ensures Shl(x, 0) == x
  {
  }

  lemma NoTerminator(g: Bytes)
    requires Continues(g)
    ensures DecodeVarint32(g).Fail?
  {
    SplitEnds(g, 0, []);
  }

  lemma SplitSlice(buf: array<Byte>, from: nat, n: nat, size: nat)
    requires from + n <= buf.Length && size <= n
    ensures buf[from..from + n][..size] == buf[from..from + size]
    ensures buf[from..from + n][size..] == buf[from + size..from + n]
  {
  }

  lemma VarintCut(g: Bytes, s: Bytes)
    requires Continues(g) && (|g| == 10 || (s == [] && |g| < 10))
    ensures DecodeVarint(g + s).Fail? && Stop64(g + s) == |s|
  {
    SplitAfter(g, s);
  }
}
