/** A scalar that was written is read back. */
module ScalarLaws {
  import opened Wrappers
  import opened Bits
  import opened Varint
  import opened Scalars
  import opened Message
  import opened Encode
  import opened Decode

  lemma {:induction false} CStringOfString(s: Bytes)
    requires 0 !in s
    ensures CString(s) == s
  {
    if s != [] {
      assert s[0] != 0;
      CStringOfString(s[1..]);
      assert s == [s[0]] + s[1..];
    }
  }

  /** The cast of the length to uint64 changes nothing. */
  lemma DelimitedShort(s: Bytes)
    requires |s| < U64
    ensures Delimited(s) == EncodeVarint(|s|) + s
  {
    hide EncodeVarint;
    ModUnique(|s|, U64, 0, |s|);
  }

  /** A length prefix is read back exactly when it fits 32 bits. */
  lemma DelimitedRoundTrip(s: Bytes, t: Bytes)
    requires |s| < U63
    ensures ReadDelimited(Delimited(s) + t) == if |s| < U32 then Ok(s, t) else Fail
  {
    hide EncodeVarint, DecodeVarint32, Delimited;
    DelimitedShort(s);
    Varint32RoundTrip(|s|, s + t);
    assert Delimited(s) + t == EncodeVarint(|s|) + (s + t);
    assert (s + t)[..|s|] == s && (s + t)[|s|..] == t;
  }

  lemma SignedShift(i: int, w: nat)
    requires IsWidth(w) && FitsSigned(i, w)
    ensures Signed(i + U64, w) == i
  {
    if w == 1 {
      assert (i + U64) % 0x100 == i % 0x100;
    } else if w == 2 {
      assert (i + U64) % 0x1_0000 == i % 0x1_0000;
    } else if w == 4 {
      assert (i + U64) % U32 == i % U32;
    } else {
      assert (i + U64) % U64 == i % U64;
    }
    SignedFits(i, w);
  }

  /** The sign survives the trip through uint64. */
  lemma SignedOfUnsigned(i: int, w: nat)
    requires IsWidth(w) && FitsSigned(i, w)
    ensures Signed(Unsigned(i, 8), w) == i
  {
    if i < 0 {
      assert Unsigned(i, 8) == i + U64;
      SignedShift(i, w);
    } else {
      assert Unsigned(i, 8) == i;
      SignedFits(i, w);
    }
  }

  lemma CastRoundTrip(i: int, w: nat)
    requires IsWidth(w) && FitsSigned(i, w)
    ensures CastSigned(Unsigned(i, 8), w) == Some(i)
  {
    hide Signed, Unsigned;
    SignedOfUnsigned(i, if w == 8 then 8 else 4);
    SignedFits(i, w);
  }

  /** Integers of every width: `int8` to `int64`, `uint8` to `uint64`, `sint8` to `sint64`. */
  lemma IntRoundTrip(f: Field, i: int, s: Bytes, t: Bytes)
    requires f.ltype in {LVarint, LUVarint, LSVarint}
    requires ScalarTyped(f, IntV(i)) && EncodeScalar(f, IntV(i)) == Some(s)
    ensures DecodeScalar(f, s + t) == Ok(IntV(i), t)
  {
    hide DecodeVarint, EncodeVarint;
    if f.ltype.LSVarint? {
      assert FitsSigned(i, 8);
      ZigZagBijection(i, 0);
      VarintRoundTrip(ZigZag(i), t);
      SignedFits(i, f.dataSize);
    } else {
      VarintRoundTrip(Unsigned(i, 8), t);
      if f.ltype.LVarint? {
        CastRoundTrip(i, f.dataSize);
      } else {
        assert Unsigned(i, 8) == i && Unsigned(i, f.dataSize) == i;
      }
    }
  }

  /** The arithmetic a plain signed field is read in: 64-bit for `int64`, 32-bit for all narrower ones. */
  function Modulus(w: nat): (m: nat)
    ensures m > 0
  {
    if w == 8 then U64 else U32
  }

  lemma MultipleFar(m: int, k: int)
    requires m > 0
    ensures k >= 1 ==> m * k >= m
    ensures k <= -1 ==> m * k <= -m
  {
    if k >= 1 { assert m * k == m + m * (k - 1); }
    if k <= -1 { assert m * k == -m + m * (k + 1); }
  }

  /** Two numbers of one range that are congruent to `n` are the same. */
  lemma CongruentRange(n: nat, x: int, m: int, i: int)
    requires m > 0 && -m <= 2 * x < m && (x - n) % m == 0
    requires -m <= 2 * i < m
    ensures (i - n) % m == 0 <==> i == x
  {
    if (i - n) % m == 0 {
      var p, q := (i - n) / m, (x - n) / m;
      assert i - x == m * (p - q);
      MultipleFar(m, p - q);
    }
  }

  lemma SignedCongruent(n: nat, w: nat)
    requires w == 4 || w == 8
    ensures (Signed(n, w) - n) % Range(w) == 0 && FitsSigned(Signed(n, w), w)
  {
    var m := Range(w);
    var q := n / m;
    if Signed(n, w) == n % m {
      assert Signed(n, w) - n == m * -q;
    } else {
      assert Signed(n, w) - n == m * (-q - 1);
    }
  }

  /** A signed field takes the one value of its width that is congruent to the varint, and rejects the varint if there is none. */
  lemma SignedNarrowing(w: nat, n: nat, i: int)
    requires IsWidth(w) && n < U64
    ensures CastSigned(n, w) == Some(i) <==> FitsSigned(i, w) && (i - n) % Modulus(w) == 0
  {
    var v := if w == 8 then 8 else 4;
    var x := Signed(n, v);
    SignedCongruent(n, v);
    SignedFits(x, w);
    if FitsSigned(i, w) {
      CongruentRange(n, x, Modulus(w), i);
    }
  }

  /** Which varints, in any spelling, an integer field accepts, and as what: the others are "integer too large". */
  lemma IntRead(f: Field, s: Bytes, n: nat, t: Bytes, i: int)
    requires f.ltype in {LVarint, LUVarint, LSVarint} && IsWidth(f.dataSize) && DecodeVarint(s) == Ok(n, t)
    ensures DecodeScalar(f, s) == Ok(IntV(i), t) <==>
              if f.ltype.LVarint? then FitsSigned(i, f.dataSize) && (i - n) % Modulus(f.dataSize) == 0
              else if f.ltype.LUVarint? then FitsUnsigned(i, f.dataSize) && i == n
              else FitsSigned(i, f.dataSize) && ZigZag(i) == n
    ensures var p := DecodeScalar(f, s); p.Ok? ==> p.value.IntV? && p.rest == t
  {
    hide DecodeVarint, CastSigned, ZigZag, UnZigZag, Signed;
    match f.ltype
    case LVarint => SignedNarrowing(f.dataSize, n, i);
    case LUVarint => UnsignedFits(n, f.dataSize);
    case LSVarint =>
      ZigZagBijection(0, n);
      SignedFits(UnZigZag(n), f.dataSize);
      if FitsSigned(i, f.dataSize) { ZigZagBijection(i, n); }
  }

  lemma UnsignedFits(n: nat, w: nat)
    requires IsWidth(w)
    ensures Unsigned(n, w) == n <==> FitsUnsigned(n, w)
  {
  }

  lemma LittleEndianRead(i: nat, n: nat, t: Bytes)
    requires i < Shl(1, 8 * n)
    ensures ReadBytes(LittleEndian(i, n) + t, n) == Ok(LittleEndian(i, n), t)
    ensures FromLittleEndian(LittleEndian(i, n)) == i
  {
    hide LittleEndian, FromLittleEndian;
    LittleEndianRoundTrip(i, n);
    var s := LittleEndian(i, n);
    assert (s + t)[..n] == s && (s + t)[n..] == t;
  }

  lemma FixedRoundTrip(f: Field, i: int, s: Bytes, t: Bytes)
    requires f.ltype in {LFixed32, LFixed64}
    requires ScalarTyped(f, IntV(i)) && EncodeScalar(f, IntV(i)) == Some(s)
    ensures DecodeScalar(f, s + t) == Ok(IntV(i), t)
  {
    hide LittleEndian, FromLittleEndian, ReadBytes, Shl;
    Pow2Values();
    if f.ltype.LFixed32? {
      LittleEndianRead(i, 4, t);
    } else {
      LittleEndianRead(i, 8, t);
    }
  }

  lemma BytesRoundTrip(f: Field, b: Bytes, s: Bytes, t: Bytes)
    requires FieldOk(f) && f.ltype in {LBytes, LString, LFixedLengthBytes}
    requires ScalarTyped(f, BytesV(b)) && EncodeScalar(f, BytesV(b)) == Some(s)
    ensures DecodeScalar(f, s + t) == if ScalarKept(f, BytesV(b)) then Ok(BytesV(b), t) else Fail
  {
    hide EncodeVarint, DecodeVarint32, CString;
    assert |b| <= f.dataSize < U32;
    Varint32RoundTrip(|b|, b + t);
    assert Delimited(b) + t == EncodeVarint(|b|) + (b + t);
    assert (b + t)[..|b|] == b && (b + t)[|b|..] == t;
    if f.ltype.LString? {
      CStringOfString(b);
    } else if f.ltype.LFixedLengthBytes? && |b| == 0 {
      assert b == Zeros(0);
    }
  }

  /** Every scalar comes back, except a string that fills its buffer: the decoder wants room for the NUL. */
  lemma ScalarRoundTrip(f: Field, v: Value, s: Bytes, t: Bytes)
    requires FieldOk(f) && ScalarTyped(f, v) && EncodeScalar(f, v) == Some(s)
    ensures DecodeScalar(f, s + t) == if ScalarKept(f, v) then Ok(v, t) else Fail
  {
    match f.ltype
    case LBool =>
      hide EncodeVarint, DecodeVarint32;
      Varint32RoundTrip(if v.b then 1 else 0, t);
    case LVarint => IntRoundTrip(f, v.i, s, t);
    case LUVarint => IntRoundTrip(f, v.i, s, t);
    case LSVarint => IntRoundTrip(f, v.i, s, t);
    case LFixed32 => FixedRoundTrip(f, v.i, s, t);
    case LFixed64 => FixedRoundTrip(f, v.i, s, t);
    case LSubmessage =>
    case LExtension =>
    case _ => BytesRoundTrip(f, v.bytes, s, t);
  }

  /** A string that fills its buffer is written, and never taken back. */
  lemma UnterminatedString(f: Field, b: Bytes, t: Bytes)
    requires FieldOk(f) && f.ltype.LString? && |b| == f.dataSize && 0 !in b
    ensures EncodeScalar(f, BytesV(b)) == Some(Delimited(b))
    ensures DecodeScalar(f, Delimited(b) + t).Fail?
  {
    BytesRoundTrip(f, b, Delimited(b), t);
  }

  /** A scalar takes at least one byte, so a packed array of them ends exactly at its length. */
  lemma ScalarNotEmpty(f: Field, v: Value)
    requires f.Packable() && EncodeScalar(f, v).Some?
    ensures |EncodeScalar(f, v).value| >= 1
  {
  }
}
