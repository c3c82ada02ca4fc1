/**
 Base 128 varints: what `pb_encode_varint` writes, and what `pb_decode_varint`,
 `pb_decode_varint32_eof` and `pb_skip_varint` read.
 */
module Varint {
  import opened Bits

  /** A successful parse leaves the unread `rest` of its input. */
  datatype Parsed<+T> = Fail | Ok(value: T, rest: seq<Byte>)

  /** The bytes `pb_encode_varint` writes for `v`. */
  function EncodeVarint(v: nat): (s: seq<Byte>)
    ensures |s| >= 1
  {
    if v < 128 then [v] else [v % 128 + 128] + EncodeVarint(v / 128)
  }

  /** The number spelled by the low seven bits of each byte, least significant group first. */
  function Groups(s: seq<Byte>): nat
  {
    if s == [] then 0 else s[0] % 128 + 128 * Groups(s[1..])
  }

  /** One varint: any number of bytes with the continuation bit, then one without it. */
  predicate IsVarint(s: seq<Byte>)
  {
    |s| > 0 && if s[0] < 128 then |s| == 1 else IsVarint(s[1..])
  }

  /** Splits off the varint at the front, whatever its length. */
  function SplitVarint(s: seq<Byte>): (p: Parsed<seq<Byte>>)
    ensures p.Ok? ==> IsVarint(p.value) && s == p.value + p.rest
  {
    if s == [] then Fail
    else if s[0] < 128 then Ok([s[0]], s[1..])
    else
      match SplitVarint(s[1..])
      case Fail => Fail
      case Ok(g, r) => Ok([s[0]] + g, r)
  }

  /** `pb_decode_varint`: at most ten bytes, the value taken modulo 2^64. */
  function DecodeVarint(s: seq<Byte>): (p: Parsed<nat>)
    ensures p.Ok? ==> p.value < U64 && |p.rest| < |s|
  {
    match SplitVarint(s)
    case Fail => Fail
    case Ok(g, r) => if |g| > 10 then Fail else Ok(Groups(g) % U64, r)
  }

  /** Where byte `i` of a varint lands in `pb_decode_varint32_eof`: `bitpos` is an 8-bit counter. */
  function BitPos(i: nat): nat
  {
    7 * i % 256
  }

  /** `result` in `pb_decode_varint32_eof` after the bytes `g`. */
  function Acc32(g: seq<Byte>): nat
  {
    if g == [] then 0
    else
      var i := |g| - 1;
      if BitPos(i) >= 32 then Acc32(g[..i])
      else Or(Acc32(g[..i]), Shl(g[i] % 128, BitPos(i)) % U32)
  }

  /** From bit 32 on, byte `i` must carry no bits, or only extend the sign of a negative int32. */
  predicate Step32Ok(g: seq<Byte>, i: nat)
    requires i < |g|
  {
    BitPos(i) < 32 || g[i] % 128 == 0 ||
    (Acc32(g[..i]) / 0x8000_0000 != 0 && g[i] == if BitPos(i) < 63 then 0xFF else 0x01)
  }

  /** `pb_decode_varint32_eof` raises no "varint overflow" on the varint `g`. */
  predicate Accepts32(g: seq<Byte>)
    requires |g| > 0
  {
    && (forall i | 0 <= i < |g| :: Step32Ok(g, i))
    && (BitPos(|g|) == 35 ==> g[|g| - 1] / 16 % 8 == 0)
  }

  /** `pb_decode_varint32`. */
  function DecodeVarint32(s: seq<Byte>): (p: Parsed<nat>)
    ensures p.Ok? ==> |p.rest| < |s|
  {
    match SplitVarint(s)
    case Fail => Fail
    case Ok(g, r) => if Accepts32(g) then Ok(Acc32(g), r) else Fail
  }

  // ---------- splitting ----------

  lemma {:induction false} SplitOfVarint(g: seq<Byte>, t: seq<Byte>)
    requires IsVarint(g)
    ensures SplitVarint(g + t) == Ok(g, t)
  {
    if g[0] < 128 {
      assert g == [g[0]];
    } else {
      assert (g + t)[1..] == g[1..] + t;
      SplitOfVarint(g[1..], t);
      assert g == [g[0]] + g[1..];
    }
  }

  /** Bytes after the varint never matter. */
  lemma SplitExtends(s: seq<Byte>, t: seq<Byte>)
    requires SplitVarint(s).Ok?
    ensures SplitVarint(s + t) == Ok(SplitVarint(s).value, SplitVarint(s).rest + t)
  {
    hide SplitVarint, IsVarint;
    var Ok(g, r) := SplitVarint(s);
    SplitOfVarint(g, r + t);
    assert s + t == g + (r + t);
  }

  lemma DecodeVarintExtends(s: seq<Byte>, t: seq<Byte>)
    requires DecodeVarint(s).Ok?
    ensures DecodeVarint(s + t) == Ok(DecodeVarint(s).value, DecodeVarint(s).rest + t)
  {
    SplitExtends(s, t);
  }

  lemma DecodeVarint32Extends(s: seq<Byte>, t: seq<Byte>)
    requires DecodeVarint32(s).Ok?
    ensures DecodeVarint32(s + t) == Ok(DecodeVarint32(s).value, DecodeVarint32(s).rest + t)
  {
    SplitExtends(s, t);
  }

  // ---------- the encoder writes the shortest spelling ----------

  /** What is written is one varint that spells `v`. */
  lemma {:induction false} EncodeIsVarint(v: nat)
    ensures IsVarint(EncodeVarint(v)) && Groups(EncodeVarint(v)) == v
  {
    if v >= 128 {
      EncodeIsVarint(v / 128);
      assert EncodeVarint(v)[1..] == EncodeVarint(v / 128);
    } else {
      assert EncodeVarint(v)[1..] == [];
    }
  }

  lemma {:induction false} GroupsBound(s: seq<Byte>)
    ensures Groups(s) < Pow2(7 * |s|)
  {
    if s != [] {
      GroupsBound(s[1..]);
      Shl7(1, 7 * |s[1..]|);
    }
  }

  /** A value below 2^(7n) takes at most n bytes. */
  lemma {:induction false} EncodeLength(v: nat, n: nat)
    requires n >= 1 && v < Pow2(7 * n)
    ensures |EncodeVarint(v)| <= n
  {
    Shl7(1, 7 * (n - 1));
    if v >= 128 {
      assert n >= 2;
      EncodeLength(v / 128, n - 1);
    }
  }

  /** No uint64 overruns the ten-byte buffer of `pb_encode_varint`. */
  lemma EncodeLength64(v: nat)
    requires v < U64
    ensures |EncodeVarint(v)| <= 10
  {
    assert U64 < Pow2(70) by {
      Pow2Values();
      ShlMonotonic(1, 65, 70);
    }
    EncodeLength(v, 10);
  }

  lemma EncodeLength63(v: nat)
    requires v < U63
    ensures |EncodeVarint(v)| <= 9
  {
    Pow2Values();
    EncodeLength(v, 9);
  }

  /** No varint that spells `v` is shorter than the one written. */
  lemma EncodeIsMinimal(v: nat, g: seq<Byte>)
    requires IsVarint(g) && Groups(g) == v
    ensures |EncodeVarint(v)| <= |g|
  {
    GroupsBound(g);
    EncodeLength(v, |g|);
  }

  // ---------- 64-bit round trip ----------

  lemma VarintRoundTrip(v: nat, t: seq<Byte>)
    requires v < U64
    ensures DecodeVarint(EncodeVarint(v) + t) == Ok(v, t)
  {
    EncodeIsVarint(v);
    EncodeLength64(v);
    SplitOfVarint(EncodeVarint(v), t);
  }

  // ---------- the 32-bit decoder ----------

  lemma {:induction false} GroupsAppend(s: seq<Byte>, b: Byte)
    ensures Groups(s + [b]) == Groups(s) + Shl(b % 128, 7 * |s|)
  {
    if s == [] {
      assert [b][1..] == [];
      assert s + [b] == [b];
    } else {
      assert (s + [b])[1..] == s[1..] + [b];
      GroupsAppend(s[1..], b);
      Shl7(b % 128, 7 * |s[1..]|);
    }
  }

  lemma HighGroup(a: nat, c: nat, p: nat)
    requires p >= 32
    ensures (a + Shl(c, p)) % U32 == a % U32
  {
    hide Shl;
    var k := Shl(c, p - 32);
    ShlAdd(c, 32, p - 32);
    Shl32(k);
    ModUnique(a + Shl(c, p), U32, a / U32 + k, a % U32);
  }

  lemma LowGroup(r: nat, c: nat, p: nat)
    requires r < Pow2(p) && p <= 32
    ensures Or(r, Shl(c, p) % U32) == (r + Shl(c, p)) % U32
  {
    assert Pow2(32) == U32 by { Pow2Values(); }
    ShiftOr(r, c, p, 32);
  }

  /** Four groups or fewer fit the 32-bit accumulator. */
  lemma GroupsBelowU32(g: seq<Byte>)
    requires |g| <= 4
    ensures Groups(g) < U32
  {
    GroupsBound(g);
    ShlMonotonic(1, 7 * |g|, 32);
    Pow2Values();
  }

  lemma AccumulateLow(pre: seq<Byte>, b: Byte, p: nat)
    requires p == 7 * |pre| < 32
    ensures Or(Groups(pre), Shl(b % 128, p) % U32) == Groups(pre + [b]) % U32
  {
    GroupsAppend(pre, b);
    GroupsBound(pre);
    LowGroup(Groups(pre), b % 128, p);
  }

  lemma AccumulateHigh(pre: seq<Byte>, b: Byte, p: nat)
    requires p == 7 * |pre| >= 32
    ensures Groups(pre) % U32 == Groups(pre + [b]) % U32
  {
    GroupsAppend(pre, b);
    HighGroup(Groups(pre), b % 128, p);
  }

  lemma Acc32Append(g: seq<Byte>, b: Byte)
    ensures Acc32(g + [b])
         == if BitPos(|g|) >= 32 then Acc32(g) else Or(Acc32(g), Shl(b % 128, BitPos(|g|)) % U32)
  {
    hide Or, Shl;
    assert (g + [b])[..|g|] == g;
  }

  lemma BitPosUnwrapped(i: nat, p: nat)
    requires p == 7 * i < 256
    ensures BitPos(i) == p
  {
  }

  lemma Acc32Step(pre: seq<Byte>, b: Byte, p: nat)
    requires p == 7 * |pre| < 256 && Acc32(pre) == Groups(pre) % U32
    ensures Acc32(pre + [b]) == Groups(pre + [b]) % U32
  {
    hide Acc32, Groups, Or, Shl, BitPos;
    Acc32Append(pre, b);
    BitPosUnwrapped(|pre|, p);
    if p >= 32 {
      AccumulateHigh(pre, b, p);
    } else {
      GroupsBelowU32(pre);
      AccumulateLow(pre, b, p);
    }
  }

  /** The accumulator holds the groups read so far modulo 2^32, as long as `bitpos` has not wrapped. */
  lemma {:induction false} Acc32IsMod(g: seq<Byte>)
    requires |g| <= 37
    ensures Acc32(g) == Groups(g) % U32
  {
    if g != [] {
      hide Acc32, Groups;
      var i := |g| - 1;
      assert g == g[..i] + [g[i]];
      Acc32IsMod(g[..i]);
      Acc32Step(g[..i], g[i], 7 * i);
    }
  }

  lemma Mod64Mod32(x: nat)
    ensures x % U64 % U32 == x % U32
  {
    var q, r := x / U64, x % U64;
    assert x == (q * U32) * U32 + r;
  }

  /** Both decoders read the same number, modulo 2^32, from any bytes both accept. */
  lemma DecodersAgree(s: seq<Byte>)
    requires DecodeVarint(s).Ok? && DecodeVarint32(s).Ok?
    ensures DecodeVarint32(s).value == DecodeVarint(s).value % U32
    ensures DecodeVarint32(s).rest == DecodeVarint(s).rest
  {
    var g := SplitVarint(s).value;
    Acc32IsMod(g);
    Mod64Mod32(Groups(g));
  }

  /** The last group of a canonical encoding of two bytes or more is not zero. */
  lemma {:induction false} LastGroup(v: nat)
    requires v >= 128
    ensures var g := EncodeVarint(v); |g| >= 2 && 0 < g[|g| - 1] < 128
  {
    if v / 128 >= 128 { LastGroup(v / 128); }
  }

  lemma Shl28(x: nat)
    ensures Shl(x, 28) == 0x1000_0000 * x
  {
    Shl32(x);
    assert Shl(x, 30) == 4 * Shl(x, 28);
    assert Shl(x, 32) == 4 * Shl(x, 30);
  }

  /** Five groups are a uint32 exactly when the last one has four bits. */
  lemma FiveGroups(g: seq<Byte>)
    requires |g| == 5 && g[4] < 128
    ensures Groups(g) < U32 <==> g[4] < 16
  {
    assert g == g[..4] + [g[4]];
    GroupsAppend(g[..4], g[4]);
    GroupsBound(g[..4]);
    Shl28(g[4]);
    Shl28(1);
  }

  lemma SixGroups(g: seq<Byte>)
    requires |g| >= 6 && 0 < g[|g| - 1] < 128
    ensures Groups(g) >= U32
  {
    var i := |g| - 1;
    assert g == g[..i] + [g[i]];
    GroupsAppend(g[..i], g[i]);
    ShlMonotonic(g[i], 32, 7 * i);
    Shl32(g[i]);
  }

  /** The last byte of a canonical encoding of six to nine bytes is an overflow. */
  lemma LongRejected(g: seq<Byte>)
    requires 6 <= |g| <= 9 && 0 < g[|g| - 1] < 128
    ensures !Accepts32(g)
  {
    hide Acc32;
    assert !Step32Ok(g, |g| - 1);
  }

  lemma ShortAccepted(g: seq<Byte>)
    requires 1 <= |g| <= 5
    ensures Accepts32(g) <==> (|g| == 5 ==> g[4] / 16 % 8 == 0)
  {
    hide Acc32;
    forall i | 0 <= i < |g| ensures Step32Ok(g, i) {
      assert BitPos(i) < 32;
    }
  }

  /** A canonical encoding of at most nine bytes is accepted exactly below 2^32. */
  lemma CanonicalAccepted(v: nat)
    requires |EncodeVarint(v)| <= 9
    ensures Accepts32(EncodeVarint(v)) <==> v < U32
  {
    hide Accepts32, Acc32;
    var g := EncodeVarint(v);
    EncodeIsVarint(v);
    if |g| <= 4 {
      GroupsBelowU32(g);
      ShortAccepted(g);
    } else {
      LastGroup(v);
      if |g| == 5 {
        FiveGroups(g);
        ShortAccepted(g);
      } else {
        SixGroups(g);
        LongRejected(g);
      }
    }
  }

  /** On canonical encodings below 2^63 the 32-bit decoder succeeds exactly below 2^32. */
  lemma Varint32RoundTrip(v: nat, t: seq<Byte>)
    requires v < U63
    ensures DecodeVarint32(EncodeVarint(v) + t) == if v < U32 then Ok(v, t) else Fail
  {
    hide Acc32, Accepts32;
    var g := EncodeVarint(v);
    EncodeIsVarint(v);
    SplitOfVarint(g, t);
    EncodeLength63(v);
    CanonicalAccepted(v);
    Acc32IsMod(g);
  }

  // ---------- numbers of 64 bits in the 32-bit decoder ----------

  lemma FiveMore(v: nat)
    requires v >= 0x10_0000_0000
    ensures EncodeVarint(v)
         == [v % 128 + 128, v / 128 % 128 + 128, v / 128 / 128 % 128 + 128, v / 128 / 128 / 128 % 128 + 128,
             v / 128 / 128 / 128 / 128 % 128 + 128] + EncodeVarint(v / 128 / 128 / 128 / 128 / 128)
  {
    hide EncodeVarint;
    OneMore(v);
    OneMore(v / 128);
    OneMore(v / 128 / 128);
    OneMore(v / 128 / 128 / 128);
    OneMore(v / 128 / 128 / 128 / 128);
  }

  lemma OneMore(v: nat)
    requires v >= 128
    ensures EncodeVarint(v) == [v % 128 + 128] + EncodeVarint(v / 128)
  {
  }

  /** The bytes of a number of 64 bits from the sixth on. */
  lemma HighBytes(v: nat, w: nat)
    requires U63 <= v < U64 && w == v / 128 / 128 / 128 / 128 / 128
    ensures var g := EncodeVarint(v);
            && |g| == 10 && g[9] == 0x01 && g[5] == w % 128 + 128 && g[6] == w / 128 % 128 + 128
            && g[7] == w / 128 / 128 % 128 + 128 && g[8] == w / 128 / 128 / 128 % 128 + 128
  {
    hide EncodeVarint;
    FiveMore(v);
    OneMore(w);
    OneMore(w / 128);
    OneMore(w / 128 / 128);
    OneMore(w / 128 / 128 / 128);
    LastOne(w / 128 / 128 / 128 / 128);
  }

  lemma LastOne(v: nat)
    requires v < 128
    ensures EncodeVarint(v) == [v]
  {
  }

  lemma LowMod(x: nat, y: nat)
    ensures (x + 0x8_0000_0000 * y) % U32 == x % U32
  {
    ModUnique(x + 0x8_0000_0000 * y, U32, x / U32 + 8 * y, x % U32);
  }

  lemma LowHalf(v: nat)
    requires U63 <= v < U64
    ensures |EncodeVarint(v)| >= 5 && Acc32(EncodeVarint(v)[..5]) == v % U32
  {
    hide Acc32, EncodeVarint, Groups;
    var g := EncodeVarint(v);
    HighBytes(v, v / 128 / 128 / 128 / 128 / 128);
    EncodeIsVarint(v);
    FiveGroupsSplit(g);
    LowMod(Groups(g[..5]), Groups(g[5..]));
    Acc32IsMod(g[..5]);
  }

  lemma FiveGroupsSplit(g: seq<Byte>)
    requires |g| >= 5
    ensures Groups(g) == Groups(g[..5]) + 0x8_0000_0000 * Groups(g[5..])
  {
    var a, b, c, d := g[1..], g[2..], g[3..], g[4..];
    assert a[1..] == b && b[1..] == c && c[1..] == d && d[1..] == g[5..];
    var h := g[..5];
    assert h[1..] == g[1..5] && h[1..][1..] == g[2..5] && h[1..][1..][1..] == g[3..5];
    assert h[1..][1..][1..][1..] == [g[4]] && [g[4]][1..] == [];
  }

  /** Bytes from the sixth on do not change the accumulator. */
  lemma {:induction false} SignKept(g: seq<Byte>, i: nat)
    requires |g| == 10 && 5 <= i <= 10
    ensures Acc32(g[..i]) == Acc32(g[..5])
  {
    if i > 5 {
      SignKept(g, i - 1);
      assert g[..i][..i - 1] == g[..i - 1];
    }
  }

  /** A group of seven bits of a sign extension, or of none. */
  predicate SignGroup(c: nat)
  {
    c == 0 || c == 127
  }

  lemma HighAccepted(g: seq<Byte>)
    requires |g| == 10 && g[9] == 0x01 && forall i | 5 <= i < 9 :: g[i] >= 128
    ensures Accepts32(g) <==> Acc32(g[..5]) / 0x8000_0000 != 0 && forall i | 5 <= i < 9 :: SignGroup(g[i] - 128)
  {
    hide Acc32;
    forall i | 5 <= i < 10 ensures Acc32(g[..i]) == Acc32(g[..5]) { SignKept(g, i); }
    if Accepts32(g) {
      assert Step32Ok(g, 9);
      forall i | 5 <= i < 9 ensures SignGroup(g[i] - 128) { assert Step32Ok(g, i); }
    }
  }

  /**
   From 2^63 on the 32-bit decoder accepts a canonical encoding exactly when bit 31 is set and the
   four groups of bits 35 to 62 are each all ones or all zeros, and then reads the low 32 bits.
   */
  lemma Varint32High(v: nat, t: seq<Byte>)
    requires U63 <= v < U64
    ensures var w := v / 0x8_0000_0000;
            DecodeVarint32(EncodeVarint(v) + t)
            == if v % U32 >= 0x8000_0000 && SignGroup(w % 128) && SignGroup(w / 128 % 128)
                  && SignGroup(w / 128 / 128 % 128) && SignGroup(w / 128 / 128 / 128 % 128)
               then Ok(v % U32, t) else Fail
  {
    hide Acc32, Accepts32, EncodeVarint;
    var g, w := EncodeVarint(v), v / 0x8_0000_0000;
    HighBytes(v, w);
    LowHalf(v);
    EncodeIsVarint(v);
    SplitOfVarint(g, t);
    HighAccepted(g);
    SignKept(g, 10);
    assert g[..10] == g;
    assert (forall i | 5 <= i < 9 :: SignGroup(g[i] - 128)) <==>
           SignGroup(g[5] - 128) && SignGroup(g[6] - 128) && SignGroup(g[7] - 128) && SignGroup(g[8] - 128);
  }

  /** The ten bytes of a negative int32 are read as its low 32 bits. */
  lemma NegativeInt32(n: nat, t: seq<Byte>)
    requires 1 <= n <= 0x8000_0000
    ensures DecodeVarint32(EncodeVarint(U64 - n) + t) == Ok(U32 - n, t)
  {
    hide EncodeVarint, DecodeVarint32;
    Varint32High(U64 - n, t);
    assert (U64 - n) / 0x8_0000_0000 == 0x1FFF_FFFF;
    assert (U64 - n) % U32 == U32 - n;
  }

  // ---------- the counter of the 32-bit decoder wraps ----------

  /** All bits of `x` are bits of `y`. */
  predicate Within(x: nat, y: nat)
  {
    forall k: nat | k < 32 :: Bit(x, k) ==> Bit(y, k)
  }

  lemma WithinOr(x: nat, a: nat, y: nat)
    requires x < U32 && a < U32 && y < U32 && Within(x, a)
    ensures Within(x, Or(a, y)) && Or(a, y) < U32
    ensures Or(a, y) == x <==> a == x && Or(x, y) == x
  {
    hide Or, Bit, Shl;
    assert Pow2(32) == U32 by { Pow2Values(); }
    OrBound(a, y, 32);
    forall k: nat | k < 32 ensures Bit(Or(a, y), k) <==> Bit(a, k) || Bit(y, k) { BitOr(a, y, k); }
    if Or(a, y) == x {
      forall k: nat | k < 32 ensures Bit(a, k) == Bit(x, k) {
        assert Bit(Or(a, y), k) <==> Bit(a, k) || Bit(y, k);
      }
      SameBits(a, x, 32);
    }
  }

  lemma {:induction false} GroupsModHigh(g: seq<Byte>)
    requires |g| >= 37
    ensures Groups(g) % U32 == Groups(g[..37]) % U32
  {
    hide Groups;
    if |g| == 37 {
      assert g[..37] == g;
    } else {
      var i := |g| - 1;
      assert g == g[..i] + [g[i]] && g[..i][..37] == g[..37];
      GroupsModHigh(g[..i]);
      AccumulateHigh(g[..i], g[i], 7 * i);
    }
  }

  /** Byte `i` adds no bit to those of the first 37 bytes. */
  predicate AddsNothing(g: seq<Byte>, i: nat)
    requires 37 <= i < |g|
  {
    BitPos(i) < 32 ==> Or(Acc32(g[..37]), Shl(g[i] % 128, BitPos(i)) % U32) == Acc32(g[..37])
  }

  lemma {:induction false} AccAfter37(g: seq<Byte>, n: nat)
    requires 37 <= n <= |g|
    ensures Acc32(g[..n]) < U32 && Within(Acc32(g[..37]), Acc32(g[..n]))
    ensures Acc32(g[..n]) == Acc32(g[..37]) <==> forall i | 37 <= i < n :: AddsNothing(g, i)
    decreases n
  {
    hide Acc32, Or, Shl, Within, BitPos;
    Acc32IsMod(g[..37]);
    if n == 37 {
      WithinSelf(Acc32(g[..37]));
    } else {
      var i := n - 1;
      AccAfter37(g, i);
      assert g[..n] == g[..i] + [g[i]];
      Acc32Append(g[..i], g[i]);
      WithinOr(Acc32(g[..37]), Acc32(g[..i]), Shl(g[i] % 128, BitPos(i)) % U32);
      if Acc32(g[..n]) == Acc32(g[..37]) {
        assert Acc32(g[..i]) == Acc32(g[..37]) && AddsNothing(g, i);
      } else {
        assert Acc32(g[..i]) == Acc32(g[..37]) ==> !AddsNothing(g, i);
      }
    }
  }

  lemma WithinSelf(x: nat)
    ensures Within(x, x)
  {
  }

  /** Past 37 bytes the accumulator is the number spelled, modulo 2^32, exactly when no wrapped byte adds a bit. */
  lemma Acc32Exact(g: seq<Byte>)
    ensures Acc32(g) == Groups(g) % U32 <==> forall i | 37 <= i < |g| :: AddsNothing(g, i)
  {
    hide Acc32, Groups, AddsNothing;
    if |g| <= 37 {
      Acc32IsMod(g);
    } else {
      AccAfter37(g, |g|);
      assert g[..|g|] == g;
      GroupsModHigh(g);
      Acc32IsMod(g[..37]);
    }
  }

  /** A varint of `n` bytes: zeros, except for the lowest bit of the 38th. */
  function Wrapping(n: nat): (g: seq<Byte>)
    requires n >= 38
    ensures |g| == n
  {
    seq(n, i requires 0 <= i < n => (if i == 37 then 1 else 0) + if i == n - 1 then 0 else 0x80)
  }

  /** So 37 is the limit: from 38 bytes on, varints of every length are accepted as a number they do not spell. */
  lemma BitposWraps(n: nat)
    requires n >= 38
    ensures IsVarint(Wrapping(n)) && Accepts32(Wrapping(n)) && Acc32(Wrapping(n)) != Groups(Wrapping(n)) % U32
  {
    hide Acc32, Or, Shl, Groups;
    var g := Wrapping(n);
    AllContinue(g);
    var pre := g[..37];
    ZeroGroups(pre);
    Acc32IsMod(pre);
    assert BitPos(37) == 3;
    OneAtBit3(g[37]);
    assert !AddsNothing(g, 37);
    Acc32Exact(g);
    forall i | 0 <= i < |g| ensures Step32Ok(g, i) {}
  }

  lemma OneAtBit3(b: Byte)
    requires b % 128 == 1
    ensures Or(0, Shl(b % 128, 3) % U32) == 8
  {
    hide Or;
    OrZero(8);
  }

  lemma {:induction false} ZeroGroups(g: seq<Byte>)
    requires forall i | 0 <= i < |g| :: g[i] % 128 == 0
    ensures Groups(g) == 0
  {
    if g != [] { ZeroGroups(g[1..]); }
  }

  lemma {:induction false} AllContinue(g: seq<Byte>)
    requires |g| > 0 && g[|g| - 1] < 128 && forall i | 0 <= i < |g| - 1 :: g[i] >= 128
    ensures IsVarint(g)
  {
    if |g| > 1 { AllContinue(g[1..]); }
  }
}
