/** Fixed-width integers: C's casts, the zigzag mapping and little-endian bytes. */
module Scalars {
  import opened Bits

  predicate IsWidth(w: nat)
  {
    w == 1 || w == 2 || w == 4 || w == 8
  }

  /** The number of values of a `w`-byte integer. */
  function Range(w: nat): (m: nat)
    requires IsWidth(w)
    ensures m > 0 && m % 2 == 0
  {
    if w == 1 then 0x100 else if w == 2 then 0x1_0000 else if w == 4 then U32 else U64
  }

  predicate FitsSigned(i: int, w: nat)
    requires IsWidth(w)
  {
    -(Range(w) / 2) <= i < Range(w) / 2
  }

  predicate FitsUnsigned(i: int, w: nat)
    requires IsWidth(w)
  {
    0 <= i < Range(w)
  }

  /** The cast `(uintN_t)x` to `w` bytes. */
  function Unsigned(x: int, w: nat): nat
    requires IsWidth(w)
  {
    x % Range(w)
  }

  /** The cast `(intN_t)x` to `w` bytes, in two's complement. */
  function Signed(x: int, w: nat): int
    requires IsWidth(w)
  {
    if Unsigned(x, w) >= Range(w) / 2 then Unsigned(x, w) - Range(w) else Unsigned(x, w)
  }

  /** A cast changes nothing exactly when the value fits. */
  lemma SignedFits(x: int, w: nat)
    requires IsWidth(w)
    ensures FitsSigned(Signed(x, w), w)
    ensures Signed(x, w) == x <==> FitsSigned(x, w)
  {
    var m := Range(w);
    if FitsSigned(x, w) {
      if x >= 0 { ModUnique(x, m, 0, x); } else { NegativeMod(x, m); }
    }
  }

  lemma NegativeMod(x: int, m: int)
    requires 0 < m && -m <= x < 0
    ensures x % m == x + m
  {
  }

  /** `pb_encode_svarint`: `~((uint64_t)value << 1)` for negative values, `(uint64_t)value << 1` for the others. */
  function ZigZag(v: int): nat
  {
    var shifted := Unsigned(2 * Unsigned(v, 8), 8);
    if v < 0 then U64 - 1 - shifted else shifted
  }

  /** `pb_decode_svarint`: `~(value >> 1)` for odd values, `value >> 1` for even ones. */
  function UnZigZag(n: nat): int
    requires n < U64
  {
    Signed(if n % 2 == 1 then U64 - 1 - n / 2 else n / 2, 8)
  }

  /** Zigzag orders the int64 values by magnitude: 0, -1, 1, -2, 2, ... */
  lemma ZigZagOrder(v: int)
    requires FitsSigned(v, 8)
    ensures ZigZag(v) == if v < 0 then -2 * v - 1 else 2 * v
  {
    if v < 0 {
      assert Unsigned(v, 8) == v + U64;
      assert (2 * (v + U64)) % U64 == 2 * v + U64;
    }
  }

  lemma UnZigZagOrder(n: nat)
    requires n < U64
    ensures UnZigZag(n) == if n % 2 == 1 then -(n / 2) - 1 else n / 2
  {
  }

  /** Zigzag is a bijection between int64 and uint64. */
  lemma ZigZagBijection(v: int, n: nat)
    requires FitsSigned(v, 8) && n < U64
    ensures ZigZag(v) < U64 && UnZigZag(ZigZag(v)) == v
    ensures FitsSigned(UnZigZag(n), 8) && ZigZag(UnZigZag(n)) == n
  {
    hide ZigZag, UnZigZag, Signed;
    ZigZagOrder(v);
    UnZigZagOrder(ZigZag(v));
    UnZigZagOrder(n);
    ZigZagOrder(UnZigZag(n));
  }

  /** The low `n` bytes of `x`, least significant first. */
  function LittleEndian(x: nat, n: nat): (s: seq<Byte>)
    ensures |s| == n
  {
    if n == 0 then [] else [x % 256] + LittleEndian(x / 256, n - 1)
  }

  function FromLittleEndian(s: seq<Byte>): nat
  {
    if s == [] then 0 else s[0] + 256 * FromLittleEndian(s[1..])
  }

  lemma {:induction false} LittleEndianRoundTrip(x: nat, n: nat)
    requires x < Shl(1, 8 * n)
    ensures FromLittleEndian(LittleEndian(x, n)) == x
  {
    if n > 0 {
      ShlAdd(1, 8 * (n - 1), 8);
      ShlAdd(1, 8, 8 * (n - 1));
      Shl8(Shl(1, 8 * (n - 1)));
      LittleEndianRoundTrip(x / 256, n - 1);
      assert LittleEndian(x, n)[1..] == LittleEndian(x / 256, n - 1);
    }
  }

  lemma {:induction false} FromLittleEndianBound(s: seq<Byte>)
    ensures FromLittleEndian(s) < Shl(1, 8 * |s|)
  {
    if s != [] {
      FromLittleEndianBound(s[1..]);
      ShlAdd(1, 8, 8 * |s[1..]|);
      Shl8(Shl(1, 8 * |s[1..]|));
    }
  }
}
