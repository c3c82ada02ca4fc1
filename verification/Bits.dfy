/**
 Bytes, and C's bit operations on unsigned integers, over `nat`.
 `x & 0x7F` is `x % 128`, `x >> 7` is `x / 128`, `x << n` is `Shl` and `|` is `Or`.
 */
module Bits {

  type Byte = b: nat | b < 256

  const U32: nat := 0x1_0000_0000
  const U63: nat := 0x8000_0000_0000_0000
  const U64: nat := 0x1_0000_0000_0000_0000

  /** `x << n`, by doubling, so that it stays linear arithmetic. */
  function Shl(x: nat, n: nat): (y: nat)
    ensures y >= x
  {
    if n == 0 then x else 2 * Shl(x, n - 1)
  }

  function Pow2(n: nat): (p: nat)
    ensures p > 0
  {
    Shl(1, n)
  }

  /** Whether bit `k` of `x` is set. */
  predicate Bit(x: nat, k: nat)
  {
    if k == 0 then x % 2 == 1 else Bit(x / 2, k - 1)
  }

  /** Bitwise `x | y`. */
  function Or(x: nat, y: nat): nat
    decreases x + y
  {
    if x == 0 && y == 0 then 0
    else (if x % 2 == 1 || y % 2 == 1 then 1 else 0) + 2 * Or(x / 2, y / 2)
  }

  // ---------- bit by bit ----------

  lemma OrHalf(x: nat, y: nat)
    ensures Or(x, y) / 2 == Or(x / 2, y / 2)
    ensures Or(x, y) % 2 == 1 <==> x % 2 == 1 || y % 2 == 1
  {
    var z := Or(x / 2, y / 2);
    assert Or(x, y) == 2 * z || Or(x, y) == 1 + 2 * z;
  }

  lemma {:induction false} BitOr(x: nat, y: nat, k: nat)
    ensures Bit(Or(x, y), k) <==> Bit(x, k) || Bit(y, k)
    decreases k
  {
    OrHalf(x, y);
    hide Or;
    if k > 0 { BitOr(x / 2, y / 2, k - 1); }
  }

  lemma {:induction false} BitZero(k: nat)
    ensures !Bit(0, k)
  {
    if k > 0 { BitZero(k - 1); }
  }

  lemma {:induction false} BitPow2(n: nat, k: nat)
    ensures Bit(Pow2(n), k) <==> k == n
  {
    if n == 0 {
      if k > 0 { BitZero(k - 1); }
    } else if k > 0 {
      BitPow2(n - 1, k - 1);
    }
  }

  lemma {:induction false} BitMask(n: nat, k: nat)
    ensures Bit(Pow2(n) - 1, k) <==> k < n
  {
    if n == 0 {
      BitZero(k);
    } else if k > 0 {
      BitMask(n - 1, k - 1);
      assert (Pow2(n) - 1) / 2 == Pow2(n - 1) - 1;
    }
  }

  lemma {:induction false} OrBound(x: nat, y: nat, n: nat)
    requires x < Pow2(n) && y < Pow2(n)
    ensures Or(x, y) < Pow2(n)
  {
    if n > 0 { OrBound(x / 2, y / 2, n - 1); }
  }

  /** Numbers below 2^n with the same low `n` bits are equal. */
  lemma {:induction false} SameBits(x: nat, y: nat, n: nat)
    requires x < Pow2(n) && y < Pow2(n)
    requires forall k: nat | k < n :: Bit(x, k) == Bit(y, k)
    ensures x == y
  {
    if n > 0 {
      forall k: nat | k < n - 1 ensures Bit(x / 2, k) == Bit(y / 2, k) {
        assert Bit(x, k + 1) == Bit(y, k + 1);
      }
      SameBits(x / 2, y / 2, n - 1);
      assert Bit(x, 0) == Bit(y, 0);
    }
  }

  // ---------- shifting ----------

  lemma {:induction false} ShlAdd(x: nat, m: nat, n: nat)
    ensures Shl(x, m + n) == Shl(Shl(x, n), m)
  {
    if m > 0 { ShlAdd(x, m - 1, n); }
  }

  lemma {:induction false} ShlSum(x: nat, y: nat, n: nat)
    ensures Shl(x + y, n) == Shl(x, n) + Shl(y, n)
  {
    if n > 0 { ShlSum(x, y, n - 1); }
  }

  lemma {:induction false} ShlMonotonic(x: nat, m: nat, n: nat)
    requires m <= n
    ensures Shl(x, m) <= Shl(x, n)
    decreases n
  {
    if m < n { ShlMonotonic(x, m, n - 1); }
  }

  lemma Shl7(x: nat, n: nat)
    ensures Shl(x, n + 7) == 128 * Shl(x, n)
  {
    assert Shl(x, n + 2) == 4 * Shl(x, n);
    assert Shl(x, n + 4) == 4 * Shl(x, n + 2);
    assert Shl(x, n + 6) == 4 * Shl(x, n + 4);
  }

  lemma Shl8(x: nat)
    ensures Shl(x, 8) == 256 * x
  {
    Shl7(x, 1);
    assert Shl(x, 1) == 2 * Shl(x, 0);
  }

  lemma Shl32(x: nat)
    ensures Shl(x, 32) == U32 * x
  {
    ShlAdd(x, 8, 24);
    ShlAdd(x, 8, 16);
    ShlAdd(x, 8, 8);
    Shl8(x);
    Shl8(256 * x);
    Shl8(0x1_0000 * x);
    Shl8(0x100_0000 * x);
  }

  lemma Pow2Values()
    ensures Pow2(31) == 0x8000_0000 && Pow2(32) == U32 && Pow2(63) == U63 && Pow2(64) == U64
  {
    Shl32(1);
    ShlAdd(1, 32, 32);
    Shl32(U32);
    assert Shl(1, 32) == 2 * Shl(1, 31);
    assert Shl(1, 64) == 2 * Shl(1, 63);
  }

  lemma MulAtLeast(m: int, d: int)
    requires d != 0 && m > 0
    ensures m * d >= m || m * d <= -m
  {
  }

  lemma ModUnique(a: nat, m: nat, q: nat, r: nat)
    requires m > 0 && r < m && a == q * m + r
    ensures a % m == r && a / m == q
  {
    var q', r' := a / m, a % m;
    assert a == m * q' + r';
    var d := q' - q;
    assert m * d == m * q' - q * m;
    assert m * d == r - r';
    if d != 0 {
      MulAtLeast(m, d);
    }
  }

  lemma HalveMod(r: nat, h: nat, m: nat)
    requires m > 0
    ensures (2 * h + r % 2) % (2 * m) == 2 * (h % m) + r % 2
  {
    var q := h / m;
    assert h == m * q + h % m;
    assert 2 * h == q * (2 * m) + 2 * (h % m);
    ModUnique(2 * h + r % 2, 2 * m, q, 2 * (h % m) + r % 2);
  }

  lemma {:induction false} OrZero(y: nat)
    ensures Or(0, y) == y
  {
    if y > 0 { OrZero(y / 2); }
  }

  /** `r | (c << p)` in a `w`-bit word, when `r` has only bits below `p`: no carry, high bits of `c` dropped. */
  lemma {:induction false} ShiftOr(r: nat, c: nat, p: nat, w: nat)
    requires r < Pow2(p) && p <= w
    ensures Or(r, Shl(c, p) % Pow2(w)) == (r + Shl(c, p)) % Pow2(w)
  {
    if p == 0 {
      OrZero(c % Pow2(w));
    } else {
      var half := Shl(c, p - 1);
      HalveMod(0, half, Pow2(w - 1));
      ShiftOr(r / 2, c, p - 1, w - 1);
      HalveMod(r, r / 2 + half, Pow2(w - 1));
    }
  }
}
