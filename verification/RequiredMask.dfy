/** `fields_seen` of `pb_decode_noinit`: two 32-bit words that stand for the set of required fields seen. */
module RequiredMask {
  import opened Bits
  import opened Message
  import opened Decode

  /** Bit `r` of the mask. */
  predicate BitAt(words: seq<nat>, r: nat)
    requires |words| == 2 && r < 64
  {
    Bit(words[r / 32], r % 32)
  }

  /** The required field number `r` is in the set. */
  predicate Seen(fields: seq<Field>, seen: set<nat>, r: nat)
  {
    exists i | i in seen :: i < |fields| && fields[i].Required() && RequiredIndex(fields, i) == r
  }

  /** The mask and the set agree on the first 64 required fields. */
  predicate Agree(fields: seq<Field>, seen: set<nat>, words: seq<nat>)
  {
    && |words| == 2 && words[0] < U32 && words[1] < U32
    && forall r: nat | r < 64 :: BitAt(words, r) <==> Seen(fields, seen, r)
  }

  lemma NothingSeen(fields: seq<Field>)
    ensures Agree(fields, {}, [0, 0])
  {
    forall r: nat | r < 64 ensures !BitAt([0, 0], r) { BitZero(r % 32); }
  }

  /** `fields_seen[index >> 5] |= 1 << (index & 31)` adds the field. */
  lemma MarkSeen(fields: seq<Field>, seen: set<nat>, words: seq<nat>, i: nat, w: nat)
    requires Agree(fields, seen, words) && i < |fields| && Tracked(fields, i)
    requires w == Or(words[RequiredIndex(fields, i) / 32], Pow2(RequiredIndex(fields, i) % 32))
    ensures Agree(fields, seen + {i}, words[RequiredIndex(fields, i) / 32 := w])
  {
    hide Or, Bit, Shl, RequiredIndex;
    var index := RequiredIndex(fields, i);
    var n, k := index / 32, index % 32;
    assert w < U32 by {
      Pow2Values();
      PowBelow32(k);
      OrBound(words[n], Pow2(k), 32);
    }
    var words' := words[n := w];
    forall r: nat | r < 64
      ensures BitAt(words', r) <==> Seen(fields, seen + {i}, r)
    {
      assert BitAt(words, r) <==> Seen(fields, seen, r);
      if r / 32 == n {
        BitOr(words[n], Pow2(k), r % 32);
        BitPow2(k, r % 32);
      }
      SeenAdd(fields, seen, i, r);
      assert r == index <==> r / 32 == n && r % 32 == k;
    }
  }

  lemma PowBelow32(k: nat)
    requires k < 32
    ensures Pow2(k) < Pow2(32)
  {
    ShlMonotonic(1, k + 1, 32);
  }

  lemma SeenAdd(fields: seq<Field>, seen: set<nat>, i: nat, r: nat)
    requires i < |fields| && fields[i].Required()
    ensures Seen(fields, seen + {i}, r) <==> Seen(fields, seen, r) || RequiredIndex(fields, i) == r
  {
    if Seen(fields, seen, r) {
      var j :| j in seen && j < |fields| && fields[j].Required() && RequiredIndex(fields, j) == r;
      assert j in seen + {i};
    }
    if RequiredIndex(fields, i) == r {
      assert i in seen + {i};
    }
  }

  /** A required field past the 64th leaves the mask alone, and the mask does not know it. */
  lemma MarkUntracked(fields: seq<Field>, seen: set<nat>, words: seq<nat>, i: nat)
    requires Agree(fields, seen, words) && i < |fields| && fields[i].Required() && !Tracked(fields, i)
    ensures Agree(fields, seen + {i}, words)
  {
    hide RequiredIndex;
    forall r: nat | r < 64 ensures BitAt(words, r) <==> Seen(fields, seen + {i}, r) {
      SeenAdd(fields, seen, i, r);
    }
  }

  /** The mask after a record of field `i`. */
  function Marked(fields: seq<Field>, i: nat, words: seq<nat>): seq<nat>
    requires i < |fields| && |words| == 2
  {
    if Tracked(fields, i) then
      var index := RequiredIndex(fields, i);
      words[index / 32 := Or(words[index / 32], Pow2(index % 32))]
    else words
  }

  lemma MarkField(fields: seq<Field>, seen: set<nat>, words: seq<nat>, i: nat)
    requires Agree(fields, seen, words) && i < |fields|
    ensures Agree(fields, if fields[i].Required() then seen + {i} else seen, Marked(fields, i, words))
  {
    hide Or, Shl, Bit, RequiredIndex;
    if Tracked(fields, i) {
      var index := RequiredIndex(fields, i);
      MarkSeen(fields, seen, words, i, Or(words[index / 32], Pow2(index % 32)));
    } else if fields[i].Required() {
      MarkUntracked(fields, seen, words, i);
    }
  }

  // ---------- the check after the loop ----------

  lemma {:induction false} IndexMonotonic(fields: seq<Field>, i: nat, j: nat)
    requires i <= j <= |fields|
    ensures RequiredIndex(fields, i) <= RequiredIndex(fields, j)
    decreases j
  {
    if i < j { IndexMonotonic(fields, i, j - 1); }
  }

  /** Required fields are numbered without gaps. */
  lemma {:induction false} IndexOnto(fields: seq<Field>, k: nat, r: nat) returns (i: nat)
    requires k <= |fields| && r < RequiredIndex(fields, k)
    ensures i < k && fields[i].Required() && RequiredIndex(fields, i) == r
    decreases k
  {
    if r == RequiredIndex(fields, k - 1) {
      i := k - 1;
    } else {
      i := IndexOnto(fields, k - 1, r);
    }
  }

  lemma IndexInjective(fields: seq<Field>, i: nat, j: nat)
    requires i < j < |fields| && fields[i].Required()
    ensures RequiredIndex(fields, i) < RequiredIndex(fields, j)
  {
    IndexMonotonic(fields, i + 1, j);
  }

  /** The first `count` bits are set: what the comparisons with `allbits` test. */
  predicate FirstBits(words: seq<nat>, count: nat)
    requires |words| == 2 && count <= 64
  {
    forall r: nat | r < count :: BitAt(words, r)
  }

  /** The number of required fields that are tracked. */
  function TrackedCount(fields: seq<Field>): (n: nat)
    ensures n <= 64
  {
    var n := RequiredIndex(fields, |fields|);
    if n > PB_MAX_REQUIRED_FIELDS then PB_MAX_REQUIRED_FIELDS else n
  }

  /** The bits test the set: each of the first 64 required fields was seen. */
  lemma FirstBitsMeansSeen(fields: seq<Field>, seen: set<nat>, words: seq<nat>)
    requires Agree(fields, seen, words)
    ensures FirstBits(words, TrackedCount(fields)) <==> forall i | 0 <= i < |fields| && Tracked(fields, i) :: i in seen
  {
    hide Bit, RequiredIndex;
    var count := TrackedCount(fields);
    if FirstBits(words, count) {
      forall i | 0 <= i < |fields| && Tracked(fields, i) ensures i in seen {
        var r := RequiredIndex(fields, i);
        IndexBelowTotal(fields, i);
        assert BitAt(words, r);
        var j :| j in seen && j < |fields| && fields[j].Required() && RequiredIndex(fields, j) == r;
        if j < i { IndexInjective(fields, j, i); }
        if i < j { IndexInjective(fields, i, j); }
      }
    }
    if forall i | 0 <= i < |fields| && Tracked(fields, i) :: i in seen {
      forall r: nat | r < count ensures BitAt(words, r) {
        var i := IndexOnto(fields, |fields|, r);
        assert Tracked(fields, i);
        assert Seen(fields, seen, r);
      }
    }
  }

  lemma IndexBelowTotal(fields: seq<Field>, i: nat)
    requires i < |fields| && fields[i].Required()
    ensures RequiredIndex(fields, i) < RequiredIndex(fields, |fields|)
  {
    IndexMonotonic(fields, i + 1, |fields|);
  }

  /** Bits past the last required field are never set. */
  lemma NoOtherBits(fields: seq<Field>, seen: set<nat>, words: seq<nat>, r: nat)
    requires Agree(fields, seen, words) && RequiredIndex(fields, |fields|) <= r < 64
    ensures !BitAt(words, r)
  {
    hide Bit, RequiredIndex;
    if Seen(fields, seen, r) {
      var i :| i in seen && i < |fields| && fields[i].Required() && RequiredIndex(fields, i) == r;
      IndexBelowTotal(fields, i);
    }
  }

  predicate LowBits(word: nat, n: nat)
  {
    forall k: nat | k < n :: Bit(word, k)
  }

  /** A word equals the mask of its low `n` bits exactly when those are set, provided no other is. */
  lemma WordIsMask(word: nat, n: nat)
    requires word < U32 && n <= 32
    requires forall k: nat | n <= k < 32 :: !Bit(word, k)
    ensures word == Pow2(n) - 1 <==> LowBits(word, n)
  {
    if word == Pow2(n) - 1 {
      forall k: nat | k < n ensures Bit(word, k) { BitMask(n, k); }
    }
    if LowBits(word, n) {
      BitsMakeMask(word, n);
    }
  }

  lemma BitsMakeMask(word: nat, n: nat)
    requires word < U32 && n <= 32
    requires forall k: nat | k < 32 :: Bit(word, k) <==> k < n
    ensures word == Pow2(n) - 1
  {
    hide Bit, Shl;
    var mask: nat := Pow2(n) - 1;
    forall k: nat | k < 32 ensures Bit(mask, k) <==> k < n { BitMask(n, k); }
    assert mask < Pow2(32) == U32 by {
      Pow2Values();
      ShlMonotonic(1, n, 32);
    }
    SameBits(word, mask, 32);
  }

  /** Below the tracked count the bits of a word, above it none: the comparison with its mask. */
  lemma WordCheck(fields: seq<Field>, seen: set<nat>, words: seq<nat>, w: nat, n: nat)
    requires Agree(fields, seen, words) && w < 2 && n <= 32
    requires n == 32 || 32 * w + n == RequiredIndex(fields, |fields|)
    ensures words[w] == Pow2(n) - 1 <==> forall r: nat | 32 * w <= r < 32 * w + n :: BitAt(words, r)
  {
    hide Bit, Shl, RequiredIndex;
    forall k: nat | n <= k < 32 ensures !Bit(words[w], k) {
      NoOtherBits(fields, seen, words, 32 * w + k);
      assert (32 * w + k) / 32 == w && (32 * w + k) % 32 == k;
    }
    WordIsMask(words[w], n);
    forall r: nat | 32 * w <= r < 32 * w + n
      ensures BitAt(words, r) <==> Bit(words[w], r - 32 * w)
    {
      assert r / 32 == w && r % 32 == r - 32 * w;
    }
    if forall r: nat | 32 * w <= r < 32 * w + n :: BitAt(words, r) {
      forall k: nat | k < n ensures Bit(words[w], k) { assert BitAt(words, 32 * w + k); }
    }
    if LowBits(words[w], n) {
      forall r: nat | 32 * w <= r < 32 * w + n ensures BitAt(words, r) { assert Bit(words[w], r - 32 * w); }
    }
  }
}
