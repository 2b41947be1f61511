/** Word arithmetic of the packed bitset.

    Storage words are unsigned 32-bit values (`word_t` is `uint32_t`). A
    logical position `n` lives in word `n / 32`, at the bit offset
    `n % 32`, under the single-bit mask `1 << (n % 32)`. Offsets are kept
    as `bv5` values so that every bit-level fact is a pure bit-vector fact. */
module Words {

  /** Bits per storage word: `sizeof(word_t) * 8`. */
  const WordSize: nat := 32

  /** `size_type` is `uint64_t`; the constructor computes `n + WordSize - 1`
      in it, which does not wrap as long as `n` is at most this bound. */
  const MaxSize: nat := 0x1_0000_0000_0000_0000 - WordSize

  /** Number of words that back `n` positions: `ceil(n / WordSize)`. */
  function WordCount(n: nat): (r: nat)
    ensures n <= r * WordSize < n + WordSize
    ensures r == 0 <==> n == 0
  {
    (n + WordSize - 1) / WordSize
  }

  /** Word that holds position `n` (the private `index`): the word whose
      `WordSize` positions start at or below `n` and reach past it. */
  function Index(n: nat): (r: nat)
    ensures r * WordSize <= n < r * WordSize + WordSize
  {
    n / WordSize
  }

  /** Bit offset of position `n` inside its word. */
  function Offset(n: nat): bv5
  {
    (n % WordSize) as bv5
  }

  /** The offset, read back as a number, is `n % WordSize`. */
  lemma OffsetValue(n: nat)
    ensures Offset(n) as int == n % WordSize
  {
  }

  /** The word whose only set bit is at offset `k`. */
  function OffsetMask(k: bv5): bv32
  {
    1 << k
  }

  /** Whether bit `k` of word `w` is set. */
  predicate HasBit(w: bv32, k: bv5)
  {
    w & OffsetMask(k) != 0
  }

  /** The single-bit mask of position `n` (the private `mask`): exactly one
      bit is set, the one at offset `n % 32`. */
  function Mask(n: nat): (r: bv32)
    ensures HasBit(r, Offset(n))
    ensures forall k :: HasBit(r, k) <==> k == Offset(n)
  {
    assert forall k :: HasBit(OffsetMask(Offset(n)), k) <==> k == Offset(n) by {
      forall k
        ensures HasBit(OffsetMask(Offset(n)), k) <==> k == Offset(n)
      {
        OffsetMaskBit(Offset(n), k);
      }
    }
    OffsetMask(Offset(n))
  }

  /** A position is determined by its word and its offset. */
  lemma PositionOf(n: nat)
    ensures n == Index(n) * WordSize + Offset(n) as int
  {
    OffsetValue(n);
  }

  /** Two positions with the same word and the same offset are equal. */
  lemma SamePosition(i: nat, n: nat)
    requires Index(i) == Index(n) && Offset(i) == Offset(n)
    ensures i == n
  {
    PositionOf(i);
    PositionOf(n);
  }

  /** Every in-range position has its word inside the storage. */
  lemma IndexInBounds(n: nat, size: nat)
    requires n < size
    ensures Index(n) < WordCount(size)
  {
  }

  /** Distinct offsets have disjoint masks. */
  lemma MasksDisjoint(j: bv5, k: bv5)
    requires j != k
    ensures OffsetMask(j) & OffsetMask(k) == 0
  {
  }

  /** Or-ing in the mask of offset `k` leaves every other bit alone. */
  lemma SetWordOther(w: bv32, k: bv5, j: bv5)
    requires j != k
    ensures HasBit(w | OffsetMask(k), j) == HasBit(w, j)
  {
    MasksDisjoint(j, k);
  }

  /** Or-ing in the mask of offset `k` sets bit `k`. */
  lemma SetWordSame(w: bv32, k: bv5)
    ensures HasBit(w | OffsetMask(k), k)
  {
  }

  /** `w | mask`: sets bit `k` and keeps every other bit. */
  function SetWord(w: bv32, k: bv5): (r: bv32)
    ensures HasBit(r, k)
    ensures forall j :: j != k ==> HasBit(r, j) == HasBit(w, j)
  {
    SetWordSame(w, k);
    assert forall j | j != k :: HasBit(w | OffsetMask(k), j) == HasBit(w, j) by {
      forall j | j != k
        ensures HasBit(w | OffsetMask(k), j) == HasBit(w, j)
      {
        SetWordOther(w, k, j);
      }
    }
    w | OffsetMask(k)
  }

  /** And-ing with the complemented mask of offset `k` leaves every other
      bit alone. */
  lemma UnsetWordOther(w: bv32, k: bv5, j: bv5)
    requires j != k
    ensures HasBit(w & !OffsetMask(k), j) == HasBit(w, j)
  {
    MasksDisjoint(j, k);
    assert !OffsetMask(k) & OffsetMask(j) == OffsetMask(j);
    assert (w & !OffsetMask(k)) & OffsetMask(j) == w & OffsetMask(j);
  }

  /** And-ing with the complemented mask of offset `k` clears bit `k`. */
  lemma UnsetWordSame(w: bv32, k: bv5)
    ensures !HasBit(w & !OffsetMask(k), k)
  {
  }

  /** `w & ~mask`: clears bit `k` and keeps every other bit. */
  function UnsetWord(w: bv32, k: bv5): (r: bv32)
    ensures !HasBit(r, k)
    ensures forall j :: j != k ==> HasBit(r, j) == HasBit(w, j)
  {
    UnsetWordSame(w, k);
    assert forall j | j != k :: HasBit(w & !OffsetMask(k), j) == HasBit(w, j) by {
      forall j | j != k
        ensures HasBit(w & !OffsetMask(k), j) == HasBit(w, j)
      {
        UnsetWordOther(w, k, j);
      }
    }
    w & !OffsetMask(k)
  }

  /** Toggling the mask of offset `k` toggles bit `k`. */
  lemma FlipWordSame(w: bv32, k: bv5)
    ensures HasBit(w ^ OffsetMask(k), k) == !HasBit(w, k)
  {
  }

  /** Toggling the mask of offset `k` leaves every other bit alone. */
  lemma FlipWordOther(w: bv32, k: bv5, j: bv5)
    requires j != k
    ensures HasBit(w ^ OffsetMask(k), j) == HasBit(w, j)
  {
    MasksDisjoint(j, k);
  }

  /** `w ^ mask`: toggles bit `k` and keeps every other bit. */
  function FlipWord(w: bv32, k: bv5): (r: bv32)
    ensures HasBit(r, k) == !HasBit(w, k)
    ensures forall j :: j != k ==> HasBit(r, j) == HasBit(w, j)
  {
    FlipWordSame(w, k);
    assert forall j | j != k :: HasBit(w ^ OffsetMask(k), j) == HasBit(w, j) by {
      forall j | j != k
        ensures HasBit(w ^ OffsetMask(k), j) == HasBit(w, j)
      {
        FlipWordOther(w, k, j);
      }
    }
    w ^ OffsetMask(k)
  }

  /** Toggling the complemented mask of offset `k` keeps bit `k`. */
  lemma AtomicFlipWordSame(w: bv32, k: bv5)
    ensures HasBit(w ^ !OffsetMask(k), k) == HasBit(w, k)
  {
  }

  /** Toggling the complemented mask of offset `k` toggles every other bit. */
  lemma AtomicFlipWordOther(w: bv32, k: bv5, j: bv5)
    requires j != k
    ensures HasBit(w ^ !OffsetMask(k), j) == !HasBit(w, j)
  {
  }

  /** `w ^ ~mask`, the word operation of the thread-safe `flip`: it keeps
      bit `k` and toggles each of the other 31 bits. */
  function AtomicFlipWord(w: bv32, k: bv5): (r: bv32)
    ensures HasBit(r, k) == HasBit(w, k)
    ensures forall j :: j != k ==> HasBit(r, j) == !HasBit(w, j)
  {
    AtomicFlipWordSame(w, k);
    assert forall j | j != k :: HasBit(w ^ !OffsetMask(k), j) == !HasBit(w, j) by {
      forall j | j != k
        ensures HasBit(w ^ !OffsetMask(k), j) == !HasBit(w, j)
      {
        AtomicFlipWordOther(w, k, j);
      }
    }
    w ^ !OffsetMask(k)
  }

  /** `HasBit` with the offset given as a number below `WordSize` instead of
      a `bv5`; it only changes the offset's type, so that the
      popcount can recurse over offsets as numbers. */
  predicate BitOf(w: bv32, k: nat)
    requires k < WordSize
  {
    HasBit(w, k as bv5)
  }

  /** Number of set bits among the offsets below `k`. */
  function PopcountBelow(w: bv32, k: nat): (r: nat)
    requires k <= WordSize
    ensures r <= k
  {
    if k == 0 then 0
    else PopcountBelow(w, k - 1) + (if BitOf(w, k - 1) then 1 else 0)
  }

  /** Number of set bits of `w` (`__builtin_popcount`); zero exactly for the
      zero word. */
  function Popcount(w: bv32): (r: nat)
    ensures r <= WordSize
    ensures r == 0 <==> w == 0
  {
    PopcountZero(w);
    PopcountBelow(w, WordSize)
  }

  /** The low `k` offsets hold no set bit exactly when the count below `k`
      is zero. */
  lemma {:induction false} PopcountBelowZero(w: bv32, k: nat)
    requires k <= WordSize
    ensures PopcountBelow(w, k) == 0 <==> forall j :: 0 <= j < k ==> !BitOf(w, j)
  {
    if k > 0 {
      PopcountBelowZero(w, k - 1);
    }
  }

  /** The word whose bits at offsets below `k` are set and the rest clear. */
  function LowBits(k: nat): bv32
    requires k <= WordSize
  {
    if k == WordSize then 0xFFFF_FFFF else OffsetMask(k as bv5) - 1
  }

  /** `LowBits(k)` adds the bit at offset `k - 1` to `LowBits(k - 1)`. */
  lemma LowBitsStep(k: nat)
    requires 0 < k <= WordSize
    ensures LowBits(k) == LowBits(k - 1) | OffsetMask((k - 1) as bv5)
  {
    var b := (k - 1) as bv5;
    if k < WordSize {
      NextOffset(k);
      MaskBelowStep(b);
    } else {
      assert b == 31;
    }
  }

  /** Consecutive numeric offsets are consecutive `bv5` offsets. */
  lemma NextOffset(k: nat)
    requires 0 < k < WordSize
    ensures k as bv5 == (k - 1) as bv5 + 1 && (k - 1) as bv5 < 31
  {
    var b := (k - 1) as bv5;
    assert b as int == k - 1;
    assert (b + 1) as int == k;
  }

  /** The bits below offset `b + 1` are the bits below `b` and bit `b`. */
  lemma MaskBelowStep(b: bv5)
    requires b < 31
    ensures OffsetMask(b + 1) - 1 == (OffsetMask(b) - 1) | OffsetMask(b)
  {
  }

  /** A word that is zero on two masks is zero on their union. */
  lemma ZeroOnUnion(w: bv32, a: bv32, b: bv32)
    requires w & a == 0 && w & b == 0
    ensures w & (a | b) == 0
  {
  }

  /** A word with no set bit at the offsets below `k` is zero on
      `LowBits(k)`. */
  lemma {:induction false} NoBitsBelow(w: bv32, k: nat)
    requires k <= WordSize
    requires forall j :: 0 <= j < k ==> !BitOf(w, j)
    ensures w & LowBits(k) == 0
  {
    if k > 0 {
      NoBitsBelow(w, k - 1);
      assert !BitOf(w, k - 1);
      LowBitsStep(k);
      ZeroOnUnion(w, LowBits(k - 1), OffsetMask((k - 1) as bv5));
    }
  }

  /** The zero word has no bit set. */
  lemma ZeroHasNoBit(k: bv5)
    ensures !HasBit(0, k)
  {
  }

  /** The population count is zero exactly for the zero word. */
  lemma PopcountZero(w: bv32)
    ensures PopcountBelow(w, WordSize) == 0 <==> w == 0
  {
    PopcountBelowZero(w, WordSize);
    if PopcountBelow(w, WordSize) == 0 {
      NoBitsBelow(w, WordSize);
      assert LowBits(WordSize) == 0xFFFF_FFFF;
    }
    if w == 0 {
      forall j | 0 <= j < WordSize
        ensures !BitOf(w, j)
      {
        ZeroHasNoBit(j as bv5);
      }
    }
  }

  /** The mask of position `n` has the bit at offset `j` set exactly when
      `j == n % WordSize`. */
  lemma MaskBitOf(n: nat, j: nat)
    requires j < WordSize
    ensures BitOf(Mask(n), j) <==> j == n % WordSize
  {
    OffsetValue(n);
    assert (j as bv5) as int == j;
  }

  /** The mask of offset `o` has the bit at `j` set exactly when `j == o`. */
  lemma OffsetMaskBit(o: bv5, j: bv5)
    ensures HasBit(OffsetMask(o), j) <==> j == o
  {
    if j != o {
      MasksDisjoint(j, o);
    }
  }

  /** Counting the bits of a single-bit mask below `k` finds its bit once
      `k` has passed the mask's offset. */
  lemma {:induction false} MaskPopcountBelow(n: nat, k: nat)
    requires k <= WordSize
    ensures PopcountBelow(Mask(n), k) == if n % WordSize < k then 1 else 0
  {
    if k > 0 {
      MaskPopcountBelow(n, k - 1);
      MaskBitOf(n, k - 1);
    }
  }

  /** A single-bit mask has population count one. */
  lemma MaskPopcount(n: nat)
    ensures Popcount(Mask(n)) == 1
  {
    MaskPopcountBelow(n, WordSize);
  }
}
