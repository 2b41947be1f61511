/** The packed bitset: a fixed number of positions stored in an array of
    32-bit words, with its thread-safety mode fixed when it is built. */
module Bitsets {
  import opened Words
  import opened Layout

  class Bitset {
    /** Number of addressable positions (`size_`, which `size()` returns). */
    const size: nat
    /** The `thread_safe` template argument: it selects the specialisation
        every mutator runs, and never changes. */
    const threadSafe: bool
    /** The storage words (`data_`); the vector is never resized. */
    const data: array<bv32>

    /** The storage holds exactly `ceil(size / 32)` words, and the size is
        small enough for `size + 31` to fit in `size_type`. */
    ghost predicate Valid()
      reads this
    {
      size <= MaxSize && data.Length == WordCount(size)
    }

    /** The logical bit vector: `Bits()[i]` is the value of position `i`. */
    ghost function Bits(): seq<bool>
      reads this, data
      requires Valid()
    {
      Decode(data[..], size)
    }

    /** The bits of the last word past `size` are all clear. */
    ghost predicate PaddingClear()
      reads this, data
      requires Valid()
    {
      Layout.PaddingClear(data[..], size)
    }

    /** `bitset(n)`: `ceil(n / 32)` words, all zero, so every position is
        unset. */
    constructor (n: nat, threadSafe: bool)
      requires n <= MaxSize
      ensures Valid() && fresh(data)
      ensures size == n && this.threadSafe == threadSafe
      ensures forall j :: 0 <= j < data.Length ==> data[j] == 0
      ensures Bits() == seq(n, _ => false)
      ensures PaddingClear()
    {
      size := n;
      this.threadSafe := threadSafe;
      data := new bv32[WordCount(n)](_ => 0);
      new;
      ZeroWords(data[..], n);
    }

    /** `size()`: the number of addressable positions. */
    function Size(): (r: nat)
      reads this, data
      requires Valid()
      ensures r == |Bits()|
    {
      size
    }

    /** `get(n)`: tests `mask(n)` in word `index(n)`. */
    function Get(n: nat): (b: bool)
      reads this, data
      requires Valid() && n < size
      ensures b == Bits()[n]
    {
      IndexInBounds(n, size);
      data[Index(n)] & Mask(n) != 0
    }

    /** `set(n)`. Both specialisations have this effect on their own: the
        plain one with `|=`, the thread-safe one with an atomic
        fetch-and-or of the same mask. */
    method Set(n: nat)
      requires Valid() && n < size
      modifies data
      ensures data[..] == SetBit(old(data[..]), n)
      ensures Bits() == old(Bits())[n := true]
      ensures old(PaddingClear()) ==> PaddingClear()
    {
      IndexInBounds(n, size);
      var i := Index(n);
      data[i] := SetWord(data[i], Offset(n));
      assert data[..] == SetBit(old(data[..]), n);
      SetBitDecode(old(data[..]), size, n);
    }

    /** `unset(n)`. Both specialisations have this effect on their own: the
        plain one with `&= ~mask(n)`, the thread-safe one with an atomic
        fetch-and-and of the same complemented mask. */
    method Unset(n: nat)
      requires Valid() && n < size
      modifies data
      ensures data[..] == UnsetBit(old(data[..]), n)
      ensures Bits() == old(Bits())[n := false]
      ensures old(PaddingClear()) ==> PaddingClear()
    {
      IndexInBounds(n, size);
      var i := Index(n);
      data[i] := UnsetWord(data[i], Offset(n));
      assert data[..] == UnsetBit(old(data[..]), n);
      UnsetBitDecode(old(data[..]), size, n);
    }

    /** `flip(n)`: runs the specialisation the `thread_safe` flag selects. */
    method Flip(n: nat)
      requires Valid() && n < size
      modifies data
      ensures data[..] == if threadSafe then AtomicFlipBit(old(data[..]), n) else FlipBit(old(data[..]), n)
      ensures !threadSafe ==> Bits() == old(Bits())[n := !old(Bits())[n]]
      ensures !threadSafe ==> (old(PaddingClear()) ==> PaddingClear())
      ensures threadSafe ==> Bits()[n] == old(Bits())[n]
      ensures threadSafe ==> forall i :: 0 <= i < size && i != n ==>
        Bits()[i] == (if Index(i) == Index(n) then !old(Bits())[i] else old(Bits())[i])
    {
      if threadSafe {
        AtomicFlip(n);
      } else {
        PlainFlip(n);
      }
    }

    /** `flip(n)` of `bitset<false>`: xors word `index(n)` with `mask(n)`,
        which negates position `n` and nothing else. */
    method PlainFlip(n: nat)
      requires Valid() && n < size && !threadSafe
      modifies data
      ensures data[..] == FlipBit(old(data[..]), n)
      ensures Bits() == old(Bits())[n := !old(Bits())[n]]
      ensures old(PaddingClear()) ==> PaddingClear()
    {
      IndexInBounds(n, size);
      var i := Index(n);
      data[i] := FlipWord(data[i], Offset(n));
      assert data[..] == FlipBit(old(data[..]), n);
      FlipBitDecode(old(data[..]), size, n);
    }

    /** `flip(n)` of `bitset<true>` as written: an atomic xor of word
        `index(n)` with `~mask(n)`, which leaves position `n` as it was and
        toggles every other bit of its word, padding bits included. */
    method AtomicFlip(n: nat)
      requires Valid() && n < size && threadSafe
      modifies data
      ensures data[..] == AtomicFlipBit(old(data[..]), n)
      ensures Bits()[n] == old(Bits())[n]
      ensures forall i :: 0 <= i < size && i != n ==>
        Bits()[i] == (if Index(i) == Index(n) then !old(Bits())[i] else old(Bits())[i])
    {
      IndexInBounds(n, size);
      var i := Index(n);
      data[i] := AtomicFlipWord(data[i], Offset(n));
      assert data[..] == AtomicFlipBit(old(data[..]), n);
      AtomicFlipDecode(old(data[..]), size, n);
    }

    /** `any()`: scans the words and stops at the first nonzero one. With
        clear padding, that is the same as some position being set. */
    method Any() returns (r: bool)
      requires Valid()
      ensures r == AnyNonzero(data[..])
      ensures PaddingClear() ==> (r <==> exists i :: 0 <= i < size && Bits()[i])
    {
      var i := 0;
      while i < data.Length
        invariant 0 <= i <= data.Length
        invariant forall j :: 0 <= j < i ==> data[j] == 0
      {
        if data[i] != 0 {
          assert data[..][i] != 0;
          if PaddingClear() {
            AnyMatches(data[..], size);
            assert exists j :: 0 <= j < size && Decode(data[..], size)[j];
            assert Bits() == Decode(data[..], size);
          }
          return true;
        }
        i := i + 1;
      }
      if PaddingClear() {
        AnyMatches(data[..], size);
      }
      return false;
    }

    /** `none()`: the negation of `any()`. */
    method None() returns (r: bool)
      requires Valid()
      ensures r == !AnyNonzero(data[..])
      ensures PaddingClear() ==> (r <==> forall i :: 0 <= i < size ==> !Bits()[i])
    {
      var some := Any();
      r := !some;
    }

    /** `count()`: adds up the popcount of every word. With clear padding,
        that is the number of set positions, and it is positive exactly
        when `any()` holds. */
    method Count() returns (r: nat)
      requires Valid()
      ensures r == SumPopcount(data[..])
      ensures r <= data.Length * WordSize < 0x1_0000_0000_0000_0000
      ensures r > 0 <==> AnyNonzero(data[..])
      ensures PaddingClear() ==> r == CountTrue(Bits())
    {
      r := 0;
      var i := 0;
      while i < data.Length
        invariant 0 <= i <= data.Length
        invariant r == SumPopcount(data[..i])
      {
        assert data[..i + 1][..i] == data[..i];
        r := r + Popcount(data[i]);
        i := i + 1;
      }
      assert data[..i] == data[..];
      SumPopcountPositive(data[..]);
      FlattenCount(data[..]);
      if PaddingClear() {
        CountMatches(data[..], size);
      }
    }
  }
}
