/** The logical bit vector that a sequence of storage words holds, and the
    effect of the single-position operations on it.

    Position `i` is bit `Offset(i)` of word `Index(i)`. Of the
    `|words| * WordSize` positions the storage can hold, only the first
    `size` are addressable; the rest are the padding of the last word. */
module Layout {
  import opened Words

  /** Logical bit `i` of the storage. */
  predicate BitAt(words: seq<bv32>, i: nat)
    requires Index(i) < |words|
  {
    HasBit(words[Index(i)], Offset(i))
  }

  /** The logical bit vector of the first `n` positions. */
  function Decode(words: seq<bv32>, n: nat): seq<bool>
    requires n <= |words| * WordSize
  {
    seq(n, i requires 0 <= i < n => BitAt(words, i))
  }

  /** Every padding position (at or past `size`, inside the storage) is clear. */
  predicate PaddingClear(words: seq<bv32>, size: nat)
  {
    forall i :: size <= i < |words| * WordSize ==> !BitAt(words, i)
  }

  /** The storage after `set(n)`: word `n / 32` or-ed with `mask(n)`. */
  function SetBit(words: seq<bv32>, n: nat): (r: seq<bv32>)
    requires Index(n) < |words|
    ensures |r| == |words|
    ensures forall i :: Index(i) < |words| ==> BitAt(r, i) == (i == n || BitAt(words, i))
  {
    var r := words[Index(n) := SetWord(words[Index(n)], Offset(n))];
    assert forall i | Index(i) < |words| :: BitAt(r, i) == (i == n || BitAt(words, i)) by {
      forall i | Index(i) < |words|
        ensures BitAt(r, i) == (i == n || BitAt(words, i))
      {
        if Index(i) == Index(n) && Offset(i) == Offset(n) {
          SamePosition(i, n);
        }
      }
    }
    r
  }

  /** The storage after `unset(n)`: word `n / 32` and-ed with `~mask(n)`. */
  function UnsetBit(words: seq<bv32>, n: nat): (r: seq<bv32>)
    requires Index(n) < |words|
    ensures |r| == |words|
    ensures forall i :: Index(i) < |words| ==> BitAt(r, i) == (i != n && BitAt(words, i))
  {
    var r := words[Index(n) := UnsetWord(words[Index(n)], Offset(n))];
    assert forall i | Index(i) < |words| :: BitAt(r, i) == (i != n && BitAt(words, i)) by {
      forall i | Index(i) < |words|
        ensures BitAt(r, i) == (i != n && BitAt(words, i))
      {
        if Index(i) == Index(n) && Offset(i) == Offset(n) {
          SamePosition(i, n);
        }
      }
    }
    r
  }

  /** The storage after the single-threaded `flip(n)`: word `n / 32`
      xor-ed with `mask(n)`. */
  function FlipBit(words: seq<bv32>, n: nat): (r: seq<bv32>)
    requires Index(n) < |words|
    ensures |r| == |words|
    ensures forall i :: Index(i) < |words| ==> BitAt(r, i) == (if i == n then !BitAt(words, i) else BitAt(words, i))
  {
    var r := words[Index(n) := FlipWord(words[Index(n)], Offset(n))];
    assert forall i | Index(i) < |words| :: BitAt(r, i) == (if i == n then !BitAt(words, i) else BitAt(words, i)) by {
      forall i | Index(i) < |words|
        ensures BitAt(r, i) == (if i == n then !BitAt(words, i) else BitAt(words, i))
      {
        if Index(i) == Index(n) && Offset(i) == Offset(n) {
          SamePosition(i, n);
        }
      }
    }
    r
  }

  /** The storage after the thread-safe `flip(n)` as written: word `n / 32`
      xor-ed with `~mask(n)`. Bit `n` keeps its value, and every other
      position in the same word (padding included) is toggled. */
  function AtomicFlipBit(words: seq<bv32>, n: nat): (r: seq<bv32>)
    requires Index(n) < |words|
    ensures |r| == |words|
    ensures forall i :: Index(i) < |words| ==>
      BitAt(r, i) == (if i != n && Index(i) == Index(n) then !BitAt(words, i) else BitAt(words, i))
  {
    var r := words[Index(n) := AtomicFlipWord(words[Index(n)], Offset(n))];
    assert forall i | Index(i) < |words| ::
      BitAt(r, i) == (if i != n && Index(i) == Index(n) then !BitAt(words, i) else BitAt(words, i)) by {
      forall i | Index(i) < |words|
        ensures BitAt(r, i) == (if i != n && Index(i) == Index(n) then !BitAt(words, i) else BitAt(words, i))
      {
        if Index(i) == Index(n) && Offset(i) == Offset(n) {
          SamePosition(i, n);
        }
      }
    }
    r
  }

  /** `set(n)` makes bit `n` true, changes no other logical bit and keeps
      the padding clear. */
  lemma SetBitDecode(words: seq<bv32>, size: nat, n: nat)
    requires size <= |words| * WordSize && n < size
    ensures Decode(SetBit(words, n), size) == Decode(words, size)[n := true]
    ensures PaddingClear(words, size) ==> PaddingClear(SetBit(words, n), size)
  {
  }

  /** `unset(n)` makes bit `n` false, changes no other logical bit and keeps
      the padding clear. */
  lemma UnsetBitDecode(words: seq<bv32>, size: nat, n: nat)
    requires size <= |words| * WordSize && n < size
    ensures Decode(UnsetBit(words, n), size) == Decode(words, size)[n := false]
    ensures PaddingClear(words, size) ==> PaddingClear(UnsetBit(words, n), size)
  {
  }

  /** The single-threaded `flip(n)` negates bit `n`, changes no other
      logical bit and keeps the padding clear. */
  lemma FlipBitDecode(words: seq<bv32>, size: nat, n: nat)
    requires size <= |words| * WordSize && n < size
    ensures Decode(FlipBit(words, n), size) == Decode(words, size)[n := !Decode(words, size)[n]]
    ensures PaddingClear(words, size) ==> PaddingClear(FlipBit(words, n), size)
  {
  }

  /** The thread-safe `flip(n)` as written keeps bit `n`, negates every
      other position of word `n / 32` and leaves the other words' positions
      alone. */
  lemma AtomicFlipDecode(words: seq<bv32>, size: nat, n: nat)
    requires size <= |words| * WordSize && n < size
    ensures Decode(AtomicFlipBit(words, n), size)[n] == Decode(words, size)[n]
    ensures forall i :: 0 <= i < size && i != n ==>
      Decode(AtomicFlipBit(words, n), size)[i] == (if Index(i) == Index(n) then !Decode(words, size)[i] else Decode(words, size)[i])
  {
  }

  /** `set` is idempotent. */
  lemma SetBitIdempotent(words: seq<bv32>, n: nat)
    requires Index(n) < |words|
    ensures SetBit(SetBit(words, n), n) == SetBit(words, n)
  {
  }

  /** `unset` is idempotent. */
  lemma UnsetBitIdempotent(words: seq<bv32>, n: nat)
    requires Index(n) < |words|
    ensures UnsetBit(UnsetBit(words, n), n) == UnsetBit(words, n)
  {
  }

  /** The single-threaded `flip` undoes itself: flipping twice restores the
      original words. */
  lemma FlipBitInvolution(words: seq<bv32>, n: nat)
    requires Index(n) < |words|
    ensures FlipBit(FlipBit(words, n), n) == words
  {
  }

  /** The thread-safe `flip(0)` on a one-word bitset of two positions that
      are both clear: bit 0 stays clear while bit 1 becomes set, where the
      single-threaded `flip(0)` sets bit 0 only. With one position, the
      toggled bits are all padding and the padding stops being clear. */
  lemma AtomicFlipDefect()
    ensures AtomicFlipBit([0], 0) == [0xFFFF_FFFE]
    ensures Decode(AtomicFlipBit([0], 0), 2) == [false, true]
    ensures Decode(FlipBit([0], 0), 2) == [true, false]
    ensures !PaddingClear(AtomicFlipBit([0], 0), 1)
  {
    assert BitAt(AtomicFlipBit([0], 0), 1);
  }

  /** Number of true entries of `bits`. */
  function CountTrue(bits: seq<bool>): (r: nat)
    ensures r <= |bits|
  {
    if bits == [] then 0
    else CountTrue(bits[..|bits| - 1]) + (if bits[|bits| - 1] then 1 else 0)
  }

  /** Sum of the population counts of all words, as `count()` accumulates it. */
  function SumPopcount(words: seq<bv32>): (r: nat)
    ensures r <= |words| * WordSize
  {
    if words == [] then 0
    else SumPopcount(words[..|words| - 1]) + Popcount(words[|words| - 1])
  }

  /** Some storage word is nonzero: what `any()` looks for. */
  predicate AnyNonzero(words: seq<bv32>)
  {
    exists j :: 0 <= j < |words| && words[j] != 0
  }

  /** A count of true entries is positive exactly when some entry is true. */
  lemma {:induction false} CountTruePositive(bits: seq<bool>)
    ensures CountTrue(bits) > 0 <==> exists i :: 0 <= i < |bits| && bits[i]
  {
    if bits != [] {
      var init := bits[..|bits| - 1];
      CountTruePositive(init);
      if exists i :: 0 <= i < |init| && init[i] {
        var i :| 0 <= i < |init| && init[i];
        assert bits[i];
      }
      if exists i :: 0 <= i < |bits| && bits[i] {
        var i :| 0 <= i < |bits| && bits[i];
        if i < |init| {
          assert init[i];
        }
      }
    }
  }

  /** The popcount sum is positive exactly when some word is nonzero. */
  lemma {:induction false} SumPopcountPositive(words: seq<bv32>)
    ensures SumPopcount(words) > 0 <==> AnyNonzero(words)
  {
    if words != [] {
      var init := words[..|words| - 1];
      SumPopcountPositive(init);
      if AnyNonzero(init) {
        var j :| 0 <= j < |init| && init[j] != 0;
        assert words[j] != 0;
      }
      if AnyNonzero(words) {
        var j :| 0 <= j < |words| && words[j] != 0;
        if j < |init| {
          assert init[j] != 0;
        }
      }
    }
  }

  /** The 32 bits of word `w`, lowest offset first. */
  function WordBits(w: bv32): (r: seq<bool>)
    ensures |r| == WordSize
  {
    seq(WordSize, j requires 0 <= j < WordSize => BitOf(w, j))
  }

  /** The bits of every storage word in position order, padding included:
      the words' bit sequences laid end to end. */
  function Flatten(words: seq<bv32>): (r: seq<bool>)
    ensures |r| == |words| * WordSize
  {
    if words == [] then [] else Flatten(words[..|words| - 1]) + WordBits(words[|words| - 1])
  }

  /** Bit `k` of word `q` sits at position `q * WordSize + k`. */
  lemma WordPosition(q: nat, k: nat)
    requires k < WordSize
    ensures Index(q * WordSize + k) == q
    ensures Offset(q * WordSize + k) == Offset(k) == k as bv5
  {
  }

  /** Entry `i` of the flattened words is logical bit `i`. */
  lemma {:induction false} FlattenBit(words: seq<bv32>, i: nat)
    requires i < |words| * WordSize
    ensures Index(i) < |words|
    ensures Flatten(words)[i] == BitAt(words, i)
  {
    var m := |words| - 1;
    var init := words[..m];
    if i < m * WordSize {
      FlattenBit(init, i);
    } else {
      var k := i - m * WordSize;
      WordPosition(m, k);
    }
  }

  /** The decoded bits are a prefix of the flattened words. */
  lemma FlattenDecode(words: seq<bv32>, n: nat)
    requires n <= |words| * WordSize
    ensures Decode(words, n) == Flatten(words)[..n]
  {
    forall i | 0 <= i < n
      ensures Decode(words, n)[i] == Flatten(words)[i]
    {
      FlattenBit(words, i);
    }
  }

  /** Counting distributes over concatenation. */
  lemma {:induction false} CountTrueAppend(a: seq<bool>, b: seq<bool>)
    ensures CountTrue(a + b) == CountTrue(a) + CountTrue(b)
  {
    if b == [] {
      assert a + b == a;
    } else {
      var b' := b[..|b| - 1];
      assert (a + b)[..|a + b| - 1] == a + b';
      assert (a + b)[|a + b| - 1] == b[|b| - 1];
      CountTrueAppend(a, b');
    }
  }

  /** The low `k` bits of `w` count as its popcount below `k`. */
  lemma {:induction false} WordBitsCount(w: bv32, k: nat)
    requires k <= WordSize
    ensures CountTrue(WordBits(w)[..k]) == PopcountBelow(w, k)
  {
    if k > 0 {
      assert WordBits(w)[..k][..k - 1] == WordBits(w)[..k - 1];
      WordBitsCount(w, k - 1);
    }
  }

  /** The popcount sum is the number of true entries of the flattened
      words. */
  lemma {:induction false} FlattenCount(words: seq<bv32>)
    ensures SumPopcount(words) == CountTrue(Flatten(words))
  {
    if words != [] {
      var w := words[|words| - 1];
      FlattenCount(words[..|words| - 1]);
      CountTrueAppend(Flatten(words[..|words| - 1]), WordBits(w));
      WordBitsCount(w, WordSize);
      assert WordBits(w)[..WordSize] == WordBits(w);
    }
  }

  /** A sequence with no true entry counts zero. */
  lemma AllFalseCount(bits: seq<bool>)
    requires forall i :: 0 <= i < |bits| ==> !bits[i]
    ensures CountTrue(bits) == 0
  {
    CountTruePositive(bits);
  }

  /** With clear padding, the popcount sum over all words is the number of
      set positions below `size`. */
  lemma CountMatches(words: seq<bv32>, size: nat)
    requires size <= |words| * WordSize
    requires PaddingClear(words, size)
    ensures SumPopcount(words) == CountTrue(Decode(words, size))
  {
    var bits := Flatten(words);
    FlattenCount(words);
    FlattenDecode(words, size);
    forall i | 0 <= i < |bits[size..]|
      ensures !bits[size..][i]
    {
      FlattenBit(words, size + i);
    }
    AllFalseCount(bits[size..]);
    assert bits == bits[..size] + bits[size..];
    CountTrueAppend(bits[..size], bits[size..]);
  }

  /** With clear padding, some word is nonzero exactly when some position
      below `size` is set. */
  lemma AnyMatches(words: seq<bv32>, size: nat)
    requires size <= |words| * WordSize
    requires PaddingClear(words, size)
    ensures AnyNonzero(words) <==> exists i :: 0 <= i < size && Decode(words, size)[i]
  {
    SumPopcountPositive(words);
    CountMatches(words, size);
    CountTruePositive(Decode(words, size));
  }

  /** All-zero storage decodes to all-false bits, has clear padding, a zero
      popcount sum and no nonzero word. */
  lemma {:induction false} ZeroWords(words: seq<bv32>, size: nat)
    requires size <= |words| * WordSize
    requires forall j :: 0 <= j < |words| ==> words[j] == 0
    ensures Decode(words, size) == seq(size, _ => false)
    ensures PaddingClear(words, size)
    ensures SumPopcount(words) == 0
    ensures !AnyNonzero(words)
  {
    forall k: bv5
      ensures !HasBit(0, k)
    {
      ZeroHasNoBit(k);
    }
    SumPopcountPositive(words);
  }

  /** Changing one entry changes the count by what that entry adds or
      no longer adds. */
  lemma {:induction false} CountTrueUpdate(bits: seq<bool>, n: nat, v: bool)
    requires n < |bits|
    ensures CountTrue(bits[n := v]) == CountTrue(bits) - (if bits[n] then 1 else 0) + (if v then 1 else 0)
  {
    var m := |bits| - 1;
    if n == m {
      assert bits[n := v][..m] == bits[..m];
    } else {
      assert bits[n := v][..m] == bits[..m][n := v];
      CountTrueUpdate(bits[..m], n, v);
    }
  }

  /** Storage that agrees with `words` at every position but `n`, where it
      holds `v`, flattens to the flattened `words` with entry `n` replaced. */
  lemma FlattenUpdate(words: seq<bv32>, r: seq<bv32>, n: nat, v: bool)
    requires |r| == |words| && Index(n) < |words|
    requires forall i :: Index(i) < |words| ==> BitAt(r, i) == (if i == n then v else BitAt(words, i))
    ensures n < |Flatten(words)| && Flatten(words)[n] == BitAt(words, n)
    ensures Flatten(r) == Flatten(words)[n := v]
  {
    forall i | 0 <= i < |words| * WordSize
      ensures Flatten(r)[i] == Flatten(words)[n := v][i]
    {
      FlattenBit(words, i);
      FlattenBit(r, i);
    }
    FlattenBit(words, n);
  }

  /** `set(n)` adds one to the popcount sum exactly when bit `n` was clear,
      whatever the padding holds. */
  lemma SetCount(words: seq<bv32>, n: nat)
    requires Index(n) < |words|
    ensures SumPopcount(SetBit(words, n)) == SumPopcount(words) + (if BitAt(words, n) then 0 else 1)
  {
    FlattenUpdate(words, SetBit(words, n), n, true);
    FlattenCount(words);
    FlattenCount(SetBit(words, n));
    CountTrueUpdate(Flatten(words), n, true);
  }

  /** `unset(n)` removes one from the popcount sum exactly when bit `n` was
      set, whatever the padding holds. */
  lemma UnsetCount(words: seq<bv32>, n: nat)
    requires Index(n) < |words|
    ensures SumPopcount(UnsetBit(words, n)) == SumPopcount(words) - (if BitAt(words, n) then 1 else 0)
  {
    FlattenUpdate(words, UnsetBit(words, n), n, false);
    FlattenCount(words);
    FlattenCount(UnsetBit(words, n));
    CountTrueUpdate(Flatten(words), n, false);
  }

  /** The plain `flip(n)` adds one to the popcount sum when bit `n` was
      clear and removes one when it was set, whatever the padding holds. */
  lemma FlipCount(words: seq<bv32>, n: nat)
    requires Index(n) < |words|
    ensures SumPopcount(FlipBit(words, n)) == SumPopcount(words) + (if BitAt(words, n) then -1 else 1)
  {
    var bits := Flatten(words);
    FlattenUpdate(words, FlipBit(words, n), n, !BitAt(words, n));
    FlattenCount(words);
    FlattenCount(FlipBit(words, n));
    CountTrueUpdate(bits, n, !bits[n]);
  }

  /** A position past `size` but inside the last word is a padding bit:
      on 42 positions, `set(50)` sets bit 18 of word 1, so the popcount sum
      and the nonzero-word test see a bit that no position below 42 holds. */
  lemma PaddingWrite()
    ensures !PaddingClear(SetBit([0, 0], 50), 42)
    ensures SumPopcount(SetBit([0, 0], 50)) == 1
    ensures AnyNonzero(SetBit([0, 0], 50))
    ensures Decode(SetBit([0, 0], 50), 42) == seq(42, _ => false)
  {
    var w0: seq<bv32> := [0, 0];
    var w := SetBit(w0, 50);
    ZeroWords(w0, 42);
    SetCount(w0, 50);
    assert BitAt(w, 50);
    assert w[1] != 0;
    assert forall i :: 0 <= i < 42 ==> Decode(w, 42)[i] == Decode(w0, 42)[i];
  }

  /** A 42-position bitset (two words) after `set(0)`, `set(31)`,
      `set(32)` and `set(41)`: word 0 holds bits 0 and 31, word 1 holds bits
      0 and 9, and position 15 is clear. The plain `flip(32)` then clears
      word 1's bit 0, so position 32 reads as clear. */
  lemma Capacity42Words()
    ensures SetBit(SetBit(SetBit(SetBit([0, 0], 0), 31), 32), 41) == [0x8000_0001, 0x0000_0201]
    ensures !BitAt([0x8000_0001, 0x0000_0201], 15)
    ensures FlipBit([0x8000_0001, 0x0000_0201], 32) == [0x8000_0001, 0x0000_0200]
    ensures !BitAt([0x8000_0001, 0x0000_0200], 32)
  {
  }

  /** The same scenario counted: four set positions after the four sets. */
  lemma Capacity42SetCount()
    ensures SumPopcount(SetBit(SetBit(SetBit(SetBit([0, 0], 0), 31), 32), 41)) == 4
  {
    var w0: seq<bv32> := [0, 0];
    ZeroWords(w0, 42);
    var w1 := SetBit(w0, 0);
    SetBitDecode(w0, 42, 0);
    SetCount(w0, 0);
    var w2 := SetBit(w1, 31);
    SetBitDecode(w1, 42, 31);
    SetCount(w1, 31);
    var w3 := SetBit(w2, 32);
    SetBitDecode(w2, 42, 32);
    SetCount(w2, 32);
    SetCount(w3, 41);
  }

  /** The plain `flip(32)` then brings the count down to three. */
  lemma Capacity42FlipCount()
    ensures SumPopcount(FlipBit(SetBit(SetBit(SetBit(SetBit([0, 0], 0), 31), 32), 41), 32)) == 3
  {
    var w4 := SetBit(SetBit(SetBit(SetBit([0, 0], 0), 31), 32), 41);
    Capacity42SetCount();
    assert BitAt(w4, 32);
    FlipCount(w4, 32);
  }
}
