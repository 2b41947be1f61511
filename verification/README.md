# bitvector: a packed bitset in Dafny

This project models `bitset<thread_safe>` from `bitset.hh`. It is a fixed-size
vector of bits packed into 32-bit words (`word_t` is `uint32_t`), stored in a
`std::vector` that is never resized. Position `n` lives in word `n / 32`
(`index`), under the single-bit mask `1 << (n % 32)` (`mask`). The template
argument `thread_safe` picks one of two specialisations of `set`, `unset` and
`flip`:

- the plain one updates the word with `|=`, `&= ~` or `^=`;
- the thread-safe one uses the GCC atomic builtins `__sync_or_and_fetch`,
  `__sync_and_and_fetch` and `__sync_xor_and_fetch`.

`get`, `any`, `none`, `count` and `size` are shared by both.

The model has three modules:

- `Words` (`words.dfy`) holds one word and its arithmetic:
  - `WordCount`, `Index`, `Offset` and `Mask`;
  - the four word updates `SetWord`, `UnsetWord`, `FlipWord` and `AtomicFlipWord`;
  - `Popcount`, which is specified as the number of set bits of the word.

  Offsets are `bv5` values, so every bit fact is a bit-vector fact.
- `Layout` (`layout.dfy`) holds the storage as a `seq<bv32>`:
  - `Decode` gives the logical bit vector (position `i` is `BitAt(words, i)`);
  - `PaddingClear` says that the bits of the last word past `size` are zero;
  - `SetBit`, `UnsetBit`, `FlipBit` and `AtomicFlipBit` are the storage after
    each operation, with lemmas relating them to `Decode`;
  - `CountMatches` and `AnyMatches` relate the word-level results of `count`
    and `any` to the logical bits.
- `Bitsets` (`bitset.dfy`) holds `class Bitset`, with these members:
  - `size` and `threadSafe` are constants, and `data` is an `array<bv32>` whose
    words the methods update in place;
  - `Bits()` is the abstract value;
  - `Set`, `Unset` and `Flip` modify `data` and state the new words and the
    new `Bits()`;
  - `Any`, `None` and `Count` keep the source's loops.

In the thread-safe mode, `Set` and `Unset` have the same sequential effect as
in the plain mode (an atomic or/and with the same operand), so each is one
method. `Flip` dispatches on the flag to `PlainFlip` or `AtomicFlip`, because
the two specialisations compute different words. The thread-safe `flip` is
modelled as written (xor with `~mask(n)`; see Findings).

## Model

| member | source | states |
|---|---|---|
| `Words.WordCount` | bitset.hh:35-37 | the constructor's `(n + 31) / 32` words hold at least `n` positions and fewer than `n + 32`; the count is zero exactly when `n` is zero |
| `Words.IndexInBounds` | bitset.hh:45-49 | for every `n < size`, `index(n)` is a valid word of the `ceil(size / 32)`-word storage |
| `Words.Index` | bitset.hh:45-49 | `index(n)` is the word whose 32 positions, starting at `32 * index(n)`, include `n`; `IndexInBounds` and `SamePosition` state its other properties |
| `Words.SamePosition` | bitset.hh:45-55 | a position is determined by its word index and its bit offset, so two positions with the same `index` and the same offset `n % 32` are equal; since `mask` has exactly its offset's bit set (`Words.Mask`), the same holds for the same `index` and `mask` |
| `Words.Mask` | bitset.hh:51-55 | `mask(n)` has exactly one bit set, the one at offset `n % 32` |
| `Words.MaskPopcount` | bitset.hh:51-55 | the population count of `mask(n)` is one |
| `Words.SetWord` | bitset.hh:57-67 | or-ing in the mask of offset `k` sets bit `k` and keeps the other 31 bits |
| `Words.UnsetWord` | bitset.hh:70-80 | and-ing with the complemented mask clears bit `k` and keeps the other 31 bits |
| `Words.FlipWord` | bitset.hh:83-87 | xor-ing with the mask negates bit `k` and keeps the other 31 bits |
| `Words.AtomicFlipWord` | bitset.hh:89-93 | xor-ing with `~mask` keeps bit `k` and negates each of the other 31 bits |
| `Words.Popcount` | bitset.hh:127 | `__builtin_popcount` of a word is at most 32 and is zero exactly for the zero word |
| `Words.PopcountZero` | bitset.hh:127 | the number of set bits among all 32 offsets is zero exactly when the word is zero |
| `Layout.SetBit` | bitset.hh:57-67 | after `set(n)`, logical bit `n` is true and every other position of the storage keeps its value |
| `Layout.SetBitDecode` | bitset.hh:57-67 | `set(n)` turns the bit vector `b` into `b[n := true]` and keeps the padding clear |
| `Layout.SetBitIdempotent` | bitset.hh:57-67 | setting the same position twice gives the same storage as setting it once |
| `Layout.UnsetBit` | bitset.hh:70-80 | after `unset(n)`, logical bit `n` is false and every other position keeps its value |
| `Layout.UnsetBitDecode` | bitset.hh:70-80 | `unset(n)` turns `b` into `b[n := false]` and keeps the padding clear |
| `Layout.UnsetBitIdempotent` | bitset.hh:70-80 | unsetting twice equals unsetting once |
| `Layout.FlipBit` | bitset.hh:83-87 | after the plain `flip(n)`, logical bit `n` is negated and every other position keeps its value |
| `Layout.FlipBitDecode` | bitset.hh:83-87 | the plain `flip(n)` turns `b` into `b[n := !b[n]]` and keeps the padding clear |
| `Layout.FlipBitInvolution` | bitset.hh:83-87 | flipping the same position twice restores the original storage |
| `Layout.AtomicFlipBit` | bitset.hh:89-93 | after the thread-safe `flip(n)` as written, bit `n` keeps its value, every other position of word `n / 32` (padding included) is negated, and other words are unchanged |
| `Layout.AtomicFlipDecode` | bitset.hh:89-93 | on the bit vector, the thread-safe `flip(n)` keeps `b[n]` and negates exactly the other positions that share its word |
| `Layout.AtomicFlipDefect` | bitset.hh:92 | on a two-position bitset with both bits clear, the thread-safe `flip(0)` leaves bit 0 clear and sets bit 1, where the plain `flip(0)` gives `[true, false]`; with one position it sets padding bits |
| `Layout.SumPopcount` | bitset.hh:123-128 | the sum `count()` accumulates, one `__builtin_popcount` per word, is at most 32 times the number of words |
| `Layout.AnyNonzero` | bitset.hh:105-108 | the test `any()` runs: some storage word is nonzero; `SumPopcountPositive` and `AnyMatches` state its properties |
| `Layout.SumPopcountPositive` | bitset.hh:102-131 | the sum of the word popcounts is positive exactly when some word is nonzero, so `count() > 0` exactly when `any()` |
| `Layout.FlattenCount` | bitset.hh:120-131 | the sum of the word popcounts equals the number of set bits over all storage positions, padding included |
| `Layout.CountMatches` | bitset.hh:120-131 | with clear padding, the popcount sum equals the number of true positions of the bit vector |
| `Layout.AnyMatches` | bitset.hh:102-112 | with clear padding, some word is nonzero exactly when some position below `size` is set |
| `Layout.SetCount` | bitset.hh:57-67 | `set(n)` raises the popcount sum by one exactly when bit `n` was clear, and leaves it unchanged otherwise, whatever the padding holds |
| `Layout.UnsetCount` | bitset.hh:70-80 | `unset(n)` lowers the popcount sum by one exactly when bit `n` was set, and leaves it unchanged otherwise, whatever the padding holds |
| `Layout.FlipCount` | bitset.hh:83-87 | the plain `flip(n)` lowers the popcount sum by one when bit `n` was set and raises it by one otherwise, whatever the padding holds |
| `Layout.Capacity42Words` | bitset.hh:57-87 | on a 42-position bitset, `set(0)`, `set(31)`, `set(32)` and `set(41)` give the words `0x80000001` and `0x00000201`, leave position 15 clear, and the plain `flip(32)` then gives `0x80000001` and `0x00000200` |
| `Layout.Capacity42SetCount` | bitset.hh:57-67 | in that scenario the popcount sum, which `count()` returns, is 4 after the four sets |
| `Layout.Capacity42FlipCount` | bitset.hh:83-87 | it is 3 after the plain `flip(32)` that follows |
| `Layout.PaddingWrite` | bitset.hh:57-61 | on 42 positions, `set(50)` writes a padding bit of word 1: the padding is no longer clear, the popcount sum that `count()` returns is 1, and some word is nonzero, while no position below 42 is set |
| `Layout.ZeroWords` | bitset.hh:35-37 | zero-filled storage decodes to all-false bits, has clear padding, popcount sum zero and no nonzero word |
| `Bitsets.Bitset.constructor` | bitset.hh:35-37 | a new bitset of `n` positions has `ceil(n / 32)` fresh zero words, `size == n`, every position unset and clear padding |
| `Bitsets.Bitset.Size` | bitset.hh:39-43 | `size()` is the length of the logical bit vector |
| `Bitsets.Bitset.Get` | bitset.hh:96-100 | `get(n)` returns logical bit `n` |
| `Bitsets.Bitset.Set` | bitset.hh:57-67 | the new words are `SetBit` of the old ones; the new bit vector is the old one with position `n` true; clear padding stays clear |
| `Bitsets.Bitset.Unset` | bitset.hh:70-80 | the new words are `UnsetBit` of the old ones; position `n` becomes false and nothing else changes; clear padding stays clear |
| `Bitsets.Bitset.Flip` | bitset.hh:83-93 | in the plain mode, negates position `n` only; in the thread-safe mode, keeps position `n` and negates the other positions of its word |
| `Bitsets.Bitset.PlainFlip` | bitset.hh:83-87 | the new words are `FlipBit` of the old ones; position `n` is negated and nothing else changes; clear padding stays clear |
| `Bitsets.Bitset.AtomicFlip` | bitset.hh:89-93 | the new words are `AtomicFlipBit` of the old ones; position `n` keeps its value, and the other positions of its word are negated |
| `Bitsets.Bitset.Any` | bitset.hh:102-112 | the early-exit scan returns whether some word is nonzero; with clear padding, whether some position is set |
| `Bitsets.Bitset.None` | bitset.hh:114-118 | `none()` is the negation of `any()`; with clear padding, every position is unset |
| `Bitsets.Bitset.Count` | bitset.hh:120-131 | the loop returns the sum of the word popcounts. That sum is at most `32 * words` and so fits in `uint64_t`. It is positive exactly when some word is nonzero, and with clear padding it equals the number of set positions |

## Left out

- Atomicity and concurrency: each atomic builtin is modelled by its effect on
  one thread. Interleavings, the memory barriers of the `__sync_` builtins,
  and the absence of a lock around `any()` and `count()` (which read word by
  word while other threads may write) are not modelled.
- `main.cc`, which only constructs three bitsets of 42 positions, is not part
  of this model.
- Out-of-range positions: `set`, `unset`, `flip` and `get` do no bounds check
  in the source (`std::vector::operator[]`). A position with
  `n / 32 >= data_.size()` is undefined behaviour. A position with
  `size() <= n < 32 * data_.size()` is inside the last word, so the call
  silently reads or writes a padding bit, and `count()` and `any()` then see
  it: on 42 positions, `set(50)` sets bit 18 of word 1, after which `count()`
  is 1 and `any()` is true with no position below 42 set
  (`Layout.PaddingWrite`). The class methods require `n < size` and so
  exclude these calls; `SetBit`, `UnsetBit`, `FlipBit`, `AtomicFlipBit` and
  the count lemmas accept any position inside the storage.
- Bitsets.Bitset.constructor: requires `n <= 2^64 - 32`, so that
  `n + WORD_SIZE - 1` does not wrap in `uint64_t`; the source does not check
  it.
- Words.Mask: the source shifts the `int` literal `1`, so `mask` at offset
  31 is a signed-shift overflow in C++ before C++20; the model gives it its
  evident value `0x8000_0000`.
- Bitsets.Bitset.Count: returns an unbounded `nat`; its ensures proves the
  result is below `2^64`, so the `uint64_t` accumulator never wraps.

## Findings

| source | as written | input that shows it | evidently intended | confidence | as-written member | corrected member |
|---|---|---|---|---|---|---|
| bitset.hh:92 | the thread-safe `flip(n)` xors word `n / 32` with `~mask(n)` | a `bitset<true>` of 2 positions, both clear: `flip(0)` leaves bit 0 clear, sets bit 1, and sets the 30 padding bits of the word | xor with `mask(n)`, as the plain `flip` does at bitset.hh:86, negating position `n` only | high; not executed | `Layout.AtomicFlipDefect` | `Layout.FlipBitDecode` |

The class keeps the as-written behaviour in `Bitsets.Bitset.AtomicFlip`, which
`Flip` runs when `threadSafe` holds. Its contract states what that code does.
The intended effect is that of `Layout.FlipBit`: an atomic xor with `mask(n)`
changes the same word in the same way as the plain `^=`. `Layout.FlipBitDecode`
and `Layout.FlipBitInvolution` prove that this effect negates exactly position
`n` and undoes itself.
