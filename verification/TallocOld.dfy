/**
 * The earlier buddy allocator, `Talloc` of kernel/src/memman/talloc.rs.
 *
 * Its books are those of TallocNew: `avails` (bit g set while the free list
 * of granularity g is not empty), one free list per granularity read from
 * its sentinel, and a parity bitmap with one bit per buddy pair. Here the
 * bitmap is a slice of `u64` words, the addresses are `u64` values, and the
 * arena starts out entirely reserved: `release` hands memory to the books,
 * `reserve` takes it back. Panics follow a build with debug assertions:
 * `debug_assert!` and integer overflow both panic.
 *
 * The layout rounding, the power-of-two helpers, the rounding of bounds and
 * the blocks of the release loop are the same code in both files and are
 * taken from Powers and TallocNew.
 */
module TallocOld {
  import opened Wrappers
  import opened Powers
  import Arith
  import N = TallocNew

  /** `size_of::<LlistNode<()>>()`: two pointers. */
  const NODE_SIZE: nat := 16
  /** `1 << 63`, the largest arena whose next power of two is a `u64`. */
  const MAX_ARENA: nat := 0x8000_0000_0000_0000

  /** The arena fields `new` fixes; the field `arena_size_pow2_lzcnt` is `LeadingZeros(pow2)`. */
  type Arena = N.Arena

  /** What `new` lets through: the asserts of `validate_arena_args`, `slice_arg_sizes` and the overflow assert. */
  predicate ArenaOk(ar: Arena) {
    0 < ar.size <= MAX_ARENA && ar.pow2 == NextPow2(ar.size)
    && IsPow2(ar.smlst) && NODE_SIZE <= ar.smlst <= ar.pow2
    && 0 <= ar.base && ar.base + ar.size <= U64_LIMIT
  }

  lemma ArenaFacts(ar: Arena)
    requires ArenaOk(ar)
    ensures IsPow2(ar.pow2) && ar.size <= ar.pow2 <= MAX_ARENA
    ensures 4 <= Log2(ar.smlst) <= Log2(ar.pow2) <= 63
    ensures Pow2(Log2(ar.pow2)) == ar.pow2 && Pow2(Log2(ar.smlst)) == ar.smlst
  {
    Pow2Of64();
    NextPow2Bounds(ar.size);
    NextPow2Least(ar.size, 63);
    Log2Mono(ar.smlst, ar.pow2);
    Log2Mono(ar.pow2, MAX_ARENA);
    Log2Pow2(63);
    Log2Mono(NODE_SIZE, ar.smlst);
    assert Pow2(4) == NODE_SIZE;
    Log2Pow2(4);
  }

  /** The number of granularities, which is `slice_arg_sizes`' list count. */
  function Levels(ar: Arena): (r: nat)
    requires ArenaOk(ar)
    ensures 1 <= r <= 60
  {
    ArenaFacts(ar);
    Log2(ar.pow2) - Log2(ar.smlst) + 1
  }

  /** Every granularity's blocks are powers of two between the smallest block and the arena's power of two. */
  lemma BlockSizeAt(ar: Arena, g: nat)
    requires ArenaOk(ar) && g < Levels(ar)
    ensures N.BlockSize(ar, g) == Pow2(Log2(ar.pow2) - g)
    ensures IsPow2(N.BlockSize(ar, g)) && ar.smlst <= N.BlockSize(ar, g) <= ar.pow2 <= MAX_ARENA
    ensures N.BlockSize(ar, g) == 2 * N.BlockSize(ar, g + 1)
  {
    ArenaFacts(ar);
    N.BlockSizeExp(ar, g);
    N.BlockSizeHalves(ar, g);
    N.Pow2Between(Log2(ar.pow2), Log2(ar.smlst), g);
  }

  /** The block size of a granularity is a `u64` and halves at the next one. */
  lemma BlockSizeFacts(ar: Arena, g: nat)
    requires ArenaOk(ar) && g < Levels(ar)
    ensures IsPow2(N.BlockSize(ar, g)) && ar.smlst <= N.BlockSize(ar, g) <= ar.pow2 && N.BlockSize(ar, g) < U64_LIMIT
  {
    BlockSizeAt(ar, g);
  }

  lemma BlockSizeStep(ar: Arena, g: nat)
    requires ArenaOk(ar) && g < Levels(ar)
    ensures 0 < N.BlockSize(ar, g) < U64_LIMIT && N.BlockSize(ar, g) == 2 * N.BlockSize(ar, g + 1)
  {
    BlockSizeAt(ar, g);
  }

  /**
   * `block_granularity`: `size.leading_zeros() - arena_size_pow2_lzcnt`. A
   * size above the arena's power of two underflows the `u32` subtraction,
   * which the callers model as a panic.
   */
  function Granularity(ar: Arena, size: nat): (r: nat)
    requires ArenaOk(ar) && 0 < size <= ar.pow2
    ensures r == Log2(ar.pow2) - Log2(size)
  {
    ArenaFacts(ar);
    Pow2Of64();
    Log2Mono(size, ar.pow2);
    LeadingZeros(size) - LeadingZeros(ar.pow2)
  }

  /** A block size the arena has is the block size of its granularity. */
  lemma GranularityOfSize(ar: Arena, size: nat)
    requires ArenaOk(ar) && IsPow2(size) && ar.smlst <= size <= ar.pow2
    ensures Granularity(ar, size) < Levels(ar)
    ensures N.BlockSize(ar, Granularity(ar, size)) == size
  {
    var g := Granularity(ar, size);
    Log2Mono(ar.smlst, size);
    assert g < Levels(ar);
    BlockSizeAt(ar, g);
    assert Log2(ar.pow2) - g == Log2(size);
  }

  /** Larger blocks have smaller granularities. */
  lemma BlockSizeOrder(ar: Arena, j: nat, g: nat)
    requires ArenaOk(ar) && j < Levels(ar) && g < Levels(ar)
    ensures N.BlockSize(ar, j) >= N.BlockSize(ar, g) <==> j <= g
  {
    ArenaFacts(ar);
    N.BlockSizeExp(ar, j);
    N.BlockSizeExp(ar, g);
    Pow2BelowOrder(Log2(ar.pow2), j, g);
  }

  /** The smallest block is an operand `layout_to_size`'s rounding accepts. */
  lemma SmallestBlockFits(ar: Arena)
    requires ArenaOk(ar)
    ensures ar.smlst <= 0x8000_0000_0000_0000
  {
    ArenaFacts(ar);
  }

  // The buddy-parity bitmap.

  /**
   * `read_bitflag`: bit `off & 63` of word `off / 64`. The words are laid
   * out as one sequence of bits, bit i of word w at 64 * w + i, so this is
   * the bit at `off`. An offset past the end (undefined behaviour in the
   * source) reads as clear.
   */
  predicate ReadBit(bm: seq<bool>, off: nat) {
    off < |bm| && bm[off]
  }

  /** `toggle_bitflag`: flip the bit at `off`; an offset past the end changes nothing. */
  function ToggleBit(bm: seq<bool>, off: nat): (r: seq<bool>)
    ensures |r| == |bm|
    ensures forall k :: 0 <= k < |bm| ==> ReadBit(r, k) == (ReadBit(bm, k) != (k == off))
  {
    if off < |bm| then bm[off := !bm[off]] else bm
  }

  /**
   * `bitmap_offset` as written: the arena base rounded down to the block
   * size (not twice it), the block's distance from that plus the arena's
   * power of two, shifted right by one more than the size's logarithm.
   */
  function BitmapOffsetAsWritten(ar: Arena, b: int, size: nat): nat
    requires 0 < size < U64_LIMIT
  {
    var aligned := N.RoundDown(ar.base, size);
    Shr((b - aligned + ar.pow2) % U64_LIMIT, FastLog2(size) + 1)
  }

  /**
   * `bitmap_offset` with the arena base rounded down to twice the block
   * size, the size of a buddy pair, as the later allocator does; the rest
   * of the model uses this one.
   */
  function BitmapOffset(ar: Arena, b: int, size: nat): nat
    requires 0 < size < U64_LIMIT
  {
    var aligned := N.RoundDown(ar.base, 2 * size);
    Shr((b - aligned + ar.pow2) % U64_LIMIT, FastLog2(size) + 1)
  }

  /** The two buddies of a pair share their parity bit. */
  lemma BuddiesShareBit(ar: Arena, b: int, size: nat)
    requires ArenaOk(ar) && IsPow2(size) && 2 * size <= ar.pow2 && b % (2 * size) == 0
    ensures size < U64_LIMIT && BitmapOffset(ar, b, size) == BitmapOffset(ar, b + size, size)
  {
    ArenaFacts(ar);
    PairSizeFacts(size);
    Pow2DividesLarger(2 * size, ar.pow2);
    PairBit(ar, b, size);
  }

  /** BuddiesShareBit for any arena whose power of two is a multiple of the pair size. */
  lemma PairBit(ar: Arena, b: int, size: nat)
    requires 0 < size < U64_LIMIT && Pow2(FastLog2(size) + 1) == 2 * size && U64_LIMIT % (2 * size) == 0
    requires ar.pow2 % (2 * size) == 0 && b % (2 * size) == 0
    ensures BitmapOffset(ar, b, size) == BitmapOffset(ar, b + size, size)
  {
    var x := PairDistance(ar.base, ar.pow2, b, size);
    PairShareShift(x, size, FastLog2(size));
    assert b + size - N.RoundDown(ar.base, 2 * size) + ar.pow2 == x + size;
  }

  /** A pair of blocks of `size` bytes is a power of two that divides 2^64, and its logarithm is one more. */
  lemma PairSizeFacts(size: nat)
    requires IsPow2(size) && size <= 0x4000_0000_0000_0000
    ensures size < U64_LIMIT && IsPow2(2 * size)
    ensures Pow2(FastLog2(size) + 1) == 2 * size && U64_LIMIT % (2 * size) == 0
  {
    Pow2Of64();
    FastLog2Bounds(size);
    Pow2IsPow2(FastLog2(size) + 1);
    Pow2IsPow2(64);
    Pow2DividesLarger(2 * size, U64_LIMIT);
  }

  /** The distance of a buddy-aligned block from the pair-aligned base, plus a pair multiple, is a pair multiple. */
  lemma PairDistance(base: int, pow2: nat, b: int, size: nat) returns (x: int)
    requires size > 0 && b % (2 * size) == 0 && pow2 % (2 * size) == 0
    ensures x == b - N.RoundDown(base, 2 * size) + pow2 && x % (2 * size) == 0
  {
    var aligned := N.RoundDown(base, 2 * size);
    Arith.MultipleSum(b, aligned, 2 * size);
    Arith.MultipleSum(b - aligned, pow2, 2 * size);
    x := b - aligned + pow2;
  }

  /** A multiple of 2s and the same plus s agree once wrapped to a `u64` and shifted right by log2(s) + 1. */
  lemma PairShareShift(x: int, s: nat, k: nat)
    requires Pow2(k + 1) == 2 * s && x % (2 * s) == 0 && U64_LIMIT % (2 * s) == 0
    ensures Shr(x % U64_LIMIT, k + 1) == Shr((x + s) % U64_LIMIT, k + 1)
  {
    var y := x % U64_LIMIT;
    PairWrap(x, s);
    var q := y / (2 * s);
    assert y == (2 * s) * q;
    Arith.DivUnique(y + s, 2 * s, q, s);
    ShrDiv(y, k + 1);
    ShrDiv(y + s, k + 1);
  }

  /** Wrapping to a `u64` keeps a multiple of 2s one, and adding s does not wrap past it. */
  lemma PairWrap(x: int, s: nat)
    requires s > 0 && x % (2 * s) == 0 && U64_LIMIT % (2 * s) == 0
    ensures (x % U64_LIMIT) % (2 * s) == 0 && (x + s) % U64_LIMIT == x % U64_LIMIT + s
  {
    var y := x % U64_LIMIT;
    var m := x / U64_LIMIT;
    var t := U64_LIMIT / (2 * s);
    assert U64_LIMIT == (2 * s) * t;
    assert x == U64_LIMIT * m + y;
    assert U64_LIMIT * m == (2 * s) * (t * m);
    DivExact(U64_LIMIT * m, 2 * s, t * m);
    Arith.MultipleSum(x, U64_LIMIT * m, 2 * s);
    Arith.MultipleSum(U64_LIMIT, y, 2 * s);
    if y + s >= U64_LIMIT {
      Arith.MultipleAbove(U64_LIMIT - y, 2 * s);
    }
    Arith.DivUnique(x + s, U64_LIMIT, m, y + s);
  }

  /** An arena of 64 bytes whose base, 16, is an odd multiple of its smallest block. */
  const ODD_BASE_ARENA: Arena := N.Arena(16, 64, 64, 16)

  lemma OddBaseArenaOk()
    ensures ArenaOk(ODD_BASE_ARENA)
  {
    Pow2Of64();
    assert Pow2(4) == 16 && Pow2(6) == 64;
    Log2Pow2(4);
    Log2Pow2(6);
    NextPow2Log(64);
    assert Log2(63) == 5 by { Log2Unique(63, 5); }
  }

  /** As written, the buddies at 32 and 48 of the arena based at 16 get two different bits. */
  lemma BitmapOffsetAsWrittenSplitsBuddies()
    ensures BitmapOffsetAsWritten(ODD_BASE_ARENA, 32, 16) == 2
    ensures BitmapOffsetAsWritten(ODD_BASE_ARENA, 48, 16) == 3
    ensures BitmapOffset(ODD_BASE_ARENA, 32, 16) == BitmapOffset(ODD_BASE_ARENA, 48, 16) == 3
  {
    Log2Of16();
    assert N.RoundDown(16, 16) == 16;
    assert N.RoundDown(16, 32) == 0;
    ShrDiv(80, 5);
    ShrDiv(96, 5);
    ShrDiv(112, 5);
  }

  lemma Log2Of16()
    ensures FastLog2(16) == 4 && Pow2(5) == 32
  {
    Pow2Of64();
    FastLog2Bounds(16);
    Log2Pow2(4);
  }

  // The books.

  /** The books: the availability bits, the free lists and the parity bits. */
  datatype Books = Books(avails: seq<bool>, lists: seq<seq<int>>, bitmap: seq<bool>)

  /** `avails` bit g is set exactly while free list g is not empty. */
  predicate AvailsAgree(bk: Books)
    requires |bk.avails| == 64
  {
    forall g :: 0 <= g < 64 ==> bk.avails[g] == (g < |bk.lists| && bk.lists[g] != [])
  }

  /** The books' shape: a 64-bit `avails`, one list per granularity, a bit per buddy-pair slot. */
  predicate BooksOk(ar: Arena, bk: Books)
    requires ArenaOk(ar)
  {
    |bk.avails| == 64 && |bk.lists| == Levels(ar) && Pow2(Levels(ar)) <= |bk.bitmap|
    && AvailsAgree(bk)
  }

  /** `l` without the first occurrence of `x`. */
  function Without(l: seq<int>, x: int): (r: seq<int>)
    requires x in l
    ensures |r| == |l| - 1
  {
    var i := N.IndexOf(l, x);
    l[..i] + l[i + 1..]
  }

  /** Taking `x` out of `l` removes one occurrence of it and keeps the rest. */
  lemma WithoutCount(l: seq<int>, x: int)
    requires x in l
    ensures multiset(Without(l, x)) == multiset(l) - multiset{x}
  {
    var i := N.IndexOf(l, x);
    assert l == l[..i] + [x] + l[i + 1..];
  }

  /** `add_block_next`: set the avails bit, push the node after the sentinel, toggle its bit. */
  function AddBlockNextSpec(ar: Arena, bk: Books, g: nat, off: nat, node: int): (r: Books)
    requires ArenaOk(ar) && BooksOk(ar, bk) && g < |bk.lists|
    ensures BooksOk(ar, r) && r.avails[g]
  {
    Books(bk.avails[g := true], bk.lists[g := [node] + bk.lists[g]], ToggleBit(bk.bitmap, off))
  }

  /**
   * `remove_block_next`: unlink the node after the sentinel, clear the
   * avails bit when it was the last one, toggle its bit, and return it.
   */
  function RemoveBlockNextSpec(ar: Arena, bk: Books, g: nat, size: nat): (r: (Books, int))
    requires ArenaOk(ar) && BooksOk(ar, bk) && g < |bk.lists| && bk.lists[g] != []
    requires 0 < size < U64_LIMIT
    ensures BooksOk(ar, r.0)
    ensures r.1 == bk.lists[g][0] && r.0.lists[g] == bk.lists[g][1..]
    ensures r.0.avails[g] == (|bk.lists[g]| > 1)
  {
    var l := bk.lists[g];
    var node := l[0];
    (Books(if |l| == 1 then bk.avails[g := false] else bk.avails,
           bk.lists[g := l[1..]],
           ToggleBit(bk.bitmap, BitmapOffset(ar, node, size))),
     node)
  }

  /** `remove_block`: unlink a given node, clear the avails bit when it was the last one, toggle its bit. */
  function RemoveBlockSpec(ar: Arena, bk: Books, g: nat, off: nat, node: int): (r: Books)
    requires ArenaOk(ar) && BooksOk(ar, bk) && g < |bk.lists| && node in bk.lists[g]
    ensures BooksOk(ar, r)
    ensures r.lists[g] == Without(bk.lists[g], node)
    ensures r.avails[g] == (|bk.lists[g]| > 1)
  {
    var l := bk.lists[g];
    Books(if |l| == 1 then bk.avails[g := false] else bk.avails,
          bk.lists[g := Without(l, node)],
          ToggleBit(bk.bitmap, off))
  }

  /** `remove_block` changes only the list of its own granularity. */
  lemma RemoveBlockKeeps(ar: Arena, bk: Books, g: nat, off: nat, node: int, h: nat)
    requires ArenaOk(ar) && BooksOk(ar, bk) && g < |bk.lists| && node in bk.lists[g] && h < |bk.lists| && h != g
    ensures RemoveBlockSpec(ar, bk, g, off, node).lists[h] == bk.lists[h]
  {
  }

  // `alloc`, `dealloc`, `shrink`, `grow`.

  /** The block size of a layout: the largest of its next power of two, its alignment and the smallest block. */
  function LayoutSize(ar: Arena, l: N.Layout): (r: nat)
    requires ArenaOk(ar) && l.size > 0 && N.LayoutOk(l)
    ensures IsPow2(r) && r >= l.size && r >= l.align && r >= ar.smlst
  {
    SmallestBlockFits(ar);
    N.LayoutToSize(ar.smlst, l)
  }

  /**
   * The splitting loop of `alloc` and `shrink`: for each granularity hg
   * from `hg` to `g`, free the upper half of the block at `base`, of
   * `arena_size_pow2 >> hg` bytes.
   */
  function SplitSpec(ar: Arena, bk: Books, base: int, hg: nat, g: nat): (r: Books)
    requires ArenaOk(ar) && BooksOk(ar, bk) && g < Levels(ar)
    ensures BooksOk(ar, r)
    decreases g + 1 - hg, 1
  {
    if hg > g then bk else SplitRoundSpec(ar, bk, base, hg, g)
  }

  /** One round of the splitting loop: free the upper half at granularity hg and go on. */
  function SplitRoundSpec(ar: Arena, bk: Books, base: int, hg: nat, g: nat): (r: Books)
    requires ArenaOk(ar) && BooksOk(ar, bk) && hg <= g < Levels(ar)
    ensures BooksOk(ar, r)
    decreases g + 1 - hg, 0
  {
    BlockSizeStep(ar, hg);
    var hi := N.BlockSize(ar, hg);
    SplitSpec(ar, AddBlockNextSpec(ar, bk, hg, BitmapOffset(ar, base + hi, hi), base + hi), base, hg + 1, g)
  }

  /**
   * `alloc`: the block size for the layout, whose granularity underflows
   * (a panic) when it exceeds the arena's power of two. A block of the
   * granularity is taken when its list is not empty; otherwise the
   * smallest larger available block is taken and split down, or there is
   * no block (the null pointer).
   */
  function AllocSpec(ar: Arena, bk: Books, l: N.Layout): (r: Result<(Option<int>, Books)>)
    requires ArenaOk(ar) && BooksOk(ar, bk) && l.size > 0 && N.LayoutOk(l)
    ensures r.Ok? ==> BooksOk(ar, r.value.1)
  {
    var size := LayoutSize(ar, l);
    if size > ar.pow2 then Panic
    else
      GranularityOfSize(ar, size);
      var g := Granularity(ar, size);
      ArenaFacts(ar);
      if bk.avails[g] then
        assert bk.lists[g] != [];
        var taken := RemoveBlockNextSpec(ar, bk, g, size);
        Ok((Some(taken.1), taken.0))
      else Ok(AllocLargerSpec(ar, bk, g))
  }

  /**
   * `alloc` when granularity g has no free block: the highest set avails
   * bit below g (`avails & blsmsk(1 << g)`, then `fast_non0_log2`) names
   * the smallest larger available block, which is taken and split down.
   */
  function AllocLargerSpec(ar: Arena, bk: Books, g: nat): (r: (Option<int>, Books))
    requires ArenaOk(ar) && BooksOk(ar, bk) && g < Levels(ar)
    ensures BooksOk(ar, r.1)
    ensures r.0.None? <==> forall j :: 0 <= j < g ==> !bk.avails[j]
  {
    match N.HighestBelow(bk.avails, g)
    case None => (None, bk)
    case Some(lg) => TakeAndSplitSpec(ar, bk, lg, g)
  }

  /** The first block of the non-empty list lg, unlinked and split down to granularity g. */
  function TakeAndSplitSpec(ar: Arena, bk: Books, lg: nat, g: nat): (r: (Option<int>, Books))
    requires ArenaOk(ar) && BooksOk(ar, bk) && lg < g < Levels(ar) && bk.avails[lg]
    ensures BooksOk(ar, r.1) && r.0 == Some(bk.lists[lg][0])
  {
    BlockSizeStep(ar, lg);
    var taken := RemoveBlockNextSpec(ar, bk, lg, N.BlockSize(ar, lg));
    (Some(taken.1), SplitSpec(ar, taken.0, taken.1, lg + 1, g))
  }

  /**
   * The merging loop of `dealloc` at granularity g: while the parity bit of
   * the block's pair is set, unlink the buddy and continue with the merged
   * block one granularity up; then free the block. A buddy that is not on
   * its list (undefined behaviour) and a merge past granularity 0 (the
   * `granularity -= 1` underflow) are panics.
   */
  function MergeSpec(ar: Arena, bk: Books, p: int, g: nat): (r: Result<Books>)
    requires ArenaOk(ar) && BooksOk(ar, bk) && g < Levels(ar)
    ensures r.Ok? ==> BooksOk(ar, r.value)
    decreases g, 1
  {
    BlockSizeStep(ar, g);
    var size := N.BlockSize(ar, g);
    var off := BitmapOffset(ar, p, size);
    if !ReadBit(bk.bitmap, off) then Ok(AddBlockNextSpec(ar, bk, g, off, p))
    else MergeBuddy(ar, bk, p, g, size, off)
  }

  /** A round of the merging loop whose parity bit is set. */
  function MergeBuddy(ar: Arena, bk: Books, p: int, g: nat, size: nat, off: nat): (r: Result<Books>)
    requires ArenaOk(ar) && BooksOk(ar, bk) && g < Levels(ar) && size > 0
    ensures r.Ok? ==> BooksOk(ar, r.value)
    decreases g, 0
  {
    var lower := N.IsLowerBuddy(p, size);
    var buddy := if lower then p + size else p - size;
    var next := if lower then p else p - size;
    if buddy !in bk.lists[g] || g == 0 then Panic
    else MergeSpec(ar, RemoveBlockSpec(ar, bk, g, off, buddy), next, g - 1)
  }

  /** `dealloc`: the block size for the layout, its granularity, and the merging loop. */
  function DeallocSpec(ar: Arena, bk: Books, p: int, l: N.Layout): (r: Result<Books>)
    requires ArenaOk(ar) && BooksOk(ar, bk) && l.size > 0 && N.LayoutOk(l)
    ensures r.Ok? ==> BooksOk(ar, r.value)
  {
    var size := LayoutSize(ar, l);
    if size > ar.pow2 then Panic
    else
      GranularityOfSize(ar, size);
      MergeSpec(ar, bk, p, Granularity(ar, size))
  }

  /**
   * `shrink`: nothing unless the new block size is smaller; then the upper
   * halves from below the old granularity down to the new one are freed.
   */
  function ShrinkSpec(ar: Arena, bk: Books, p: int, oldL: N.Layout, newL: N.Layout): (r: Result<Books>)
    requires ArenaOk(ar) && BooksOk(ar, bk)
    requires oldL.size > 0 && N.LayoutOk(oldL) && newL.size > 0 && N.LayoutOk(newL)
    ensures r.Ok? ==> BooksOk(ar, r.value)
  {
    var o := LayoutSize(ar, oldL);
    var t := LayoutSize(ar, newL);
    if t >= o then Ok(bk)
    else if o > ar.pow2 then Panic
    else
      GranularityOfSize(ar, o);
      GranularityOfSize(ar, t);
      Ok(SplitSpec(ar, bk, p, Granularity(ar, o) + 1, Granularity(ar, t)))
  }

  /**
   * The first loop of `grow`: from granularity g down to just below ng the
   * block at `p` must be the lower buddy, with its parity bit set (its
   * upper buddy free), for the block to grow in place.
   */
  predicate GrowFits(ar: Arena, bk: Books, p: int, g: nat, ng: nat)
    requires ArenaOk(ar) && g < Levels(ar)
    decreases g
  {
    BlockSizeStep(ar, g);
    var size := N.BlockSize(ar, g);
    g <= ng || (N.IsLowerBuddy(p, size) && ReadBit(bk.bitmap, BitmapOffset(ar, p, size)) && GrowFits(ar, bk, p, g - 1, ng))
  }

  /**
   * The second loop of `grow`: unlink the upper buddy at `p + size` of
   * each granularity from g down to just below ng; one missing from its
   * list is undefined behaviour, a panic here.
   */
  function GrowTake(ar: Arena, bk: Books, p: int, g: nat, ng: nat): (r: Result<Books>)
    requires ArenaOk(ar) && BooksOk(ar, bk) && g < Levels(ar)
    ensures r.Ok? ==> BooksOk(ar, r.value)
    decreases g, 1
  {
    if g <= ng then Ok(bk) else GrowTakeRound(ar, bk, p, g, ng)
  }

  /** One round of the second loop of `grow`: unlink the upper buddy at granularity g and go on. */
  function GrowTakeRound(ar: Arena, bk: Books, p: int, g: nat, ng: nat): (r: Result<Books>)
    requires ArenaOk(ar) && BooksOk(ar, bk) && ng < g < Levels(ar)
    ensures r.Ok? ==> BooksOk(ar, r.value)
    decreases g, 0
  {
    BlockSizeStep(ar, g);
    var size := N.BlockSize(ar, g);
    if p + size !in bk.lists[g] then Panic
    else GrowTake(ar, RemoveBlockSpec(ar, bk, g, BitmapOffset(ar, p, size), p + size), p, g - 1, ng)
  }

  /**
   * The slow path of `grow`: `alloc` of the new layout and, when that gave
   * a block, `dealloc` of the old one (the copy of the contents between
   * them is not modelled).
   */
  function GrowMove(ar: Arena, bk: Books, p: int, oldL: N.Layout, newL: N.Layout): (r: Result<(Option<int>, Books)>)
    requires ArenaOk(ar) && BooksOk(ar, bk)
    requires oldL.size > 0 && N.LayoutOk(oldL) && newL.size > 0 && N.LayoutOk(newL)
    ensures r.Ok? ==> BooksOk(ar, r.value.1)
  {
    match AllocSpec(ar, bk, newL)
    case Panic => Panic
    case Ok((q, bk1)) =>
      if q.None? then Ok((None, bk1))
      else match DeallocSpec(ar, bk1, p, oldL)
        case Panic => Panic
        case Ok(bk2) => Ok((q, bk2))
  }

  /**
   * `grow`: both granularities are computed first (a panic when a block
   * size exceeds the arena's power of two); a new block size no larger
   * keeps the block; otherwise the block grows in place when its upper
   * buddies are free, else it moves.
   */
  function GrowSpec(ar: Arena, bk: Books, p: int, oldL: N.Layout, newL: N.Layout): (r: Result<(Option<int>, Books)>)
    requires ArenaOk(ar) && BooksOk(ar, bk)
    requires oldL.size > 0 && N.LayoutOk(oldL) && newL.size > 0 && N.LayoutOk(newL)
    ensures r.Ok? ==> BooksOk(ar, r.value.1)
  {
    var o := LayoutSize(ar, oldL);
    var t := LayoutSize(ar, newL);
    if o > ar.pow2 || t > ar.pow2 then Panic
    else
      GranularityOfSize(ar, o);
      GranularityOfSize(ar, t);
      var og := Granularity(ar, o);
      var ng := Granularity(ar, t);
      if t <= o then Ok((Some(p), bk))
      else if GrowFits(ar, bk, p, og, ng) then
        match GrowTake(ar, bk, p, og, ng)
        case Panic => Panic
        case Ok(bk1) => Ok((Some(p), bk1))
      else GrowMove(ar, bk, p, oldL, newL)
  }

  // `release`.

  /** `a.saturating_add(b)` on `u64`. */
  function SaturatingAdd(a: nat, b: nat): (r: nat)
    ensures r == if a + b < U64_LIMIT then a + b else U64_LIMIT - 1
  {
    if a + b < U64_LIMIT then a + b else U64_LIMIT - 1
  }

  /**
   * The debug asserts of `release` on the span [mb, ma): no block against
   * the top of the address space, inside the arena, aligned to the
   * smallest block.
   */
  predicate ReleaseArgsOk(ar: Arena, mb: nat, ma: nat)
    requires ArenaOk(ar)
  {
    ma + ar.smlst < U64_LIMIT && mb >= ar.base && ma <= SaturatingAdd(ar.base, ar.size)
    && mb % ar.smlst == 0 && ma % ar.smlst == 0
  }

  /**
   * The ascending test of the loop of `release`, as written:
   * `1 << trailing_zeros` of the base (a shift by 64, a panic, at address
   * 0), then `base + block_size <= mem_acme`, whose sum overflows (a
   * panic) when the block reaches the top of the address space.
   */
  function AscendingFitsAsWritten(b: nat, ma: nat): (r: Result<bool>)
    requires b < U64_LIMIT
  {
    if b == 0 then Panic
    else if b + N.LowBit(b) >= U64_LIMIT then Panic
    else Ok(b + N.LowBit(b) <= ma)
  }

  /** The ascending test compared without overflow: `block_size <= mem_acme - base`. */
  function AscendingFits(b: nat, ma: nat): (r: Result<bool>)
    requires b < U64_LIMIT
  {
    if b == 0 then Panic
    else Ok(b <= ma && N.LowBit(b) <= ma - b)
  }

  /** Away from the top of the address space both tests agree; the intended one panics only at address 0. */
  lemma AscendingFitsAgrees(b: nat, ma: nat)
    requires b < U64_LIMIT
    ensures AscendingFits(b, ma).Ok? <==> b != 0
    ensures AscendingFits(b, ma).Ok? ==> (AscendingFits(b, ma).value <==> b + N.LowBit(b) <= ma)
    ensures b + N.LowBit(b) < U64_LIMIT ==> AscendingFitsAsWritten(b, ma) == AscendingFits(b, ma)
  {
  }

  /** The start of the higher half of the canonical 48-bit address space, aligned to 2^47. */
  const HIGHER_HALF: nat := 0xFFFF_8000_0000_0000

  /**
   * As written, `release` of a span at the start of the higher half
   * panics on its first test: the block there is 2^47 bytes, and base
   * plus block size is 2^64. The intended test turns to descending blocks.
   */
  lemma AscendingFitsAsWrittenOverflows()
    ensures AscendingFitsAsWritten(HIGHER_HALF, HIGHER_HALF + 0x10_0000) == Panic
    ensures AscendingFits(HIGHER_HALF, HIGHER_HALF + 0x10_0000) == Ok(false)
  {
    LowBitOfHigherHalf();
  }

  lemma LowBitOfHigherHalf()
    ensures N.LowBit(HIGHER_HALF) == 0x8000_0000_0000
  {
    Pow2Of47();
    TrailingZerosOf(HIGHER_HALF, 47, 0x1_FFFF);
  }

  lemma Pow2Of47()
    ensures Pow2(47) == 0x8000_0000_0000
  {
    Pow2Of64();
    assert Pow2(48) == 2 * Pow2(47);
  }

  /**
   * `dealloc` of each block of the loop of `release` in turn, with a
   * `Layout` of the block's size and alignment 1; the first panic stops
   * it. A block larger than any layout's size is a panic.
   */
  function DeallocAll(ar: Arena, bk: Books, blocks: seq<(int, nat)>): (r: Result<Books>)
    requires ArenaOk(ar) && BooksOk(ar, bk)
    ensures r.Ok? ==> BooksOk(ar, r.value)
    decreases |blocks|, 2
  {
    if blocks == [] then Ok(bk) else DeallocFirst(ar, bk, blocks)
  }

  /** `dealloc` of the first block, then of the rest. */
  function DeallocFirst(ar: Arena, bk: Books, blocks: seq<(int, nat)>): (r: Result<Books>)
    requires ArenaOk(ar) && BooksOk(ar, bk) && blocks != []
    ensures r.Ok? ==> BooksOk(ar, r.value)
    decreases |blocks|, 1
  {
    DeallocThen(ar, bk, blocks[0].0, blocks[0].1, blocks[1..])
  }

  /** `dealloc` of one block, then of the blocks after it. */
  function DeallocThen(ar: Arena, bk: Books, b: int, bs: nat, rest: seq<(int, nat)>): (r: Result<Books>)
    requires ArenaOk(ar) && BooksOk(ar, bk)
    ensures r.Ok? ==> BooksOk(ar, r.value)
    decreases |rest| + 1, 0
  {
    Pow2IsPow2(0);
    if !(0 < bs <= N.ISIZE_MAX) then Panic
    else match DeallocSpec(ar, bk, b, N.Layout(bs, 1))
    case Panic => Panic
    case Ok(bk1) => DeallocAll(ar, bk1, rest)
  }

  /** `dealloc` of the first block, then of the rest. */
  lemma DeallocAllStep(ar: Arena, bk: Books, b: int, bs: nat, rest: seq<(int, nat)>)
    requires ArenaOk(ar) && BooksOk(ar, bk)
    ensures DeallocAll(ar, bk, [(b, bs)] + rest) == DeallocThen(ar, bk, b, bs, rest)
  {
    assert ([(b, bs)] + rest)[1..] == rest;
  }

  /**
   * `release` of [mb, ma): the debug asserts, then the loop with the
   * intended ascending test: ascending blocks as large as their base's
   * alignment allows while they fit, then descending ones of the previous
   * power of two of the distance left while that is at least the smallest
   * block, each handed to `dealloc`. A base of 0 and a span whose start
   * lies above its end (`mem_acme - base` underflows) panic.
   */
  function ReleaseSpec(ar: Arena, bk: Books, mb: nat, ma: nat): (r: Result<Books>)
    requires ArenaOk(ar) && BooksOk(ar, bk) && mb < U64_LIMIT && ma < U64_LIMIT
    ensures r.Ok? ==> BooksOk(ar, r.value)
  {
    if !ReleaseArgsOk(ar, mb, ma) || mb == 0 || mb > ma then Panic
    else
      ArenaFacts(ar);
      DeallocAll(ar, bk, N.ReleaseBlocks(mb, ma, ar.smlst, true))
  }

  /**
   * `release` of an aligned span inside the arena hands `dealloc` blocks
   * that tile the span exactly, each a power of two of at least the
   * smallest block at a base aligned to its size.
   */
  lemma ReleaseCovers(ar: Arena, bk: Books, mb: nat, ma: nat)
    requires ArenaOk(ar) && BooksOk(ar, bk) && mb < U64_LIMIT && ma < U64_LIMIT
    requires ReleaseArgsOk(ar, mb, ma) && 0 < mb <= ma
    ensures IsPow2(ar.smlst)
    ensures var blocks := N.ReleaseBlocks(mb, ma, ar.smlst, true);
      && ReleaseSpec(ar, bk, mb, ma) == DeallocAll(ar, bk, blocks)
      && N.Tiles(blocks, mb, ma) && N.BuddyBlocks(blocks, ar.smlst)
  {
    N.ReleaseBlocksTile(mb, ma, ar.smlst);
  }

  // `reserve`.

  /**
   * The debug asserts of `reserve` on the span [mb, ma): no block against
   * the top of the address space, inside the arena less its last smallest
   * block (`arena_size - smlst` underflowing is a panic too), aligned.
   */
  predicate ReserveArgsOk(ar: Arena, mb: nat, ma: nat)
    requires ArenaOk(ar)
  {
    ma + ar.smlst < U64_LIMIT && ar.smlst <= ar.size && mb >= ar.base && ma <= ar.base + (ar.size - ar.smlst)
    && mb % ar.smlst == 0 && ma % ar.smlst == 0
  }

  /**
   * The blocks the restore-low loop of `reserve` frees, as (base, size):
   * from `b` up, each the previous power of two of the distance `delta`
   * left.
   */
  function LowBlocks(b: int, delta: nat): (r: seq<(int, nat)>)
    requires delta < U64_LIMIT
    ensures forall i :: 0 <= i < |r| ==> 0 < r[i].1 <= delta
    decreases delta, 1
  {
    if delta == 0 then [] else LowBlocksFrom(b, delta)
  }

  /** The first block and the rest, for a distance left that is not 0. */
  function LowBlocksFrom(b: int, delta: nat): (r: seq<(int, nat)>)
    requires 0 < delta < U64_LIMIT
    ensures forall i :: 0 <= i < |r| ==> 0 < r[i].1 <= delta
    decreases delta, 0
  {
    PrevPow2Bounds(delta);
    var s := PrevPow2(delta);
    [(b, s)] + LowBlocks(b + s, delta - s)
  }

  /**
   * The blocks the restore-high loop of `reserve` frees, as (base, size):
   * from `a` down, each the previous power of two of the distance `delta`
   * left.
   */
  function HighBlocks(a: int, delta: nat): (r: seq<(int, nat)>)
    requires delta < U64_LIMIT
    ensures forall i :: 0 <= i < |r| ==> 0 < r[i].1 <= delta
    decreases delta, 1
  {
    if delta == 0 then [] else HighBlocksFrom(a, delta)
  }

  /** The first block and the rest, for a distance left that is not 0. */
  function HighBlocksFrom(a: int, delta: nat): (r: seq<(int, nat)>)
    requires 0 < delta < U64_LIMIT
    ensures forall i :: 0 <= i < |r| ==> 0 < r[i].1 <= delta
    decreases delta, 0
  {
    PrevPow2Bounds(delta);
    var s := PrevPow2(delta);
    [(a - s, s)] + HighBlocks(a - s, delta - s)
  }

  /**
   * `add_block_next` of each block in turn at the granularity of its size.
   * A size above the arena's power of two underflows the granularity, one
   * below the smallest block indexes past the lists: both panic.
   */
  function AddAll(ar: Arena, bk: Books, blocks: seq<(int, nat)>): (r: Result<Books>)
    requires ArenaOk(ar) && BooksOk(ar, bk)
    ensures r.Ok? ==> BooksOk(ar, r.value)
    decreases |blocks|, 1
  {
    if blocks == [] then Ok(bk) else AddFirst(ar, bk, blocks)
  }

  /** `add_block_next` of the first block, then of the rest. */
  function AddFirst(ar: Arena, bk: Books, blocks: seq<(int, nat)>): (r: Result<Books>)
    requires ArenaOk(ar) && BooksOk(ar, bk) && blocks != []
    ensures r.Ok? ==> BooksOk(ar, r.value)
    decreases |blocks|, 0
  {
    var b := blocks[0].0;
    var s := blocks[0].1;
    if !(IsPow2(s) && ar.smlst <= s <= ar.pow2) then Panic
    else
      GranularityOfSize(ar, s);
      ArenaFacts(ar);
      AddAll(ar, AddBlockNextSpec(ar, bk, Granularity(ar, s), BitmapOffset(ar, b, s), b), blocks[1..])
  }

  /**
   * `reserve` meeting the free block at `b` of granularity g: a block
   * inside the span is unlinked (and the whole reserve is done when it is
   * the span); a block holding the start or the end of the span is
   * unlinked and its parts below the start and above the end are freed
   * again; any other block is left alone. The flag says the reserve is
   * done. A block not on its list is a panic.
   */
  function ReserveNode(ar: Arena, bk: Books, mb: int, ma: int, g: nat, b: int): (r: Result<(Books, bool)>)
    requires ArenaOk(ar) && BooksOk(ar, bk) && g < Levels(ar)
    ensures r.Ok? ==> BooksOk(ar, r.value.0)
  {
    BlockSizeStep(ar, g);
    ReserveBlock(ar, bk, mb, ma, g, b, N.BlockSize(ar, g))
  }

  /** `reserve` meeting the free block [b, b + bs) of granularity g. */
  function ReserveBlock(ar: Arena, bk: Books, mb: int, ma: int, g: nat, b: int, bs: nat): (r: Result<(Books, bool)>)
    requires ArenaOk(ar) && BooksOk(ar, bk) && g < |bk.lists| && 0 < bs < U64_LIMIT
    ensures r.Ok? ==> BooksOk(ar, r.value.0)
  {
    var ba := b + bs;
    var off := BitmapOffset(ar, b, bs);
    if mb <= b && ma >= ba then
      if b !in bk.lists[g] then Panic
      else Ok((RemoveBlockSpec(ar, bk, g, off, b), mb == b && ma == ba))
    else if !(b < mb < ba) && !(b < ma < ba) then Ok((bk, false))
    else if b !in bk.lists[g] then Panic
    else RestoreParts(ar, RemoveBlockSpec(ar, bk, g, off, b), b, ba, mb, ma)
  }

  /**
   * The restore loops of `reserve` on the block [b, ba), just unlinked:
   * when it holds the span's start, its part below the start is freed
   * from the bottom up; when it holds the span's end, its part above the
   * end from the top down. The reserve is done when it held both.
   */
  function RestoreParts(ar: Arena, bk: Books, b: int, ba: int, mb: int, ma: int): (r: Result<(Books, bool)>)
    requires ArenaOk(ar) && BooksOk(ar, bk) && b < ba < b + U64_LIMIT
    ensures r.Ok? ==> BooksOk(ar, r.value.0)
  {
    var low := RestoreLow(ar, bk, b, ba, mb);
    if low.Panic? then Panic
    else
      var high := RestoreHigh(ar, low.value, b, ba, ma);
      if high.Panic? then Panic else Ok((high.value, b < mb < ba && b < ma < ba))
  }

  /** The restore-low loop, when the block [b, ba) holds the span's start `mb`. */
  function RestoreLow(ar: Arena, bk: Books, b: int, ba: int, mb: int): (r: Result<Books>)
    requires ArenaOk(ar) && BooksOk(ar, bk) && b < ba < b + U64_LIMIT
    ensures r.Ok? ==> BooksOk(ar, r.value)
  {
    if b < mb < ba then AddAll(ar, bk, LowBlocks(b, mb - b)) else Ok(bk)
  }

  /** The restore-high loop, when the block [b, ba) holds the span's end `ma`. */
  function RestoreHigh(ar: Arena, bk: Books, b: int, ba: int, ma: int): (r: Result<Books>)
    requires ArenaOk(ar) && BooksOk(ar, bk) && b < ba < b + U64_LIMIT
    ensures r.Ok? ==> BooksOk(ar, r.value)
  {
    if b < ma < ba then AddAll(ar, bk, HighBlocks(ba, ba - ma)) else Ok(bk)
  }

  /**
   * The inner loop of `reserve` over the blocks of list g, in list order;
   * it stops at the first panic or when the reserve is done.
   */
  function ReserveNodes(ar: Arena, bk: Books, mb: int, ma: int, g: nat, nodes: seq<int>): (r: Result<(Books, bool)>)
    requires ArenaOk(ar) && BooksOk(ar, bk) && g < Levels(ar)
    ensures r.Ok? ==> BooksOk(ar, r.value.0)
    decreases |nodes|
  {
    if nodes == [] then Ok((bk, false))
    else match ReserveNode(ar, bk, mb, ma, g, nodes[0])
      case Panic => Panic
      case Ok((bk1, done)) => if done then Ok((bk1, true)) else ReserveNodes(ar, bk1, mb, ma, g, nodes[1..])
  }

  /** The outer loop of `reserve` over the granularities from g below `stop`. */
  function ReserveRounds(ar: Arena, bk: Books, mb: int, ma: int, g: nat, stop: nat): (r: Result<Books>)
    requires ArenaOk(ar) && BooksOk(ar, bk) && stop <= Levels(ar)
    ensures r.Ok? ==> BooksOk(ar, r.value)
    decreases stop - g
  {
    if g >= stop then Ok(bk)
    else match ReserveNodes(ar, bk, mb, ma, g, bk.lists[g])
      case Panic => Panic
      case Ok((bk1, done)) => if done then Ok(bk1) else ReserveRounds(ar, bk1, mb, ma, g + 1, stop)
  }

  /**
   * `finest_granularity` as written: the larger of the granularities of
   * `1 << trailing_zeros` of both bounds; a bound of 0 shifts by 64 and a
   * bound aligned beyond the arena's power of two underflows the
   * granularity, both panics.
   */
  function FinestGranularityAsWritten(ar: Arena, mb: nat, ma: nat): (r: Result<nat>)
    requires ArenaOk(ar)
    ensures r.Ok? <==> mb != 0 && ma != 0 && N.LowBit(mb) <= ar.pow2 && N.LowBit(ma) <= ar.pow2
  {
    ArenaFacts(ar);
    if mb == 0 || ma == 0 then Panic
    else if N.LowBit(mb) > ar.pow2 || N.LowBit(ma) > ar.pow2 then Panic
    else Ok(Max(Granularity(ar, N.LowBit(mb)), Granularity(ar, N.LowBit(ma))))
  }

  /**
   * `reserve` as written: the asserts, then the rounds for the
   * granularities `0..finest_granularity`, which leave the finest out.
   */
  function ReserveAsWritten(ar: Arena, bk: Books, mb: nat, ma: nat): (r: Result<Books>)
    requires ArenaOk(ar) && BooksOk(ar, bk) && mb < U64_LIMIT && ma < U64_LIMIT
  {
    if !ReserveArgsOk(ar, mb, ma) then Panic
    else match FinestGranularityAsWritten(ar, mb, ma)
      case Panic => Panic
      case Ok(fin) => if fin <= Levels(ar) then ReserveRounds(ar, bk, mb, ma, 0, fin) else Panic
  }

  /** `min` of two naturals. */
  function Min(a: nat, b: nat): (r: nat)
    ensures r <= a && r <= b && (r == a || r == b)
  {
    if a <= b then a else b
  }

  /**
   * The granularity of the span's alignment, capped at the arena's power
   * of two: that of the coarser-aligned bound for a bound aligned beyond
   * the arena is the top granularity.
   */
  function FinestGranularity(ar: Arena, mb: nat, ma: nat): (r: nat)
    requires ArenaOk(ar)
  {
    ArenaFacts(ar);
    Max(Granularity(ar, Min(N.LowBit(mb), ar.pow2)), Granularity(ar, Min(N.LowBit(ma), ar.pow2)))
  }

  /**
   * `reserve` with the rounds running through the finest granularity and
   * the bounds' alignment capped at the arena; a bound of 0 still shifts
   * by 64.
   */
  function ReserveSpec(ar: Arena, bk: Books, mb: nat, ma: nat): (r: Result<Books>)
    requires ArenaOk(ar) && BooksOk(ar, bk) && mb < U64_LIMIT && ma < U64_LIMIT
    ensures r.Ok? ==> BooksOk(ar, r.value)
  {
    if !ReserveArgsOk(ar, mb, ma) || mb == 0 || ma == 0 then Panic
    else
      FinestVisits(ar, mb, ma);
      ReserveRounds(ar, bk, mb, ma, 0, FinestGranularity(ar, mb, ma) + 1)
  }

  /**
   * For aligned nonzero bounds the rounds through the finest granularity
   * visit exactly the granularities whose blocks are at least the span's
   * alignment capped at the arena: where a block holding a bound or lying
   * inside the span can be.
   */
  lemma FinestVisits(ar: Arena, mb: nat, ma: nat)
    requires ArenaOk(ar) && mb != 0 && ma != 0 && mb % ar.smlst == 0 && ma % ar.smlst == 0
    ensures FinestGranularity(ar, mb, ma) < Levels(ar)
    ensures N.BlockSize(ar, FinestGranularity(ar, mb, ma)) == Min(Min(N.LowBit(mb), N.LowBit(ma)), ar.pow2)
    ensures forall g :: 0 <= g < Levels(ar) ==>
      (N.BlockSize(ar, g) >= Min(Min(N.LowBit(mb), N.LowBit(ma)), ar.pow2) <==> g <= FinestGranularity(ar, mb, ma))
  {
    ArenaFacts(ar);
    N.LowBitLeast(mb, ar.smlst);
    N.LowBitLeast(ma, ar.smlst);
    var a := Min(N.LowBit(mb), ar.pow2);
    var c := Min(N.LowBit(ma), ar.pow2);
    GranularityOfSize(ar, a);
    GranularityOfSize(ar, c);
    var m := Min(a, c);
    assert Min(Min(N.LowBit(mb), N.LowBit(ma)), ar.pow2) == m;
    var f := FinestGranularity(ar, mb, ma);
    var ga := Granularity(ar, a);
    var gc := Granularity(ar, c);
    BlockSizeOrder(ar, ga, gc);
    if ga >= gc {
      assert f == ga && a <= c;
    } else {
      assert f == gc && c <= a;
    }
    assert N.BlockSize(ar, f) == m;
    forall g | 0 <= g < Levels(ar)
      ensures N.BlockSize(ar, g) >= m <==> g <= f
    {
      BlockSizeOrder(ar, g, f);
    }
  }

  /**
   * As written, for bounds aligned within the arena, the rounds of
   * `reserve` stop just before the granularity whose blocks are the
   * span's alignment, which the intended rounds include.
   */
  lemma ReserveAsWrittenStopsShort(ar: Arena, bk: Books, mb: nat, ma: nat)
    requires ArenaOk(ar) && BooksOk(ar, bk) && mb < U64_LIMIT && ma < U64_LIMIT
    requires ReserveArgsOk(ar, mb, ma) && mb != 0 && ma != 0
    requires N.LowBit(mb) <= ar.pow2 && N.LowBit(ma) <= ar.pow2
    ensures var fin := FinestGranularity(ar, mb, ma);
      && fin < Levels(ar)
      && N.BlockSize(ar, fin) == Min(N.LowBit(mb), N.LowBit(ma))
      && ReserveAsWritten(ar, bk, mb, ma) == ReserveRounds(ar, bk, mb, ma, 0, fin)
      && ReserveSpec(ar, bk, mb, ma) == ReserveRounds(ar, bk, mb, ma, 0, fin + 1)
  {
    FinestVisits(ar, mb, ma);
    assert FinestGranularityAsWritten(ar, mb, ma) == Ok(FinestGranularity(ar, mb, ma));
  }

  /** The blocks of a restore loop: powers of two of at least the smallest block, each at a base aligned to its size. */
  predicate AlignedBlocks(blocks: seq<(int, nat)>, sm: nat)
    decreases |blocks|
  {
    blocks != [] ==>
      && IsPow2(blocks[0].1) && sm <= blocks[0].1 && blocks[0].0 % blocks[0].1 == 0
      && AlignedBlocks(blocks[1..], sm)
  }

  /** Blocks of at most `hi` bytes each. */
  predicate BlocksAtMost(blocks: seq<(int, nat)>, hi: nat) {
    forall i :: 0 <= i < |blocks| ==> blocks[i].1 <= hi
  }

  /** Blocks that tile [lo, hi) from the top down. */
  predicate TilesDown(blocks: seq<(int, nat)>, hi: int, lo: int)
    decreases |blocks|
  {
    if blocks == [] then hi == lo
    else blocks[0].0 + blocks[0].1 == hi && blocks[0].1 > 0 && TilesDown(blocks[1..], blocks[0].0, lo)
  }

  /** One restore step: a distance that is a multiple of the smallest block sheds its previous power of two. */
  lemma RestoreStep(b: int, delta: nat, sm: nat, al: nat)
    requires IsPow2(sm) && IsPow2(al) && b % al == 0 && 0 < delta < al && delta % sm == 0 && delta < U64_LIMIT
    ensures var s := PrevPow2(delta);
      && IsPow2(s) && sm <= s <= delta && delta - s < s && (delta - s) % sm == 0
      && b % s == 0 && (b + s) % s == 0 && (b - s) % s == 0
  {
    PrevPow2Bounds(delta);
    var s := PrevPow2(delta);
    Arith.MultipleAbove(delta, sm);
    PrevPow2AtLeast(delta, sm);
    Pow2DividesLarger(s, al);
    Arith.MultipleTrans(b, al, s);
    Pow2DividesLarger(sm, s);
    Arith.MultipleSum(delta, s, sm);
    Arith.MultipleSum(b, s, s);
  }

  /** The restore-low loop frees blocks that tile [b, b + delta) from the bottom up. */
  lemma {:induction false} LowBlocksTile(b: int, delta: nat)
    requires delta < U64_LIMIT
    ensures N.Tiles(LowBlocks(b, delta), b, b + delta)
    decreases delta
  {
    if delta > 0 {
      PrevPow2Bounds(delta);
      var s := PrevPow2(delta);
      LowBlocksTile(b + s, delta - s);
      var rest := LowBlocks(b + s, delta - s);
      assert LowBlocks(b, delta) == [(b, s)] + rest;
      assert ([(b, s)] + rest)[1..] == rest;
    }
  }

  /** The restore-high loop frees blocks that tile [a - delta, a) from the top down. */
  lemma {:induction false} HighBlocksTile(a: int, delta: nat)
    requires delta < U64_LIMIT
    ensures TilesDown(HighBlocks(a, delta), a, a - delta)
    decreases delta
  {
    if delta > 0 {
      PrevPow2Bounds(delta);
      var s := PrevPow2(delta);
      HighBlocksTile(a - s, delta - s);
      var rest := HighBlocks(a - s, delta - s);
      assert HighBlocks(a, delta) == [(a - s, s)] + rest;
      assert ([(a - s, s)] + rest)[1..] == rest;
    }
  }

  /**
   * The restore-low loop, from a base aligned beyond the distance to the
   * span's start, a multiple of the smallest block: each block it frees
   * is at least the smallest block and aligned to its size.
   */
  lemma {:induction false} LowBlocksAligned(b: int, delta: nat, sm: nat, al: nat)
    requires IsPow2(sm) && IsPow2(al) && b % al == 0 && delta < al && delta % sm == 0 && delta < U64_LIMIT
    ensures AlignedBlocks(LowBlocks(b, delta), sm)
    decreases delta
  {
    if delta > 0 {
      RestoreStep(b, delta, sm, al);
      var s := PrevPow2(delta);
      LowBlocksAligned(b + s, delta - s, sm, s);
      var rest := LowBlocks(b + s, delta - s);
      assert LowBlocks(b, delta) == [(b, s)] + rest;
      assert ([(b, s)] + rest)[1..] == rest;
    }
  }

  /** The same for the restore-high loop, from an end aligned beyond the distance from the span's end. */
  lemma {:induction false} HighBlocksAligned(a: int, delta: nat, sm: nat, al: nat)
    requires IsPow2(sm) && IsPow2(al) && a % al == 0 && delta < al && delta % sm == 0 && delta < U64_LIMIT
    ensures AlignedBlocks(HighBlocks(a, delta), sm)
    decreases delta
  {
    if delta > 0 {
      RestoreStep(a, delta, sm, al);
      var s := PrevPow2(delta);
      HighBlocksAligned(a - s, delta - s, sm, s);
      var rest := HighBlocks(a - s, delta - s);
      assert HighBlocks(a, delta) == [(a - s, s)] + rest;
      assert ([(a - s, s)] + rest)[1..] == rest;
    }
  }

  /** Adding blocks whose sizes are the arena's granularities does not panic. */
  lemma {:induction false} AddAllOk(ar: Arena, bk: Books, blocks: seq<(int, nat)>, hi: nat)
    requires ArenaOk(ar) && BooksOk(ar, bk)
    requires AlignedBlocks(blocks, ar.smlst) && BlocksAtMost(blocks, hi) && hi <= ar.pow2
    ensures AddAll(ar, bk, blocks).Ok?
    decreases |blocks|
  {
    if blocks != [] {
      var b := blocks[0].0;
      var s := blocks[0].1;
      GranularityOfSize(ar, s);
      ArenaFacts(ar);
      var bk1 := AddBlockNextSpec(ar, bk, Granularity(ar, s), BitmapOffset(ar, b, s), b);
      assert forall i :: 0 <= i < |blocks[1..]| ==> blocks[1..][i] == blocks[i + 1];
      AddAllOk(ar, bk1, blocks[1..], hi);
    }
  }

  /** The restore-low loop on a block of `bs` bytes at `b` holding the span's start `mb`. */
  lemma RestoreLowAligned(b: int, mb: int, bs: nat, sm: nat)
    requires IsPow2(sm) && IsPow2(bs) && sm <= bs < U64_LIMIT && b % bs == 0 && mb % sm == 0 && b < mb < b + bs
    ensures AlignedBlocks(LowBlocks(b, mb - b), sm) && BlocksAtMost(LowBlocks(b, mb - b), bs)
  {
    Pow2DividesLarger(sm, bs);
    Arith.MultipleTrans(b, bs, sm);
    Arith.MultipleSum(mb, b, sm);
    LowBlocksAligned(b, mb - b, sm, bs);
  }

  /** The restore-high loop on a block of `bs` bytes at `b` holding the span's end `ma`. */
  lemma RestoreHighAligned(b: int, ma: int, bs: nat, sm: nat)
    requires IsPow2(sm) && IsPow2(bs) && sm <= bs < U64_LIMIT && b % bs == 0 && ma % sm == 0 && b < ma < b + bs
    ensures AlignedBlocks(HighBlocks(b + bs, b + bs - ma), sm) && BlocksAtMost(HighBlocks(b + bs, b + bs - ma), bs)
  {
    Pow2DividesLarger(sm, bs);
    Arith.MultipleSum(b, bs, bs);
    Arith.MultipleTrans(b + bs, bs, sm);
    Arith.MultipleSum(b + bs, ma, sm);
    HighBlocksAligned(b + bs, b + bs - ma, sm, bs);
  }

  /**
   * `reserve` meeting a free block of its list, aligned to its size, with
   * bounds aligned to the smallest block, does not panic: the parts of
   * the block outside the span are blocks of its granularities.
   */
  lemma ReserveNodeOk(ar: Arena, bk: Books, mb: int, ma: int, g: nat, b: int)
    requires ArenaOk(ar) && BooksOk(ar, bk) && g < Levels(ar) && b in bk.lists[g]
    requires N.BlockSize(ar, g) > 0 && b % N.BlockSize(ar, g) == 0 && mb % ar.smlst == 0 && ma % ar.smlst == 0
    ensures ReserveNode(ar, bk, mb, ma, g, b).Ok?
  {
    BlockSizeFacts(ar, g);
    ReserveBlockOk(ar, bk, mb, ma, g, b, N.BlockSize(ar, g));
  }

  lemma ReserveBlockOk(ar: Arena, bk: Books, mb: int, ma: int, g: nat, b: int, bs: nat)
    requires ArenaOk(ar) && BooksOk(ar, bk) && g < |bk.lists| && b in bk.lists[g]
    requires IsPow2(bs) && ar.smlst <= bs <= ar.pow2 && bs < U64_LIMIT
    requires b % bs == 0 && mb % ar.smlst == 0 && ma % ar.smlst == 0
    ensures ReserveBlock(ar, bk, mb, ma, g, b, bs).Ok?
  {
    var off := BitmapOffset(ar, b, bs);
    if !(mb <= b && ma >= b + bs) && (b < mb < b + bs || b < ma < b + bs) {
      var bk1 := RemoveBlockSpec(ar, bk, g, off, b);
      RestorePartsOk(ar, bk1, b, bs, mb, ma);
    }
  }
  /** The restore loops on an aligned block of the arena's granularities, with aligned bounds, do not panic. */
  lemma RestorePartsOk(ar: Arena, bk: Books, b: int, bs: nat, mb: int, ma: int)
    requires ArenaOk(ar) && BooksOk(ar, bk)
    requires IsPow2(bs) && ar.smlst <= bs <= ar.pow2 && bs < U64_LIMIT && b % bs == 0 && mb % ar.smlst == 0 && ma % ar.smlst == 0
    ensures RestoreParts(ar, bk, b, b + bs, mb, ma).Ok?
  {
    RestoreLowOk(ar, bk, b, bs, mb);
    RestoreHighOk(ar, RestoreLow(ar, bk, b, b + bs, mb).value, b, bs, ma);
  }

  lemma RestoreLowOk(ar: Arena, bk: Books, b: int, bs: nat, mb: int)
    requires ArenaOk(ar) && BooksOk(ar, bk)
    requires IsPow2(bs) && ar.smlst <= bs <= ar.pow2 && bs < U64_LIMIT && b % bs == 0 && mb % ar.smlst == 0
    ensures RestoreLow(ar, bk, b, b + bs, mb).Ok?
  {
    if b < mb < b + bs {
      var blocks := LowBlocks(b, mb - b);
      RestoreLowAligned(b, mb, bs, ar.smlst);
      AddAllOk(ar, bk, blocks, bs);
    }
  }

  lemma RestoreHighOk(ar: Arena, bk: Books, b: int, bs: nat, ma: int)
    requires ArenaOk(ar) && BooksOk(ar, bk)
    requires IsPow2(bs) && ar.smlst <= bs <= ar.pow2 && bs < U64_LIMIT && b % bs == 0 && ma % ar.smlst == 0
    ensures RestoreHigh(ar, bk, b, b + bs, ma).Ok?
  {
    if b < ma < b + bs {
      var blocks := HighBlocks(b + bs, b + bs - ma);
      RestoreHighAligned(b, ma, bs, ar.smlst);
      AddAllOk(ar, bk, blocks, bs);
    }
  }

  /**
   * The restore loops of `reserve` on a block holding a bound give back
   * exactly the block's parts outside the span: [b, mb) from the bottom
   * up and [ma, b + size) from the top down, in blocks of the arena.
   */
  lemma ReserveRestores(b: int, bs: nat, mb: int, ma: int, sm: nat)
    requires IsPow2(sm) && IsPow2(bs) && sm <= bs < U64_LIMIT
    requires b % bs == 0 && mb % sm == 0 && ma % sm == 0
    ensures b < mb < b + bs ==> N.Tiles(LowBlocks(b, mb - b), b, mb) && AlignedBlocks(LowBlocks(b, mb - b), sm)
    ensures b < ma < b + bs ==>
      TilesDown(HighBlocks(b + bs, b + bs - ma), b + bs, ma) && AlignedBlocks(HighBlocks(b + bs, b + bs - ma), sm)
  {
    if b < mb < b + bs {
      RestoreLowAligned(b, mb, bs, sm);
      LowBlocksTile(b, mb - b);
    }
    if b < ma < b + bs {
      RestoreHighAligned(b, ma, bs, sm);
      HighBlocksTile(b + bs, b + bs - ma);
    }
  }
  /** An arena of 64 bytes with 16-byte smallest blocks: three granularities. */
  lemma SmallArenaOk(base: nat)
    requires base + 64 <= U64_LIMIT
    ensures ArenaOk(N.Arena(base, 64, 64, 16)) && Levels(N.Arena(base, 64, 64, 16)) == 3
  {
    Pow2Of64();
    assert Pow2(4) == 16 && Pow2(6) == 64;
    Log2Pow2(4);
    Log2Pow2(6);
    NextPow2Log(64);
    assert Log2(63) == 5 by { Log2Unique(63, 5); }
  }

  /** Books with one free block, at `b`, on the list of granularity 2. */
  function OneFreeBooks(b: int): Books {
    Books(seq(64, i => i == 2), [[], [], [b]], seq(64, i => false))
  }

  lemma OneFreeBooksOk(base: nat, b: int)
    requires base + 64 <= U64_LIMIT
    ensures ArenaOk(N.Arena(base, 64, 64, 16)) && BooksOk(N.Arena(base, 64, 64, 16), OneFreeBooks(b))
  {
    SmallArenaOk(base);
    var bk := OneFreeBooks(b);
    assert Pow2(3) == 8;
    forall g | 0 <= g < 64
      ensures bk.avails[g] == (g < |bk.lists| && bk.lists[g] != [])
    {
      if g < 3 {
        assert bk.lists[g] == [] <==> g != 2;
      }
    }
  }

  /**
   * In a small arena, reserving the 16 bytes of the one free block at
   * `b`: the rounds through granularity 2 take it off its list, and the
   * rounds that stop before granularity 2 keep the books as they are.
   */
  lemma ReserveOneFree(base: nat, b: int)
    requires base + 64 <= U64_LIMIT
    ensures ArenaOk(N.Arena(base, 64, 64, 16)) && BooksOk(N.Arena(base, 64, 64, 16), OneFreeBooks(b))
    ensures var ar := N.Arena(base, 64, 64, 16);
      && ReserveRounds(ar, OneFreeBooks(b), b, b + 16, 0, 2) == Ok(OneFreeBooks(b))
      && ReserveRounds(ar, OneFreeBooks(b), b, b + 16, 0, 3).Ok?
      && ReserveRounds(ar, OneFreeBooks(b), b, b + 16, 0, 3).value.lists[2] == []
  {
    OneFreeBooksOk(base, b);
    var ar := N.Arena(base, 64, 64, 16);
    var bk := OneFreeBooks(b);
    assert ReserveRounds(ar, bk, b, b + 16, 2, 2) == Ok(bk);
    assert ReserveRounds(ar, bk, b, b + 16, 1, 2) == Ok(bk);
    BlockSizeStep(ar, 2);
    assert N.BlockSize(ar, 2) == 16;
    var r := ReserveNode(ar, bk, b, b + 16, 2, b);
    assert r.Ok? && r.value.1 && r.value.0.lists[2] == [];
    assert ReserveNodes(ar, bk, b, b + 16, 2, [b]) == r;
  }

  const LOW_ARENA: Arena := N.Arena(64, 64, 64, 16)

  lemma LowBitsOf80And96()
    ensures N.LowBit(80) == 16 && N.LowBit(96) == 32
  {
    assert Pow2(4) == 16 && Pow2(5) == 32;
    TrailingZerosOf(80, 4, 5);
    TrailingZerosOf(96, 5, 3);
  }

  /**
   * As written, `reserve` of [80, 96) in the arena [64, 128) with 16-byte
   * smallest blocks leaves the free block at 80 on its list: the rounds
   * stop before granularity 2, its block size. The intended rounds take
   * it off.
   */
  lemma ReserveAsWrittenKeepsFreeBlock()
    ensures ArenaOk(LOW_ARENA) && BooksOk(LOW_ARENA, OneFreeBooks(80))
    ensures ReserveAsWritten(LOW_ARENA, OneFreeBooks(80), 80, 96) == Ok(OneFreeBooks(80))
    ensures ReserveSpec(LOW_ARENA, OneFreeBooks(80), 80, 96).Ok?
    ensures ReserveSpec(LOW_ARENA, OneFreeBooks(80), 80, 96).value.lists[2] == []
  {
    ReserveOneFree(64, 80);
    LowBitsOf80And96();
    ReserveAsWrittenStopsShort(LOW_ARENA, OneFreeBooks(80), 80, 96);
    BlockSizeStep(LOW_ARENA, 2);
    BlockSizeStep(LOW_ARENA, 1);
    assert N.BlockSize(LOW_ARENA, 1) == 32;
    assert FinestGranularity(LOW_ARENA, 80, 96) == 2;
  }

  const HIGH_ARENA: Arena := N.Arena(4096, 64, 64, 16)

  lemma LowBitOf4096()
    ensures N.LowBit(4096) == 4096 && N.LowBit(4112) == 16
  {
    Pow2Of64();
    assert Pow2(4) == 16;
    assert Pow2(12) == 4096;
    TrailingZerosOf(4096, 12, 1);
    TrailingZerosOf(4112, 4, 257);
  }

  /**
   * As written, `reserve` of [4096, 4112) in the arena [4096, 4160)
   * panics: the base's alignment, 4096, exceeds the arena's power of two,
   * and its granularity underflows. The intended granularity is capped at
   * the arena's and the free block at 4096 is taken off its list.
   */
  lemma ReserveAsWrittenUnderflows()
    ensures ArenaOk(HIGH_ARENA) && BooksOk(HIGH_ARENA, OneFreeBooks(4096))
    ensures ReserveAsWritten(HIGH_ARENA, OneFreeBooks(4096), 4096, 4112) == Panic
    ensures ReserveSpec(HIGH_ARENA, OneFreeBooks(4096), 4096, 4112).Ok?
    ensures ReserveSpec(HIGH_ARENA, OneFreeBooks(4096), 4096, 4112).value.lists[2] == []
  {
    ReserveOneFree(4096, 4096);
    HighArenaFinest();
    assert ReserveArgsOk(HIGH_ARENA, 4096, 4112);
  }

  lemma HighArenaFinest()
    ensures ArenaOk(HIGH_ARENA) && Levels(HIGH_ARENA) == 3
    ensures FinestGranularityAsWritten(HIGH_ARENA, 4096, 4112) == Panic
    ensures FinestGranularity(HIGH_ARENA, 4096, 4112) == 2
  {
    SmallArenaOk(4096);
    LowBitOf4096();
    FinestVisits(HIGH_ARENA, 4096, 4112);
    BlockSizeStep(HIGH_ARENA, 2);
  }

  // `bound_available`, `bound_reserved`, `slice_arg_sizes`, `new`.

  /**
   * `bound_available` of [base, base + size): from the first multiple of
   * the smallest block at or above `base` to the last at or below the end.
   * A zero size fails the debug assert, and either sum overflowing a `u64`
   * is a panic.
   */
  function BoundAvailable(sm: nat, base: nat, size: nat): (r: Result<(int, int)>)
    requires IsPow2(sm)
    ensures r.Panic? <==> size == 0 || base + (sm - 1) >= U64_LIMIT || base + size >= U64_LIMIT
  {
    if size == 0 || base + (sm - 1) >= U64_LIMIT || base + size >= U64_LIMIT then Panic
    else Ok((N.RoundUp(base, sm), N.RoundDown(base + size, sm)))
  }

  /**
   * The span `bound_available` gives is aligned, lies inside [base, base +
   * size) and misses less than a smallest block at either end: a block of
   * the smallest size at an aligned address is inside the span exactly
   * when it is inside [base, base + size).
   */
  lemma BoundAvailableInside(sm: nat, base: nat, size: nat, x: int)
    requires IsPow2(sm) && BoundAvailable(sm, base, size).Ok? && x % sm == 0
    ensures var (lo, hi) := BoundAvailable(sm, base, size).value;
      && lo % sm == 0 && hi % sm == 0
      && base <= lo < base + sm && base + size - sm < hi <= base + size
      && (lo <= x && x + sm <= hi <==> base <= x && x + sm <= base + size)
  {
    var (lo, hi) := BoundAvailable(sm, base, size).value;
    if base <= x && x < lo {
      Arith.MultipleGap(x, lo, sm);
    }
    Arith.MultipleSum(x, sm, sm);
    if x + sm <= base + size && hi < x + sm {
      Arith.MultipleGap(hi, x + sm, sm);
    }
  }

  /**
   * `bound_reserved` of [base, base + size): from the last multiple of the
   * smallest block at or below `base` to one block past the last at or
   * below the last byte. A zero size fails the debug assert; the end
   * overflowing a `u64` is a panic.
   */
  function BoundReserved(sm: nat, base: nat, size: nat): (r: Result<(int, int)>)
    requires IsPow2(sm)
    ensures r.Panic? <==> size == 0 || base + size - 1 >= U64_LIMIT || N.RoundDown(base + size - 1, sm) + sm >= U64_LIMIT
  {
    if size == 0 || base + size - 1 >= U64_LIMIT then Panic
    else
      var top := N.RoundDown(base + size - 1, sm) + sm;
      if top >= U64_LIMIT then Panic else Ok((N.RoundDown(base, sm), top))
  }

  /**
   * The span `bound_reserved` gives is aligned, covers [base, base + size)
   * and overshoots by less than a smallest block at either end: a block of
   * the smallest size at an aligned address is inside the span exactly
   * when it overlaps [base, base + size).
   */
  lemma BoundReservedCovers(sm: nat, base: nat, size: nat, x: int)
    requires IsPow2(sm) && BoundReserved(sm, base, size).Ok? && x % sm == 0
    ensures var (lo, hi) := BoundReserved(sm, base, size).value;
      && lo % sm == 0 && hi % sm == 0
      && lo <= base < lo + sm && base + size <= hi < base + size + sm
      && (lo <= x && x + sm <= hi <==> x < base + size && base < x + sm)
  {
    var (lo, hi) := BoundReserved(sm, base, size).value;
    var d := N.RoundDown(base + size - 1, sm);
    Arith.MultipleSum(d, sm, sm);
    if x > d {
      Arith.MultipleGap(d, x, sm);
    }
    if x < lo {
      Arith.MultipleGap(x, lo, sm);
    }
  }

  /** The asserts of `validate_arena_args`. */
  predicate ValidArenaArgs(arenaSize: nat, smlst: nat) {
    0 < arenaSize <= MAX_ARENA && IsPow2(smlst) && smlst >= NODE_SIZE
  }

  /**
   * `slice_arg_sizes`: one sentinel per granularity,
   * `next_pow2(arena_size).log2() - smallest.log2() + 1` of them, and a
   * bitmap of `1 << llists_len` bits in `u64` words, at least one word. It
   * panics on invalid arguments and, through the `u32` subtraction, on a
   * smallest block larger than the arena's power of two.
   */
  function SliceArgSizes(arenaSize: nat, smlst: nat): (r: Result<(nat, nat)>)
  {
    if !ValidArenaArgs(arenaSize, smlst) then Panic
    else
      var hi := Log2(NextPow2(arenaSize));
      var lo := Log2(smlst);
      if lo > hi then Panic
      else
        var levels := hi - lo + 1;
        var bm := Pow2(levels) / 64;
        Ok((levels, if bm != 0 then bm else 1))
  }

  /**
   * `slice_arg_sizes` succeeds exactly on valid arguments whose smallest
   * block fits the arena's power of two; then it counts the arena's
   * granularities and gives a bitmap of at least one word with a bit for
   * every buddy-pair slot.
   */
  lemma SliceArgSizesOk(arenaSize: nat, smlst: nat, base: nat)
    ensures SliceArgSizes(arenaSize, smlst).Ok? <==>
      ValidArenaArgs(arenaSize, smlst) && smlst <= NextPow2(arenaSize)
    ensures SliceArgSizes(arenaSize, smlst).Ok? && base + arenaSize <= U64_LIMIT ==>
      var ar := N.Arena(base, arenaSize, NextPow2(arenaSize), smlst);
      var (ll, bm) := SliceArgSizes(arenaSize, smlst).value;
      ArenaOk(ar) && ll == Levels(ar) && bm >= 1 && Pow2(ll) <= 64 * bm
  {
    if ValidArenaArgs(arenaSize, smlst) {
      NextPow2Bounds(arenaSize);
      N.Pow2Within(smlst, Log2(NextPow2(arenaSize)));
      if smlst <= NextPow2(arenaSize) {
        BitmapWords(Log2(NextPow2(arenaSize)) - Log2(smlst) + 1);
      }
    }
  }

  /** `1 << levels >> 6`, or 1 when that is 0, words hold `1 << levels` bits. */
  lemma BitmapWords(levels: nat)
    ensures var bm := Pow2(levels) / 64; Pow2(levels) <= 64 * (if bm != 0 then bm else 1)
  {
    assert Pow2(6) == 64;
    if levels >= 6 {
      Pow2Add(6, levels - 6);
      DivExact(Pow2(levels), 64, Pow2(levels - 6));
    } else {
      Pow2Mono(levels, 6);
    }
  }

  /** The books `new` sets up: `avails` clear, empty lists, a zeroed bitmap of `bm` words. */
  function EmptyBooks(levels: nat, bm: nat): Books {
    Books(seq(64, _ => false), seq(levels, _ => []), seq(64 * bm, _ => false))
  }

  /**
   * `new`: the arena asserts, the assert that `arena_base + arena_size - 1`
   * does not overflow, and the asserts that the slices have the lengths
   * `slice_arg_sizes` asks for; then the arena fields and fresh books.
   */
  function NewSpec(base: nat, size: nat, smlst: nat, llLen: nat, bmLen: nat): (r: Result<(Arena, Books)>)
  {
    if !ValidArenaArgs(size, smlst) || base + size - 1 >= U64_LIMIT then Panic
    else match SliceArgSizes(size, smlst)
      case Panic => Panic
      case Ok((ll, bm)) =>
        if ll != llLen || bm != bmLen then Panic
        else Ok((N.Arena(base, size, NextPow2(size), smlst), EmptyBooks(ll, bm)))
  }

  /**
   * `new` succeeds exactly on valid arguments with slices of the right
   * lengths, and then leaves the whole arena reserved: a valid arena,
   * books in shape, no list with a block, no parity bit set.
   */
  lemma NewReservesAll(base: nat, size: nat, smlst: nat, llLen: nat, bmLen: nat)
    ensures NewSpec(base, size, smlst, llLen, bmLen).Ok? <==>
      && ValidArenaArgs(size, smlst) && base + size - 1 < U64_LIMIT && smlst <= NextPow2(size)
      && SliceArgSizes(size, smlst) == Ok((llLen, bmLen))
    ensures NewSpec(base, size, smlst, llLen, bmLen).Ok? ==>
      var (ar, bk) := NewSpec(base, size, smlst, llLen, bmLen).value;
      && ArenaOk(ar) && BooksOk(ar, bk) && ar.base == base && ar.size == size && ar.smlst == smlst
      && (forall g :: 0 <= g < |bk.lists| ==> bk.lists[g] == [])
      && (forall k :: 0 <= k < |bk.bitmap| ==> !ReadBit(bk.bitmap, k))
  {
    SliceArgSizesOk(size, smlst, base);
  }

  // Properties of `alloc`, `shrink` and `grow`.

  /** The block sizes at least that of granularity g are those of granularities up to g. */
  lemma SizesFromGranularity(ar: Arena, g: nat)
    requires ArenaOk(ar) && g < Levels(ar)
    ensures forall j :: 0 <= j < Levels(ar) ==> (N.BlockSize(ar, j) >= N.BlockSize(ar, g) <==> j <= g)
  {
    forall j | 0 <= j < Levels(ar)
      ensures N.BlockSize(ar, j) >= N.BlockSize(ar, g) <==> j <= g
    {
      BlockSizeOrder(ar, j, g);
    }
  }

  /**
   * `alloc` panics exactly when the block size exceeds the arena's power
   * of two, and otherwise returns null exactly when no free list of
   * blocks at least that large has a block.
   */
  lemma AllocNullIff(ar: Arena, bk: Books, l: N.Layout)
    requires ArenaOk(ar) && BooksOk(ar, bk) && l.size > 0 && N.LayoutOk(l)
    ensures var size := LayoutSize(ar, l);
      && (AllocSpec(ar, bk, l).Panic? <==> size > ar.pow2)
      && (AllocSpec(ar, bk, l).Ok? ==>
        (AllocSpec(ar, bk, l).value.0.None? <==>
           forall j :: 0 <= j < Levels(ar) && N.BlockSize(ar, j) >= size ==> !bk.avails[j]))
  {
    var size := LayoutSize(ar, l);
    if size <= ar.pow2 {
      GranularityOfSize(ar, size);
      var g := Granularity(ar, size);
      SizesFromGranularity(ar, g);
      if !bk.avails[g] {
        assert AllocSpec(ar, bk, l) == Ok(AllocLargerSpec(ar, bk, g));
      }
    }
  }

  /**
   * `alloc` with a free block of its own granularity g takes the head of
   * list g and leaves the other lists alone.
   */
  lemma AllocExact(ar: Arena, bk: Books, l: N.Layout)
    requires ArenaOk(ar) && BooksOk(ar, bk) && l.size > 0 && N.LayoutOk(l)
    requires LayoutSize(ar, l) <= ar.pow2 && bk.avails[Granularity(ar, LayoutSize(ar, l))]
    ensures var g := Granularity(ar, LayoutSize(ar, l));
      var r := AllocSpec(ar, bk, l);
      && g < Levels(ar) && N.BlockSize(ar, g) == LayoutSize(ar, l)
      && r.Ok? && r.value.0 == Some(bk.lists[g][0])
      && forall h :: 0 <= h < Levels(ar) ==> r.value.1.lists[h] == if h == g then bk.lists[g][1..] else bk.lists[h]
  {
    GranularityOfSize(ar, LayoutSize(ar, l));
    ArenaFacts(ar);
  }

  /** One round of the splitting loop. */
  lemma SplitStep(ar: Arena, bk: Books, base: int, hg: nat, g: nat, hi: nat, off: nat)
    requires ArenaOk(ar) && BooksOk(ar, bk) && hg <= g < Levels(ar)
    requires hi == N.BlockSize(ar, hg) && 0 < hi < U64_LIMIT && off == BitmapOffset(ar, base + hi, hi)
    ensures SplitSpec(ar, AddBlockNextSpec(ar, bk, hg, off, base + hi), base, hg + 1, g)
      == SplitSpec(ar, bk, base, hg, g)
  {
  }

  /**
   * The splitting loop pushes the upper half of the block at `base` onto
   * the list of every granularity from `hg` to `g`, and leaves the other
   * lists alone.
   */
  lemma {:induction false} SplitLists(ar: Arena, bk: Books, base: int, hg: nat, g: nat, h: nat)
    requires ArenaOk(ar) && BooksOk(ar, bk) && g < Levels(ar) && h < Levels(ar)
    ensures SplitSpec(ar, bk, base, hg, g).lists[h]
      == if hg <= h <= g then [base + N.BlockSize(ar, h)] + bk.lists[h] else bk.lists[h]
    decreases g + 1 - hg
  {
    if hg <= g {
      BlockSizeStep(ar, hg);
      var hi := N.BlockSize(ar, hg);
      var off := BitmapOffset(ar, base + hi, hi);
      var bk1 := AddBlockNextSpec(ar, bk, hg, off, base + hi);
      SplitLists(ar, bk1, base, hg + 1, g, h);
      SplitStep(ar, bk, base, hg, g, hi, off);
    }
  }

  /**
   * `alloc` from a larger block: the block is the head of list lg, which
   * loses it, and each granularity between lg and g gains one upper buddy.
   */
  lemma AllocSplits(ar: Arena, bk: Books, lg: nat, g: nat)
    requires ArenaOk(ar) && BooksOk(ar, bk) && lg < g < Levels(ar) && bk.avails[lg]
    ensures var (r, bk1) := TakeAndSplitSpec(ar, bk, lg, g);
      && r == Some(bk.lists[lg][0])
      && bk1.lists[lg] == bk.lists[lg][1..]
      && forall h :: 0 <= h < Levels(ar) && h != lg ==>
        bk1.lists[h] == if lg < h <= g then [bk.lists[lg][0] + N.BlockSize(ar, h)] + bk.lists[h] else bk.lists[h]
  {
    forall h | 0 <= h < Levels(ar) && h != lg
      ensures TakeAndSplitSpec(ar, bk, lg, g).1.lists[h]
        == if lg < h <= g then [bk.lists[lg][0] + N.BlockSize(ar, h)] + bk.lists[h] else bk.lists[h]
    {
      AllocSplitsAt(ar, bk, lg, g, h);
    }
    AllocTakesHead(ar, bk, lg, g);
  }

  lemma AllocTakesHead(ar: Arena, bk: Books, lg: nat, g: nat)
    requires ArenaOk(ar) && BooksOk(ar, bk) && lg < g < Levels(ar) && bk.avails[lg]
    ensures TakeAndSplitSpec(ar, bk, lg, g).0 == Some(bk.lists[lg][0])
    ensures TakeAndSplitSpec(ar, bk, lg, g).1.lists[lg] == bk.lists[lg][1..]
  {
    BlockSizeStep(ar, lg);
    var taken := RemoveBlockNextSpec(ar, bk, lg, N.BlockSize(ar, lg));
    SplitLists(ar, taken.0, taken.1, lg + 1, g, lg);
  }

  lemma AllocSplitsAt(ar: Arena, bk: Books, lg: nat, g: nat, h: nat)
    requires ArenaOk(ar) && BooksOk(ar, bk) && lg < g < Levels(ar) && bk.avails[lg] && h < Levels(ar) && h != lg
    ensures TakeAndSplitSpec(ar, bk, lg, g).1.lists[h]
      == if lg < h <= g then [bk.lists[lg][0] + N.BlockSize(ar, h)] + bk.lists[h] else bk.lists[h]
  {
    BlockSizeStep(ar, lg);
    var taken := RemoveBlockNextSpec(ar, bk, lg, N.BlockSize(ar, lg));
    SplitLists(ar, taken.0, taken.1, lg + 1, g, h);
  }

  /**
   * `shrink` panics exactly when the block shrinks from a size above the
   * arena's power of two; a new block size no smaller changes nothing;
   * otherwise the upper halves of the block, one per granularity below
   * the old one down to the new one, are freed.
   */
  lemma ShrinkFrees(ar: Arena, bk: Books, p: int, oldL: N.Layout, newL: N.Layout)
    requires ArenaOk(ar) && BooksOk(ar, bk)
    requires oldL.size > 0 && N.LayoutOk(oldL) && newL.size > 0 && N.LayoutOk(newL)
    ensures var o := LayoutSize(ar, oldL);
      var t := LayoutSize(ar, newL);
      var r := ShrinkSpec(ar, bk, p, oldL, newL);
      && (r.Panic? <==> t < o && o > ar.pow2)
      && (t >= o ==> r == Ok(bk))
      && (t < o <= ar.pow2 ==> forall h :: 0 <= h < Levels(ar) ==>
        r.value.lists[h] == if Granularity(ar, o) < h <= Granularity(ar, t) then [p + N.BlockSize(ar, h)] + bk.lists[h] else bk.lists[h])
  {
    var o := LayoutSize(ar, oldL);
    var t := LayoutSize(ar, newL);
    if t < o <= ar.pow2 {
      GranularityOfSize(ar, o);
      GranularityOfSize(ar, t);
      forall h | 0 <= h < Levels(ar)
        ensures ShrinkSpec(ar, bk, p, oldL, newL).value.lists[h]
          == if Granularity(ar, o) < h <= Granularity(ar, t) then [p + N.BlockSize(ar, h)] + bk.lists[h] else bk.lists[h]
      {
        SplitLists(ar, bk, p, Granularity(ar, o) + 1, Granularity(ar, t), h);
      }
    }
  }

  /** The second loop of `grow` on a listed upper buddy: take it off and go one granularity up. */
  lemma GrowTakeStep(ar: Arena, bk: Books, p: int, g: nat, ng: nat, size: nat)
    requires ArenaOk(ar) && BooksOk(ar, bk) && ng < g < Levels(ar)
    requires size == N.BlockSize(ar, g) && 0 < size < U64_LIMIT && p + size in bk.lists[g]
    ensures var bk1 := RemoveBlockSpec(ar, bk, g, BitmapOffset(ar, p, size), p + size);
      && bk1.lists[g] == Without(bk.lists[g], p + size)
      && (forall h :: 0 <= h < |bk.lists| && h != g ==> bk1.lists[h] == bk.lists[h])
      && GrowTake(ar, bk, p, g, ng) == GrowTake(ar, bk1, p, g - 1, ng)
  {
  }

  /** A round of the second loop of `grow` when the upper buddy is on its list: unlink it and go on. */
  lemma GrowTakeNext(ar: Arena, bk: Books, p: int, g: nat, ng: nat, size: nat)
    requires ArenaOk(ar) && BooksOk(ar, bk) && ng < g < Levels(ar)
    requires size == N.BlockSize(ar, g) && 0 < size < U64_LIMIT && p + size in bk.lists[g]
    ensures GrowTake(ar, bk, p, g, ng) == GrowTake(ar, RemoveBlockSpec(ar, bk, g, BitmapOffset(ar, p, size), p + size), p, g - 1, ng)
  {
  }

  /** The upper buddies of the block at `p`, from granularity g down to just below ng, are on their lists. */
  predicate Listed(ar: Arena, bk: Books, p: int, g: nat, ng: nat)
    requires ArenaOk(ar) && BooksOk(ar, bk) && g < Levels(ar)
    decreases g
  {
    g <= ng || (p + N.BlockSize(ar, g) in bk.lists[g] && Listed(ar, bk, p, g - 1, ng))
  }

  /** `Listed` means every one of those buddies is on its list. */
  lemma {:induction false} ListedAt(ar: Arena, bk: Books, p: int, g: nat, ng: nat, h: nat)
    requires ArenaOk(ar) && BooksOk(ar, bk) && g < Levels(ar)
    ensures Listed(ar, bk, p, g, ng) <==> forall j :: ng < j <= g ==> p + N.BlockSize(ar, j) in bk.lists[j]
    decreases g
  {
    if g > ng {
      ListedAt(ar, bk, p, g - 1, ng, h);
    }
  }

  /** The second loop of `grow` succeeds exactly when those buddies are listed. */
  lemma {:induction false} GrowTakeOk(ar: Arena, bk: Books, p: int, g: nat, ng: nat)
    requires ArenaOk(ar) && BooksOk(ar, bk) && g < Levels(ar)
    ensures GrowTake(ar, bk, p, g, ng).Ok? <==> Listed(ar, bk, p, g, ng)
    decreases g
  {
    if g > ng {
      BlockSizeStep(ar, g);
      var size := N.BlockSize(ar, g);
      if p + size in bk.lists[g] {
        GrowTakeStep(ar, bk, p, g, ng, size);
        var bk1 := RemoveBlockSpec(ar, bk, g, BitmapOffset(ar, p, size), p + size);
        GrowTakeOk(ar, bk1, p, g - 1, ng);
        ListedKeeps(ar, bk, bk1, p, g - 1, ng, g);
      }
    }
  }

  /** `Listed` below granularity g does not look at list g. */
  lemma {:induction false} ListedKeeps(ar: Arena, bk: Books, bk1: Books, p: int, g: nat, ng: nat, k: nat)
    requires ArenaOk(ar) && BooksOk(ar, bk) && BooksOk(ar, bk1) && g < k < Levels(ar)
    requires forall h :: 0 <= h < Levels(ar) && h != k ==> bk1.lists[h] == bk.lists[h]
    ensures Listed(ar, bk1, p, g, ng) == Listed(ar, bk, p, g, ng)
    decreases g
  {
    if g > ng {
      ListedKeeps(ar, bk, bk1, p, g - 1, ng, k);
    }
  }

    /** The second loop of `grow` unlinks the upper buddy at each granularity from og down to just below ng. */
  lemma {:induction false} GrowTakeUnlinks(ar: Arena, bk: Books, p: int, g: nat, ng: nat, h: nat)
    requires ArenaOk(ar) && BooksOk(ar, bk) && g < Levels(ar) && ng < h <= g
    ensures var r := GrowTake(ar, bk, p, g, ng);
      r.Ok? ==> p + N.BlockSize(ar, h) in bk.lists[h] && r.value.lists[h] == Without(bk.lists[h], p + N.BlockSize(ar, h))
    decreases g
  {
    BlockSizeStep(ar, g);
    var size := N.BlockSize(ar, g);
    if p + size in bk.lists[g] {
      GrowTakeNext(ar, bk, p, g, ng, size);
      var off := BitmapOffset(ar, p, size);
      var bk1 := RemoveBlockSpec(ar, bk, g, off, p + size);
      if h < g {
        RemoveBlockKeeps(ar, bk, g, off, p + size, h);
        GrowTakeUnlinks(ar, bk1, p, g - 1, ng, h);
      } else {
        GrowTakeKeeps(ar, bk1, p, g - 1, ng, h);
      }
    }
  }

  /** The second loop of `grow` leaves the lists of the other granularities alone. */
  lemma {:induction false} GrowTakeKeeps(ar: Arena, bk: Books, p: int, g: nat, ng: nat, h: nat)
    requires ArenaOk(ar) && BooksOk(ar, bk) && g < Levels(ar) && h < Levels(ar) && !(ng < h <= g)
    ensures var r := GrowTake(ar, bk, p, g, ng);
      r.Ok? ==> r.value.lists[h] == bk.lists[h]
    decreases g
  {
    if g > ng {
      BlockSizeStep(ar, g);
      var size := N.BlockSize(ar, g);
      if p + size in bk.lists[g] {
        GrowTakeNext(ar, bk, p, g, ng, size);
        var off := BitmapOffset(ar, p, size);
        var bk1 := RemoveBlockSpec(ar, bk, g, off, p + size);
        RemoveBlockKeeps(ar, bk, g, off, p + size, h);
        GrowTakeKeeps(ar, bk1, p, g - 1, ng, h);
      }
    }
  }

  /** `grow` panics on a block size above the arena's power of two, and to a block size no larger keeps the block and the books. */
  lemma GrowKeeps(ar: Arena, bk: Books, p: int, oldL: N.Layout, newL: N.Layout)
    requires ArenaOk(ar) && BooksOk(ar, bk)
    requires oldL.size > 0 && N.LayoutOk(oldL) && newL.size > 0 && N.LayoutOk(newL)
    ensures var o := LayoutSize(ar, oldL);
      var t := LayoutSize(ar, newL);
      && (o > ar.pow2 || t > ar.pow2 ==> GrowSpec(ar, bk, p, oldL, newL).Panic?)
      && (t <= o <= ar.pow2 ==> GrowSpec(ar, bk, p, oldL, newL) == Ok((Some(p), bk)))
  {
  }

  /**
   * The block at `p` can grow in place from the old layout to the larger
   * new one: at each granularity it is the lower buddy, with its parity
   * bit set and its upper buddy on the list.
   */
  predicate BuddiesFree(ar: Arena, bk: Books, p: int, oldL: N.Layout, newL: N.Layout)
    requires ArenaOk(ar) && BooksOk(ar, bk)
    requires oldL.size > 0 && N.LayoutOk(oldL) && newL.size > 0 && N.LayoutOk(newL)
    requires LayoutSize(ar, oldL) <= LayoutSize(ar, newL) <= ar.pow2
  {
    var o := LayoutSize(ar, oldL);
    var t := LayoutSize(ar, newL);
    GranularityOfSize(ar, o);
    GranularityOfSize(ar, t);
    var og := Granularity(ar, o);
    var ng := Granularity(ar, t);
    GrowFits(ar, bk, p, og, ng) && Listed(ar, bk, p, og, ng)
  }

  /**
   * `grow` to a larger block size whose upper buddies are all free grows
   * the block in place, the same pointer, taking exactly those buddies off
   * their lists.
   */
  lemma GrowInPlace(ar: Arena, bk: Books, p: int, oldL: N.Layout, newL: N.Layout)
    requires ArenaOk(ar) && BooksOk(ar, bk)
    requires oldL.size > 0 && N.LayoutOk(oldL) && newL.size > 0 && N.LayoutOk(newL)
    requires LayoutSize(ar, oldL) < LayoutSize(ar, newL) <= ar.pow2
    requires BuddiesFree(ar, bk, p, oldL, newL)
    ensures var og := Granularity(ar, LayoutSize(ar, oldL));
      var ng := Granularity(ar, LayoutSize(ar, newL));
      var r := GrowSpec(ar, bk, p, oldL, newL);
      && r.Ok? && r.value.0 == Some(p)
      && forall h :: 0 <= h < Levels(ar) ==>
        if ng < h <= og then p + N.BlockSize(ar, h) in bk.lists[h] && r.value.1.lists[h] == Without(bk.lists[h], p + N.BlockSize(ar, h))
        else r.value.1.lists[h] == bk.lists[h]
  {
    var o := LayoutSize(ar, oldL);
    var t := LayoutSize(ar, newL);
    GranularityOfSize(ar, o);
    GranularityOfSize(ar, t);
    var og := Granularity(ar, o);
    var ng := Granularity(ar, t);
    GrowTakeOk(ar, bk, p, og, ng);
    GrowByTake(ar, bk, p, oldL, newL, og, ng);
    GrowTakeAll(ar, bk, p, og, ng);
  }

  /** `grow` whose upper buddies fit and are unlinked is the block in place with the books of the second loop. */
  lemma GrowByTake(ar: Arena, bk: Books, p: int, oldL: N.Layout, newL: N.Layout, og: nat, ng: nat)
    requires ArenaOk(ar) && BooksOk(ar, bk)
    requires oldL.size > 0 && N.LayoutOk(oldL) && newL.size > 0 && N.LayoutOk(newL)
    requires LayoutSize(ar, oldL) < LayoutSize(ar, newL) <= ar.pow2
    requires og == Granularity(ar, LayoutSize(ar, oldL)) && ng == Granularity(ar, LayoutSize(ar, newL)) && og < Levels(ar)
    requires GrowFits(ar, bk, p, og, ng) && GrowTake(ar, bk, p, og, ng).Ok?
    ensures GrowSpec(ar, bk, p, oldL, newL) == Ok((Some(p), GrowTake(ar, bk, p, og, ng).value))
  {
  }

  /** The books of the second loop of `grow`, list by list. */
  lemma GrowTakeAll(ar: Arena, bk: Books, p: int, og: nat, ng: nat)
    requires ArenaOk(ar) && BooksOk(ar, bk) && og < Levels(ar)
    ensures var r := GrowTake(ar, bk, p, og, ng);
      r.Ok? ==> forall h :: 0 <= h < Levels(ar) ==>
        if ng < h <= og then p + N.BlockSize(ar, h) in bk.lists[h] && r.value.lists[h] == Without(bk.lists[h], p + N.BlockSize(ar, h))
        else r.value.lists[h] == bk.lists[h]
  {
    var r := GrowTake(ar, bk, p, og, ng);
    if r.Ok? {
      forall h | 0 <= h < Levels(ar)
        ensures if ng < h <= og then p + N.BlockSize(ar, h) in bk.lists[h] && r.value.lists[h] == Without(bk.lists[h], p + N.BlockSize(ar, h))
          else r.value.lists[h] == bk.lists[h]
      {
        if ng < h <= og {
          GrowTakeUnlinks(ar, bk, p, og, ng, h);
        } else {
          GrowTakeKeeps(ar, bk, p, og, ng, h);
        }
      }
    }
  }

  // Steps of the merging loop of `dealloc`.

  /** The merging loop stops at a clear parity bit and frees the block. */
  lemma MergeStop(ar: Arena, bk: Books, p: int, g: nat, size: nat, off: nat)
    requires ArenaOk(ar) && BooksOk(ar, bk) && g < Levels(ar)
    requires size == N.BlockSize(ar, g) && 0 < size < U64_LIMIT && off == BitmapOffset(ar, p, size)
    requires !ReadBit(bk.bitmap, off)
    ensures MergeSpec(ar, bk, p, g) == Ok(AddBlockNextSpec(ar, bk, g, off, p))
  {
  }

  /** The merging loop at a set parity bit goes on with the buddy. */
  lemma MergeSetBit(ar: Arena, bk: Books, p: int, g: nat, size: nat, off: nat)
    requires ArenaOk(ar) && BooksOk(ar, bk) && g < Levels(ar)
    requires size == N.BlockSize(ar, g) && 0 < size < U64_LIMIT && off == BitmapOffset(ar, p, size)
    requires ReadBit(bk.bitmap, off)
    ensures MergeSpec(ar, bk, p, g) == MergeBuddy(ar, bk, p, g, size, off)
  {
  }

  /** A set parity bit whose buddy is not on its list, or at granularity 0, is a panic. */
  lemma MergeStepPanics(ar: Arena, bk: Books, p: int, g: nat, size: nat, off: nat, buddy: int)
    requires ArenaOk(ar) && BooksOk(ar, bk) && g < Levels(ar)
    requires size == N.BlockSize(ar, g) && 0 < size < U64_LIMIT && off == BitmapOffset(ar, p, size)
    requires ReadBit(bk.bitmap, off)
    requires buddy == if N.IsLowerBuddy(p, size) then p + size else p - size
    requires buddy !in bk.lists[g] || g == 0
    ensures MergeSpec(ar, bk, p, g) == Panic
  {
    MergeSetBit(ar, bk, p, g, size, off);
  }

  /** One round of the merging loop: a set parity bit unlinks the buddy and goes one granularity up. */
  lemma MergeStep(ar: Arena, bk: Books, p: int, g: nat, size: nat, off: nat, buddy: int, next: int)
    requires ArenaOk(ar) && BooksOk(ar, bk) && 0 < g < Levels(ar)
    requires size == N.BlockSize(ar, g) && 0 < size < U64_LIMIT && off == BitmapOffset(ar, p, size)
    requires ReadBit(bk.bitmap, off)
    requires buddy == if N.IsLowerBuddy(p, size) then p + size else p - size
    requires next == if N.IsLowerBuddy(p, size) then p else p - size
    requires buddy in bk.lists[g]
    ensures MergeSpec(ar, bk, p, g) == MergeSpec(ar, RemoveBlockSpec(ar, bk, g, off, buddy), next, g - 1)
  {
    MergeSetBit(ar, bk, p, g, size, off);
  }

  // Steps of the loops of `reserve`.

  /** The restore-low loop frees the previous power of two of the distance left first. */
  lemma LowBlocksStep(b: int, delta: nat)
    requires 0 < delta < U64_LIMIT
    ensures 0 < PrevPow2(delta) <= delta
    ensures LowBlocks(b, delta) == [(b, PrevPow2(delta))] + LowBlocks(b + PrevPow2(delta), delta - PrevPow2(delta))
  {
    PrevPow2Bounds(delta);
  }

  /** The restore-high loop frees the previous power of two of the distance left first, just below the end. */
  lemma HighBlocksStep(a: int, delta: nat)
    requires 0 < delta < U64_LIMIT
    ensures 0 < PrevPow2(delta) <= delta
    ensures HighBlocks(a, delta) == [(a - PrevPow2(delta), PrevPow2(delta))] + HighBlocks(a - PrevPow2(delta), delta - PrevPow2(delta))
  {
    PrevPow2Bounds(delta);
  }

  /** `add_block_next` of the first block, or a panic when its size is no granularity's. */
  lemma AddAllStep(ar: Arena, bk: Books, b: int, s: nat, rest: seq<(int, nat)>)
    requires ArenaOk(ar) && BooksOk(ar, bk)
    ensures !(IsPow2(s) && ar.smlst <= s <= ar.pow2) ==> AddAll(ar, bk, [(b, s)] + rest) == Panic
    ensures IsPow2(s) && ar.smlst <= s <= ar.pow2 ==>
      && Granularity(ar, s) < Levels(ar) && 0 < s < U64_LIMIT
      && AddAll(ar, bk, [(b, s)] + rest) == AddAll(ar, AddBlockNextSpec(ar, bk, Granularity(ar, s), BitmapOffset(ar, b, s), b), rest)
  {
    ArenaFacts(ar);
    assert ([(b, s)] + rest)[1..] == rest;
    if IsPow2(s) && ar.smlst <= s <= ar.pow2 {
      GranularityOfSize(ar, s);
    }
  }

  /** The inner loop of `reserve` meets the first node, then goes on unless that was a panic or the end. */
  lemma ReserveNodesStep(ar: Arena, bk: Books, mb: int, ma: int, g: nat, nodes: seq<int>, i: nat)
    requires ArenaOk(ar) && BooksOk(ar, bk) && g < Levels(ar) && i < |nodes|
    ensures var r := ReserveNode(ar, bk, mb, ma, g, nodes[i]);
      ReserveNodes(ar, bk, mb, ma, g, nodes[i..])
        == if r.Panic? then Panic else if r.value.1 then Ok((r.value.0, true)) else ReserveNodes(ar, r.value.0, mb, ma, g, nodes[i + 1..])
  {
    assert nodes[i..][1..] == nodes[i + 1..];
  }

  /** `Talloc`: the arena parameters, fixed by `new`, and the books, updated in place. */
  class Talloc {
    const arenaBase: int
    const arenaSize: nat
    const arenaSizePow2: nat
    const arenaSizePow2Lzcnt: nat
    const smlstAlloctbl: nat
    var avails: seq<bool>
    var llists: seq<seq<int>>
    var bitmap: seq<bool>

    function ArenaOf(): Arena {
      N.Arena(arenaBase, arenaSize, arenaSizePow2, smlstAlloctbl)
    }

    function BooksOf(): Books
      reads this
    {
      Books(avails, llists, bitmap)
    }

    ghost predicate Valid()
      reads this
    {
      ArenaOk(ArenaOf()) && BooksOk(ArenaOf(), BooksOf())
      && arenaSizePow2 < U64_LIMIT && arenaSizePow2Lzcnt == LeadingZeros(arenaSizePow2)
    }

    /** `new_invalid`: every field zero, the slices empty. */
    constructor NewInvalid()
      ensures ArenaOf() == N.Arena(0, 0, 0, 0) && arenaSizePow2Lzcnt == 0
      ensures avails == seq(64, _ => false) && llists == [] && bitmap == []
    {
      arenaBase, arenaSize, arenaSizePow2, arenaSizePow2Lzcnt, smlstAlloctbl := 0, 0, 0, 0, 0;
      avails, llists, bitmap := seq(64, _ => false), [], [];
    }

    /** The body of `new` past its asserts: the arena fields and fresh books. */
    constructor Make(base: nat, size: nat, smlst: nat, ll: nat, bm: nat)
      requires NewSpec(base, size, smlst, ll, bm).Ok?
      ensures Valid() && NewSpec(base, size, smlst, ll, bm) == Ok((ArenaOf(), BooksOf()))
    {
      NewReservesAll(base, size, smlst, ll, bm);
      ArenaFacts(N.Arena(base, size, NextPow2(size), smlst));
      var empty := EmptyBooks(ll, bm);
      arenaBase, arenaSize, arenaSizePow2, smlstAlloctbl := base, size, NextPow2(size), smlst;
      arenaSizePow2Lzcnt := LeadingZeros(NextPow2(size));
      avails, llists, bitmap := empty.avails, empty.lists, empty.bitmap;
    }

    /** `block_granularity`: the leading zeros of the size less those of the arena's power of two. */
    function BlockGranularity(size: nat): (r: nat)
      reads this
      requires Valid() && 0 < size <= arenaSizePow2
      ensures r == Granularity(ArenaOf(), size)
    {
      ArenaFacts(ArenaOf());
      Pow2Of64();
      Log2Mono(size, arenaSizePow2);
      LeadingZeros(size) - arenaSizePow2Lzcnt
    }

    method AddBlockNext(g: nat, off: nat, node: int)
      requires Valid() && g < |llists|
      modifies this
      ensures Valid() && BooksOf() == AddBlockNextSpec(ArenaOf(), old(BooksOf()), g, off, node)
    {
      avails := avails[g := true];
      llists := llists[g := [node] + llists[g]];
      bitmap := ToggleBit(bitmap, off);
    }

    method RemoveBlockNext(g: nat, size: nat) returns (node: int)
      requires Valid() && g < |llists| && llists[g] != [] && 0 < size < U64_LIMIT
      modifies this
      ensures Valid() && (BooksOf(), node) == RemoveBlockNextSpec(ArenaOf(), old(BooksOf()), g, size)
    {
      if |llists[g]| == 1 {
        avails := avails[g := false];
      }
      node := llists[g][0];
      llists := llists[g := llists[g][1..]];
      bitmap := ToggleBit(bitmap, BitmapOffset(ArenaOf(), node, size));
    }

    method RemoveBlock(g: nat, off: nat, node: int)
      requires Valid() && g < |llists| && node in llists[g]
      modifies this
      ensures Valid() && BooksOf() == RemoveBlockSpec(ArenaOf(), old(BooksOf()), g, off, node)
    {
      if |llists[g]| == 1 {
        avails := avails[g := false];
      }
      var i := N.IndexOf(llists[g], node);
      llists := llists[g := llists[g][..i] + llists[g][i + 1..]];
      bitmap := ToggleBit(bitmap, off);
    }

    /** One round of the splitting loop: the upper half at granularity hg goes on its list. */
    method SplitRound(base: int, hg: nat, g: nat, hi: nat)
      requires Valid() && hg <= g < |llists| && hi == N.BlockSize(ArenaOf(), hg) && 0 < hi < U64_LIMIT
      modifies this
      ensures Valid()
      ensures SplitSpec(ArenaOf(), BooksOf(), base, hg + 1, g) == SplitSpec(ArenaOf(), old(BooksOf()), base, hg, g)
    {
      var off := BitmapOffset(ArenaOf(), base + hi, hi);
      SplitStep(ArenaOf(), BooksOf(), base, hg, g, hi, off);
      AddBlockNext(hg, off, base + hi);
    }

    /** The splitting loop of `alloc` and `shrink`. */
    method Split(base: int, hg0: nat, hi0: nat, g: nat)
      requires Valid() && g < |llists| && hi0 == N.BlockSize(ArenaOf(), hg0)
      modifies this
      ensures Valid() && BooksOf() == SplitSpec(ArenaOf(), old(BooksOf()), base, hg0, g)
    {
      if hg0 > g {
        return;
      }
      var ar := ArenaOf();
      ghost var spec := SplitSpec(ar, BooksOf(), base, hg0, g);
      var hi := hi0;
      for hg := hg0 to g + 1
        invariant Valid()
        invariant hi == N.BlockSize(ar, hg)
        invariant SplitSpec(ar, BooksOf(), base, hg, g) == spec
      {
        BlockSizeStep(ar, hg);
        SplitRound(base, hg, g, hi);
        hi := hi / 2;
      }
    }

    method Alloc(l: N.Layout) returns (ok: bool, r: Option<int>)
      requires Valid() && l.size > 0 && N.LayoutOk(l)
      modifies this
      ensures ok == AllocSpec(ArenaOf(), old(BooksOf()), l).Ok?
      ensures ok ==> Valid() && AllocSpec(ArenaOf(), old(BooksOf()), l) == Ok((r, BooksOf()))
    {
      var size := LayoutSize(ArenaOf(), l);
      if size > arenaSizePow2 {
        return false, None;
      }
      GranularityOfSize(ArenaOf(), size);
      var g := BlockGranularity(size);
      ArenaFacts(ArenaOf());
      if avails[g] {
        var b := RemoveBlockNext(g, size);
        return true, Some(b);
      }
      r := AllocLarger(g);
      ok := true;
    }

    /** The path of `alloc` that splits the next larger available block. */
    method AllocLarger(g: nat) returns (r: Option<int>)
      requires Valid() && g < |llists|
      modifies this
      ensures Valid() && (r, BooksOf()) == AllocLargerSpec(ArenaOf(), old(BooksOf()), g)
    {
      var larger := N.HighestBelow(avails, g);
      if larger.None? {
        return None;
      }
      r := TakeAndSplit(larger.value, g);
    }

    /** `alloc` from the first block of the non-empty list lg. */
    method TakeAndSplit(lg: nat, g: nat) returns (r: Option<int>)
      requires Valid() && lg < g < |llists| && avails[lg]
      modifies this
      ensures Valid() && (r, BooksOf()) == TakeAndSplitSpec(ArenaOf(), old(BooksOf()), lg, g)
    {
      ghost var spec := TakeAndSplitSpec(ArenaOf(), BooksOf(), lg, g);
      BlockSizeStep(ArenaOf(), lg);
      var lgrSize := Shr(arenaSizePow2, lg);
      var lgrBase := RemoveBlockNext(lg, lgrSize);
      assert spec == (Some(lgrBase), SplitSpec(ArenaOf(), BooksOf(), lgrBase, lg + 1, g));
      Split(lgrBase, lg + 1, lgrSize / 2, g);
      return Some(lgrBase);
    }

    /** The merging loop of `dealloc`, from the block at `p0` of granularity `g0`. */
    method Merge(p0: int, g0: nat, size0: nat) returns (ok: bool)
      requires Valid() && g0 < |llists| && size0 == N.BlockSize(ArenaOf(), g0)
      modifies this
      ensures ok == MergeSpec(ArenaOf(), old(BooksOf()), p0, g0).Ok?
      ensures ok ==> Valid() && BooksOf() == MergeSpec(ArenaOf(), old(BooksOf()), p0, g0).value
    {
      var ar := ArenaOf();
      ghost var spec := MergeSpec(ar, BooksOf(), p0, g0);
      BlockSizeStep(ar, g0);
      var p: int, g: nat, size: nat := p0, g0, size0;
      var off := BitmapOffset(ArenaOf(), p, size);
      while ReadBit(bitmap, off)
        invariant Valid()
        invariant g < Levels(ar) && size == N.BlockSize(ar, g) && 0 < size < U64_LIMIT
        invariant off == BitmapOffset(ar, p, size)
        invariant MergeSpec(ar, BooksOf(), p, g) == spec
        decreases g
      {
        var buddy, next := p - size, p - size;
        if N.IsLowerBuddy(p, size) {
          buddy, next := p + size, p;
        }
        // A buddy missing from its list is undefined behaviour in the source.
        if buddy !in llists[g] {
          MergeStepPanics(ar, BooksOf(), p, g, size, off, buddy);
          return false;
        }
        if g == 0 {
          MergeStepPanics(ar, BooksOf(), p, g, size, off, buddy);
          RemoveBlock(g, off, buddy);
          return false;
        }
        MergeStep(ar, BooksOf(), p, g, size, off, buddy, next);
        RemoveBlock(g, off, buddy);
        BlockSizeStep(ar, g - 1);
        size := 2 * size;
        p := next;
        g := g - 1;
        off := BitmapOffset(ArenaOf(), p, size);
      }
      MergeStop(ar, BooksOf(), p, g, size, off);
      AddBlockNext(g, off, p);
      return true;
    }

    method Dealloc(ptr: int, l: N.Layout) returns (ok: bool)
      requires Valid() && l.size > 0 && N.LayoutOk(l)
      modifies this
      ensures ok == DeallocSpec(ArenaOf(), old(BooksOf()), ptr, l).Ok?
      ensures ok ==> Valid() && BooksOf() == DeallocSpec(ArenaOf(), old(BooksOf()), ptr, l).value
    {
      var size := LayoutSize(ArenaOf(), l);
      if size > arenaSizePow2 {
        return false;
      }
      GranularityOfSize(ArenaOf(), size);
      var g := BlockGranularity(size);
      ok := Merge(ptr, g, size);
    }

    method Shrink(ptr: int, oldL: N.Layout, newL: N.Layout) returns (ok: bool)
      requires Valid() && oldL.size > 0 && N.LayoutOk(oldL) && newL.size > 0 && N.LayoutOk(newL)
      modifies this
      ensures ok == ShrinkSpec(ArenaOf(), old(BooksOf()), ptr, oldL, newL).Ok?
      ensures ok ==> Valid() && BooksOf() == ShrinkSpec(ArenaOf(), old(BooksOf()), ptr, oldL, newL).value
    {
      var oldSize := LayoutSize(ArenaOf(), oldL);
      var tgtSize := LayoutSize(ArenaOf(), newL);
      if tgtSize >= oldSize {
        return true;
      }
      if oldSize > arenaSizePow2 {
        return false;
      }
      GranularityOfSize(ArenaOf(), oldSize);
      GranularityOfSize(ArenaOf(), tgtSize);
      var og := BlockGranularity(oldSize);
      var ng := BlockGranularity(tgtSize);
      BlockSizeStep(ArenaOf(), og);
      Split(ptr, og + 1, oldSize / 2, ng);
      return true;
    }

    /** The first loop of `grow`: whether each upper buddy from the old granularity to the new one is free. */
    method GrowFitsLoop(p: int, og: nat, ng: nat, oldSize: nat) returns (fits: bool)
      requires Valid() && og < Levels(ArenaOf()) && oldSize == N.BlockSize(ArenaOf(), og)
      ensures fits == GrowFits(ArenaOf(), BooksOf(), p, og, ng)
    {
      var ar := ArenaOf();
      BlockSizeStep(ar, og);
      var g: nat, size: nat := og, oldSize;
      var off := BitmapOffset(ar, p, size);
      while g > ng
        invariant g <= og && size == N.BlockSize(ar, g) && 0 < size < U64_LIMIT
        invariant off == BitmapOffset(ar, p, size)
        invariant GrowFits(ar, BooksOf(), p, og, ng) == GrowFits(ar, BooksOf(), p, g, ng)
        decreases g
      {
        if !N.IsLowerBuddy(p, size) || !ReadBit(bitmap, off) {
          return false;
        }
        BlockSizeStep(ar, g - 1);
        size := 2 * size;
        g := g - 1;
        off := BitmapOffset(ar, p, size);
      }
      return true;
    }

    /** The second loop of `grow`: unlink each upper buddy from the old granularity to the new one. */
    method GrowTakeLoop(p: int, og: nat, ng: nat, oldSize: nat) returns (ok: bool)
      requires Valid() && og < Levels(ArenaOf()) && oldSize == N.BlockSize(ArenaOf(), og)
      modifies this
      ensures ok == GrowTake(ArenaOf(), old(BooksOf()), p, og, ng).Ok?
      ensures ok ==> Valid() && BooksOf() == GrowTake(ArenaOf(), old(BooksOf()), p, og, ng).value
    {
      var ar := ArenaOf();
      ghost var spec := GrowTake(ar, BooksOf(), p, og, ng);
      BlockSizeStep(ar, og);
      var g: nat, size: nat := og, oldSize;
      while g > ng
        invariant Valid() && g <= og && size == N.BlockSize(ar, g) && 0 < size < U64_LIMIT
        invariant GrowTake(ar, BooksOf(), p, g, ng) == spec
        decreases g
      {
        ok := GrowTakeBuddy(p, g, ng, size);
        if !ok {
          return;
        }
        BlockSizeStep(ar, g - 1);
        size := 2 * size;
        g := g - 1;
      }
      return true;
    }

    /** A round of the second loop of `grow`: unlink the upper buddy of granularity g. */
    method GrowTakeBuddy(p: int, g: nat, ng: nat, size: nat) returns (ok: bool)
      requires Valid() && ng < g < Levels(ArenaOf()) && size == N.BlockSize(ArenaOf(), g) && 0 < size < U64_LIMIT
      modifies this
      ensures ok ==> Valid()
      ensures GrowTake(ArenaOf(), old(BooksOf()), p, g, ng) == if !ok then Panic else GrowTake(ArenaOf(), BooksOf(), p, g - 1, ng)
    {
      // A buddy missing from its list is undefined behaviour in the source.
      if p + size !in llists[g] {
        return false;
      }
      GrowTakeNext(ArenaOf(), BooksOf(), p, g, ng, size);
      RemoveBlock(g, BitmapOffset(ArenaOf(), p, size), p + size);
      ok := true;
    }

    method Grow(ptr: int, oldL: N.Layout, newL: N.Layout) returns (ok: bool, r: Option<int>)
      requires Valid() && oldL.size > 0 && N.LayoutOk(oldL) && newL.size > 0 && N.LayoutOk(newL)
      modifies this
      ensures ok == GrowSpec(ArenaOf(), old(BooksOf()), ptr, oldL, newL).Ok?
      ensures ok ==> Valid() && GrowSpec(ArenaOf(), old(BooksOf()), ptr, oldL, newL) == Ok((r, BooksOf()))
    {
      ghost var spec := GrowSpec(ArenaOf(), BooksOf(), ptr, oldL, newL);
      var oldSize := LayoutSize(ArenaOf(), oldL);
      var tgtSize := LayoutSize(ArenaOf(), newL);
      if oldSize > arenaSizePow2 || tgtSize > arenaSizePow2 {
        return false, None;
      }
      GranularityOfSize(ArenaOf(), oldSize);
      GranularityOfSize(ArenaOf(), tgtSize);
      var og := BlockGranularity(oldSize);
      var ng := BlockGranularity(tgtSize);
      if tgtSize <= oldSize {
        return true, Some(ptr);
      }
      var fits := GrowFitsLoop(ptr, og, ng, oldSize);
      if fits {
        ok := GrowTakeLoop(ptr, og, ng, oldSize);
        return ok, Some(ptr);
      }
      assert spec == GrowMove(ArenaOf(), BooksOf(), ptr, oldL, newL);
      ok, r := Alloc(newL);
      if !ok || r.None? {
        return;
      }
      // The copy of the block's contents is not modelled.
      ok := Dealloc(ptr, oldL);
    }

    method Release(mb: nat, ma: nat) returns (ok: bool)
      requires Valid() && mb < U64_LIMIT && ma < U64_LIMIT
      modifies this
      ensures ok == ReleaseSpec(ArenaOf(), old(BooksOf()), mb, ma).Ok?
      ensures ok ==> Valid() && BooksOf() == ReleaseSpec(ArenaOf(), old(BooksOf()), mb, ma).value
    {
      if !ReleaseArgsOk(ArenaOf(), mb, ma) || mb == 0 || mb > ma {
        return false;
      }
      ok := ReleaseLoop(mb, ma);
    }

    /** The loop of `release`: ascending blocks while they fit, then descending ones. */
    method ReleaseLoop(mb: nat, ma: nat) returns (ok: bool)
      requires Valid() && 0 < mb <= ma < U64_LIMIT
      modifies this
      ensures ok == DeallocAll(ArenaOf(), old(BooksOf()), N.ReleaseBlocks(mb, ma, smlstAlloctbl, true)).Ok?
      ensures ok ==> Valid() && BooksOf() == DeallocAll(ArenaOf(), old(BooksOf()), N.ReleaseBlocks(mb, ma, smlstAlloctbl, true)).value
    {
      var ar := ArenaOf();
      var sm := smlstAlloctbl;
      ghost var spec := DeallocAll(ar, BooksOf(), N.ReleaseBlocks(mb, ma, sm, true));
      var base, asc := mb, true;
      while true
        invariant Valid() && mb <= base <= ma
        invariant DeallocAll(ar, BooksOf(), N.ReleaseBlocks(base, ma, sm, asc)) == spec
        decreases ma - base, if asc then 1 else 0
      {
        var stop;
        ok, stop, base, asc := ReleaseRound(base, ma, asc);
        if !ok || stop {
          return;
        }
      }
    }

    /**
     * One round of the loop of `release` at `base`: ascending, the block of
     * the lowest set bit of `base` while it fits, else the switch to
     * descending; descending, the block of the previous power of two of the
     * distance left while that is at least the smallest block, else the end.
     */
    method ReleaseRound(base: int, ma: int, asc: bool) returns (ok: bool, stop: bool, next: int, nasc: bool)
      requires Valid() && 0 < base <= ma < base + U64_LIMIT
      modifies this
      ensures ok ==> Valid()
      ensures ok && !stop ==> base <= next <= ma && (next > base || (asc && !nasc))
      ensures DeallocAll(ArenaOf(), old(BooksOf()), N.ReleaseBlocks(base, ma, smlstAlloctbl, asc))
        == if !ok then Panic
           else if stop then Ok(BooksOf())
           else DeallocAll(ArenaOf(), BooksOf(), N.ReleaseBlocks(next, ma, smlstAlloctbl, nasc))
    {
      if asc {
        stop := false;
        ok, next, nasc := ReleaseAscRound(base, ma);
      } else {
        nasc := false;
        ok, stop, next := ReleaseDescRound(base, ma);
      }
    }

    /** An ascending round of the loop of `release`. */
    method ReleaseAscRound(base: int, ma: int) returns (ok: bool, next: int, nasc: bool)
      requires Valid() && 0 < base <= ma < base + U64_LIMIT
      modifies this
      ensures ok ==> Valid() && base <= next <= ma && (next > base || !nasc)
      ensures DeallocAll(ArenaOf(), old(BooksOf()), N.ReleaseBlocks(base, ma, smlstAlloctbl, true))
        == if !ok then Panic else DeallocAll(ArenaOf(), BooksOf(), N.ReleaseBlocks(next, ma, smlstAlloctbl, nasc))
    {
      var bs := N.LowBit(base);
      if base + bs > ma {
        assert N.ReleaseBlocks(base, ma, smlstAlloctbl, true) == N.ReleaseBlocks(base, ma, smlstAlloctbl, false);
        return true, base, false;
      }
      ok := ReleaseBlock(base, bs, ma, true);
      next, nasc := base + bs, true;
    }

    /** A descending round of the loop of `release`; `stop` is its end. */
    method ReleaseDescRound(base: int, ma: int) returns (ok: bool, stop: bool, next: int)
      requires Valid() && 0 < base <= ma < base + U64_LIMIT
      modifies this
      ensures ok ==> Valid()
      ensures ok && !stop ==> base < next <= ma
      ensures DeallocAll(ArenaOf(), old(BooksOf()), N.ReleaseBlocks(base, ma, smlstAlloctbl, false))
        == if !ok then Panic
           else if stop then Ok(BooksOf())
           else DeallocAll(ArenaOf(), BooksOf(), N.ReleaseBlocks(next, ma, smlstAlloctbl, false))
    {
      var delta := ma - base;
      if delta < smlstAlloctbl {
        assert N.ReleaseBlocks(base, ma, smlstAlloctbl, false) == [];
        return true, true, base;
      }
      var bs := PrevPow2(delta);
      ok := ReleaseBlock(base, bs, ma, false);
      stop, next := false, base + bs;
    }

    /** `dealloc` of the block at `bb` in a round of the loop of `release`. */
    method ReleaseBlock(bb: int, bs: nat, ma: int, asc: bool) returns (ok: bool)
      requires Valid() && bb <= ma < bb + U64_LIMIT
      requires asc ==> bs == N.LowBit(bb) && bb + bs <= ma
      requires !asc ==> ma - bb >= smlstAlloctbl && bs == PrevPow2(ma - bb)
      modifies this
      ensures bs > 0 && bb + bs <= ma
      ensures ok ==> Valid()
      ensures DeallocAll(ArenaOf(), old(BooksOf()), N.ReleaseBlocks(bb, ma, smlstAlloctbl, asc))
        == if !ok then Panic else DeallocAll(ArenaOf(), BooksOf(), N.ReleaseBlocks(bb + bs, ma, smlstAlloctbl, asc))
    {
      N.ReleaseBlocksStep(bb, bs, ma, smlstAlloctbl, asc);
      DeallocAllStep(ArenaOf(), BooksOf(), bb, bs, N.ReleaseBlocks(bb + bs, ma, smlstAlloctbl, asc));
      if bs > N.ISIZE_MAX {
        return false;
      }
      Pow2IsPow2(0);
      ok := Dealloc(bb, N.Layout(bs, 1));
    }

    /**
     * `add_block_next` of a block of a restore loop at the granularity of
     * its size; a size that is no granularity's is a panic.
     */
    method AddRestored(b: int, bs: nat, ghost rest: seq<(int, nat)>) returns (ok: bool)
      requires Valid()
      modifies this
      ensures ok ==> Valid()
      ensures AddAll(ArenaOf(), old(BooksOf()), [(b, bs)] + rest) == if !ok then Panic else AddAll(ArenaOf(), BooksOf(), rest)
    {
      AddAllStep(ArenaOf(), BooksOf(), b, bs, rest);
      if !IsPow2(bs) || bs < smlstAlloctbl || bs > arenaSizePow2 {
        return false;
      }
      AddBlockNext(BlockGranularity(bs), BitmapOffset(ArenaOf(), b, bs), b);
      return true;
    }

    /** One round of the restore-low loop: the block of the previous power of two of `delta` at `base`. */
    method RestoreLowRound(base: int, delta: nat) returns (ok: bool, bs: nat)
      requires Valid() && 0 < delta < U64_LIMIT
      modifies this
      ensures 0 < bs <= delta
      ensures ok ==> Valid()
      ensures AddAll(ArenaOf(), old(BooksOf()), LowBlocks(base, delta))
        == if !ok then Panic else AddAll(ArenaOf(), BooksOf(), LowBlocks(base + bs, delta - bs))
    {
      LowBlocksStep(base, delta);
      bs := PrevPow2(delta);
      ok := AddRestored(base, bs, LowBlocks(base + bs, delta - bs));
    }

    /** The restore-low loop of `reserve` on the block at `b` holding the span's start. */
    method RestoreLowLoop(b: int, mb: int) returns (ok: bool)
      requires Valid() && b < mb < b + U64_LIMIT
      modifies this
      ensures ok == AddAll(ArenaOf(), old(BooksOf()), LowBlocks(b, mb - b)).Ok?
      ensures ok ==> Valid() && BooksOf() == AddAll(ArenaOf(), old(BooksOf()), LowBlocks(b, mb - b)).value
    {
      ghost var spec := AddAll(ArenaOf(), BooksOf(), LowBlocks(b, mb - b));
      var base := b;
      var delta: nat := mb - b;
      while delta > 0
        invariant Valid() && delta < U64_LIMIT
        invariant AddAll(ArenaOf(), BooksOf(), LowBlocks(base, delta)) == spec
        decreases delta
      {
        var bs;
        ok, bs := RestoreLowRound(base, delta);
        if !ok {
          return;
        }
        delta := delta - bs;
        base := base + bs;
      }
      return true;
    }

    /** One round of the restore-high loop: the block of the previous power of two of `delta` just below `acme`. */
    method RestoreHighRound(acme: int, delta: nat) returns (ok: bool, bs: nat)
      requires Valid() && 0 < delta < U64_LIMIT
      modifies this
      ensures 0 < bs <= delta
      ensures ok ==> Valid()
      ensures AddAll(ArenaOf(), old(BooksOf()), HighBlocks(acme, delta))
        == if !ok then Panic else AddAll(ArenaOf(), BooksOf(), HighBlocks(acme - bs, delta - bs))
    {
      HighBlocksStep(acme, delta);
      bs := PrevPow2(delta);
      ok := AddRestored(acme - bs, bs, HighBlocks(acme - bs, delta - bs));
    }

    /** The restore-high loop of `reserve` on the block ending at `ba` holding the span's end. */
    method RestoreHighLoop(ba: int, ma: int) returns (ok: bool)
      requires Valid() && ma < ba < ma + U64_LIMIT
      modifies this
      ensures ok == AddAll(ArenaOf(), old(BooksOf()), HighBlocks(ba, ba - ma)).Ok?
      ensures ok ==> Valid() && BooksOf() == AddAll(ArenaOf(), old(BooksOf()), HighBlocks(ba, ba - ma)).value
    {
      ghost var spec := AddAll(ArenaOf(), BooksOf(), HighBlocks(ba, ba - ma));
      var acme := ba;
      var delta: nat := ba - ma;
      while delta > 0
        invariant Valid() && delta < U64_LIMIT
        invariant AddAll(ArenaOf(), BooksOf(), HighBlocks(acme, delta)) == spec
        decreases delta
      {
        var bs;
        ok, bs := RestoreHighRound(acme, delta);
        if !ok {
          return;
        }
        delta := delta - bs;
        acme := acme - bs;
      }
      return true;
    }

    /** `reserve` meeting the free block [b, b + bs) of granularity g; `done` ends the reserve. */
    method ReserveAt(mb: int, ma: int, g: nat, b: int, bs: nat) returns (ok: bool, done: bool)
      requires Valid() && g < |llists| && 0 < bs < U64_LIMIT
      modifies this
      ensures ok == ReserveBlock(ArenaOf(), old(BooksOf()), mb, ma, g, b, bs).Ok?
      ensures ok ==> Valid() && ReserveBlock(ArenaOf(), old(BooksOf()), mb, ma, g, b, bs) == Ok((BooksOf(), done))
    {
      var ar := ArenaOf();
      var ba := b + bs;
      var off := BitmapOffset(ar, b, bs);
      if mb <= b && ma >= ba {
        if b !in llists[g] {
          return false, false;
        }
        RemoveBlock(g, off, b);
        return true, mb == b && ma == ba;
      }
      var firstContained := b < mb < ba;
      var lastContained := b < ma < ba;
      if !firstContained && !lastContained {
        return true, false;
      }
      if b !in llists[g] {
        return false, false;
      }
      RemoveBlock(g, off, b);
      ghost var bk1 := BooksOf();
      if firstContained {
        ok := RestoreLowLoop(b, mb);
        if !ok {
          return false, false;
        }
      }
      assert RestoreLow(ar, bk1, b, ba, mb) == Ok(BooksOf());
      ghost var bk2 := BooksOf();
      if lastContained {
        ok := RestoreHighLoop(ba, ma);
        if !ok {
          return false, false;
        }
      }
      assert RestoreHigh(ar, bk2, b, ba, ma) == Ok(BooksOf());
      return true, firstContained && lastContained;
    }

    /** The inner loop of `reserve` over the blocks list g held when it began. */
    method ReserveList(mb: int, ma: int, g: nat, bs: nat) returns (ok: bool, done: bool)
      requires Valid() && g < Levels(ArenaOf()) && bs == N.BlockSize(ArenaOf(), g)
      modifies this
      ensures ok == ReserveNodes(ArenaOf(), old(BooksOf()), mb, ma, g, old(llists[g])).Ok?
      ensures ok ==> Valid() && ReserveNodes(ArenaOf(), old(BooksOf()), mb, ma, g, old(llists[g])) == Ok((BooksOf(), done))
    {
      var ar := ArenaOf();
      BlockSizeStep(ar, g);
      var nodes := llists[g];
      ghost var spec := ReserveNodes(ar, BooksOf(), mb, ma, g, nodes);
      assert nodes[0..] == nodes;
      var i := 0;
      while i < |nodes|
        invariant 0 <= i <= |nodes| && Valid()
        invariant ReserveNodes(ar, BooksOf(), mb, ma, g, nodes[i..]) == spec
      {
        ReserveNodesStep(ar, BooksOf(), mb, ma, g, nodes, i);
        ok, done := ReserveAt(mb, ma, g, nodes[i], bs);
        if !ok || done {
          return;
        }
        i := i + 1;
      }
      return true, false;
    }

    method Reserve(mb: nat, ma: nat) returns (ok: bool)
      requires Valid() && mb < U64_LIMIT && ma < U64_LIMIT
      modifies this
      ensures ok == ReserveSpec(ArenaOf(), old(BooksOf()), mb, ma).Ok?
      ensures ok ==> Valid() && BooksOf() == ReserveSpec(ArenaOf(), old(BooksOf()), mb, ma).value
    {
      var ar := ArenaOf();
      if !ReserveArgsOk(ar, mb, ma) || mb == 0 || ma == 0 {
        return false;
      }
      ArenaFacts(ar);
      FinestVisits(ar, mb, ma);
      var baseG := BlockGranularity(Min(N.LowBit(mb), arenaSizePow2));
      var acmeG := BlockGranularity(Min(N.LowBit(ma), arenaSizePow2));
      var fin := Max(baseG, acmeG);
      assert fin == FinestGranularity(ar, mb, ma);
      ok := ReserveLoop(mb, ma, fin);
    }

    /** The rounds of `reserve` for the granularities 0 through `fin`, list by list. */
    method ReserveLoop(mb: nat, ma: nat, fin: nat) returns (ok: bool)
      requires Valid() && fin < Levels(ArenaOf())
      modifies this
      ensures ok == ReserveRounds(ArenaOf(), old(BooksOf()), mb, ma, 0, fin + 1).Ok?
      ensures ok ==> Valid() && BooksOf() == ReserveRounds(ArenaOf(), old(BooksOf()), mb, ma, 0, fin + 1).value
    {
      var ar := ArenaOf();
      ghost var spec := ReserveRounds(ar, BooksOf(), mb, ma, 0, fin + 1);
      var blockSize := arenaSizePow2;
      for g := 0 to fin + 1
        invariant Valid()
        invariant blockSize == N.BlockSize(ar, g)
        invariant ReserveRounds(ar, BooksOf(), mb, ma, g, fin + 1) == spec
      {
        var done;
        ok, done := ReserveList(mb, ma, g, blockSize);
        if !ok || done {
          return;
        }
        blockSize := blockSize / 2;
      }
      ok := true;
    }
  }

  /** `new`: its asserts, then the arena fields and fresh books of the given slice lengths. */
  method New(base: nat, size: nat, smlst: nat, llLen: nat, bmLen: nat) returns (t: Option<Talloc>)
    ensures t.None? <==> NewSpec(base, size, smlst, llLen, bmLen).Panic?
    ensures t.Some? ==> t.value.Valid() && NewSpec(base, size, smlst, llLen, bmLen) == Ok((t.value.ArenaOf(), t.value.BooksOf()))
  {
    if !ValidArenaArgs(size, smlst) || base + size - 1 >= U64_LIMIT {
      return None;
    }
    var sizes := SliceArgSizes(size, smlst);
    if sizes.Panic? || sizes.value != (llLen, bmLen) {
      return None;
    }
    var talloc := new Talloc.Make(base, size, smlst, llLen, bmLen);
    return Some(talloc);
  }
}
