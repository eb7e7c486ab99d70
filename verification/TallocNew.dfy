/**
 * The current buddy allocator, `Talloc` of kernel/src/memm/talloc.rs.
 *
 * An arena of `arena_size` bytes at `arena_base` is carved into power-of-two
 * blocks. Granularity 0 is the block of `arena_size_pow2` bytes (the arena
 * size rounded up to a power of two), granularity g the blocks of
 * `arena_size_pow2 >> g` bytes, down to the smallest block. The books are
 * - `avails`: bit g set while the free list of granularity g is not empty;
 * - `llists`: one free list per granularity, each modelled as the sequence
 *   of block bases after its sentinel (the circular list of Llist.dfy read
 *   from the sentinel's `next`);
 * - `bitmap`: one parity bit per buddy pair, set while exactly one of the
 *   two buddies is free.
 * Addresses are `isize` values, modelled as `int`.
 */
module TallocNew {
  import opened Wrappers
  import opened Powers
  import Arith

  /** Limit imposed by the AMD64 linear address space. */
  const MAXIMUM_ARENA_SIZE: nat := 0x1_0000_0000_0000
  /** Limit imposed by the size of the books. */
  const MINIMUM_ARENA_SIZE: nat := 0x40
  /** `size_of::<LlistNode<()>>()`: two pointers. */
  const NODE_SIZE: nat := 16
  const ISIZE_MAX: nat := 0x7fff_ffff_ffff_ffff

  /** `core::alloc::Layout`: a size and a power-of-two alignment. */
  datatype Layout = Layout(size: nat, align: nat)

  /** What `Layout` itself guarantees of its fields. */
  predicate LayoutOk(l: Layout) {
    IsPow2(l.align) && l.align <= 0x8000_0000_0000_0000 && l.size <= ISIZE_MAX
  }

  /** `x & !(m - 1)` for a power of two `m`: `x` rounded down to a multiple of `m`. */
  function RoundDown(x: int, m: nat): (r: int)
    requires m > 0
    ensures r % m == 0 && r <= x < r + m
  {
    var q := x / m;
    DivExact(m * q, m, q);
    m * q
  }

  /** `x + m - 1 & !(m - 1)`: `x` rounded up to a multiple of `m`. */
  function RoundUp(x: int, m: nat): (r: int)
    requires m > 0
    ensures r % m == 0 && x <= r < x + m
  {
    RoundDown(x + m - 1, m)
  }

  /**
   * `layout_to_size`: the previous power of two of
   * `next_pow2(size) | align | smlst_block`. All three are powers of two, so
   * that is the largest of them (LayoutToSizeBitwise).
   */
  function LayoutToSize(smlst: nat, l: Layout): (r: nat)
    requires l.size > 0 && LayoutOk(l)
    requires IsPow2(smlst) && smlst <= 0x8000_0000_0000_0000
    ensures IsPow2(r) && r >= l.size && r >= l.align && r >= smlst
  {
    NextPow2Bounds(l.size);
    Max(Max(NextPow2(l.size), l.align), smlst)
  }

  /** The block size is the source's bitwise formula. */
  lemma LayoutToSizeBitwise(smlst: nat, l: Layout)
    requires l.size > 0 && LayoutOk(l)
    requires IsPow2(smlst) && smlst <= 0x8000_0000_0000_0000
    ensures 0 < Or(Or(NextPow2(l.size), l.align), smlst) < U64_LIMIT
    ensures LayoutToSize(smlst, l) == PrevPow2(Or(Or(NextPow2(l.size), l.align), smlst))
  {
    NextPow2Bounds(l.size);
    Pow2Of64();
    NextPow2Least(l.size, 63);
    OrOfPowers(NextPow2(l.size), l.align, smlst);
  }

  /** No smaller power of two serves the layout: the block size is the least one that does. */
  lemma LayoutToSizeLeast(smlst: nat, l: Layout, p: nat)
    requires l.size > 0 && LayoutOk(l)
    requires IsPow2(smlst) && smlst <= 0x8000_0000_0000_0000
    requires IsPow2(p) && p >= l.size && p >= l.align && p >= smlst && p <= 0x8000_0000_0000_0000
    ensures LayoutToSize(smlst, l) <= p
  {
    NextPow2Least(l.size, Log2(p));
  }

  /** `is_lower_buddy`: the bit of weight `size` of the base is clear. */
  predicate IsLowerBuddy(b: int, size: nat)
    requires size > 0
  {
    (b / size) % 2 == 0
  }

  /** The arena parameters, fixed by `extend`. */
  datatype Arena = Arena(base: int, size: nat, pow2: nat, smlst: nat)

  /** What `validate_arena_args` and `slice_bytes` let through, and `extend` sets up. */
  predicate ArenaOk(ar: Arena) {
    MINIMUM_ARENA_SIZE <= ar.size <= MAXIMUM_ARENA_SIZE
    && ar.pow2 == NextPow2(ar.size)
    && IsPow2(ar.smlst) && NODE_SIZE <= ar.smlst <= ar.pow2
  }

  lemma ArenaFacts(ar: Arena)
    requires ArenaOk(ar)
    ensures IsPow2(ar.pow2) && ar.size <= ar.pow2 <= MAXIMUM_ARENA_SIZE
    ensures 4 <= Log2(ar.smlst) <= Log2(ar.pow2) <= 48
    ensures Pow2(Log2(ar.pow2)) == ar.pow2 && Pow2(Log2(ar.smlst)) == ar.smlst
  {
    Pow2Of64();
    NextPow2Bounds(ar.size);
    NextPow2Least(ar.size, 48);
    Log2Mono(ar.smlst, ar.pow2);
    Log2Mono(ar.pow2, MAXIMUM_ARENA_SIZE);
    Log2Pow2(48);
    Log2Mono(NODE_SIZE, ar.smlst);
    assert Pow2(4) == NODE_SIZE;
    Log2Pow2(4);
  }

  /** The number of granularities, which is the number of free lists. */
  function Levels(ar: Arena): (r: nat)
    requires ArenaOk(ar)
    ensures 1 <= r <= 45
  {
    ArenaFacts(ar);
    Log2(ar.pow2) - Log2(ar.smlst) + 1
  }

  /** `arena_size_pow2 >> g`: the block size of granularity g. */
  function BlockSize(ar: Arena, g: nat): nat {
    Shr(ar.pow2, g)
  }

  /** The block size of granularity g is 2 to the arena's exponent less g. */
  lemma BlockSizeExp(ar: Arena, g: nat)
    requires IsPow2(ar.pow2) && g <= Log2(ar.pow2)
    ensures BlockSize(ar, g) == Pow2(Log2(ar.pow2) - g)
  {
    ShrPow2(Log2(ar.pow2), g);
  }

  lemma Pow2Between(p: nat, s: nat, g: nat)
    requires s + g <= p
    ensures IsPow2(Pow2(p - g)) && Pow2(s) <= Pow2(p - g) <= Pow2(p)
  {
    Pow2Mono(s, p - g);
    Pow2Mono(p - g, p);
    Pow2IsPow2(p - g);
  }

  /** Blocks halve from one granularity to the next. */
  lemma BlockSizeHalves(ar: Arena, g: nat)
    requires IsPow2(ar.pow2) && g < Log2(ar.pow2)
    ensures BlockSize(ar, g) == 2 * BlockSize(ar, g + 1)
  {
    BlockSizeExp(ar, g);
    BlockSizeExp(ar, g + 1);
    assert Pow2(Log2(ar.pow2) - g) == 2 * Pow2(Log2(ar.pow2) - g - 1);
  }

  /** Every granularity's blocks are powers of two, at least the smallest block, and halve per granularity. */
  lemma BlockSizeAt(ar: Arena, g: nat)
    requires ArenaOk(ar) && g < Levels(ar)
    ensures BlockSize(ar, g) == Pow2(Log2(ar.pow2) - g)
    ensures IsPow2(BlockSize(ar, g)) && ar.smlst <= BlockSize(ar, g) <= ar.pow2 <= MAXIMUM_ARENA_SIZE
    ensures BlockSize(ar, g) == 2 * BlockSize(ar, g + 1)
  {
    ArenaFacts(ar);
    BlockSizeExp(ar, g);
    BlockSizeHalves(ar, g);
    Pow2Between(Log2(ar.pow2), Log2(ar.smlst), g);
  }

  /** `block_granularity`: the difference of the leading zero counts. */
  function Granularity(ar: Arena, size: nat): (r: nat)
    requires ArenaOk(ar) && 0 < size <= ar.pow2
    ensures r == Log2(ar.pow2) - Log2(size)
  {
    ArenaFacts(ar);
    Pow2Of64();
    Log2Mono(size, ar.pow2);
    LeadingZeros(size) - LeadingZeros(ar.pow2)
  }

  /** A block size the arena has is the block size of its granularity, whose halves are the next one's. */
  lemma GranularityOfSize(ar: Arena, size: nat)
    requires ArenaOk(ar) && IsPow2(size) && ar.smlst <= size <= ar.pow2
    ensures Granularity(ar, size) < Levels(ar)
    ensures BlockSize(ar, Granularity(ar, size)) == size
    ensures size < U64_LIMIT && size / 2 == BlockSize(ar, Granularity(ar, size) + 1)
  {
    var g := Granularity(ar, size);
    Log2Mono(ar.smlst, size);
    assert g < Levels(ar);
    BlockSizeAt(ar, g);
    assert Log2(ar.pow2) - g == Log2(size);
    assert BlockSize(ar, g) == Pow2(Log2(size));
  }

  /** The smallest block fits the operand of `layout_to_size`, and the arena fits its power of two. */
  lemma SmallestBlockFits(ar: Arena)
    requires ArenaOk(ar)
    ensures ar.smlst <= 0x8000_0000_0000_0000 && ar.size <= ar.pow2
  {
    ArenaFacts(ar);
  }

  /**
   * `bitmap_offset`: the arena base rounded down to twice the block size,
   * the distance of the block from it (as `usize`), plus the arena's
   * power-of-two size, shifted right by one more than the block size's
   * logarithm.
   */
  function BitmapOffset(ar: Arena, b: int, size: nat): nat
    requires 0 < size < U64_LIMIT
  {
    var aligned := RoundDown(ar.base, 2 * size);
    var x := ar.pow2 + (b - aligned) % U64_LIMIT;
    Shr(x, FastLog2(size) + 1)
  }

  /** `1 << i` as a byte. */
  function Mask(i: nat): bv8
    requires i < 8
  {
    (1 as bv8) << i
  }

  /**
   * `read_bitflag`: bit `off % 8` of byte `off / 8`. An offset past the end
   * (undefined behaviour in the source) reads as clear.
   */
  predicate ReadBit(bm: seq<bv8>, off: nat) {
    off / 8 < |bm| && bm[off / 8] & Mask(off % 8) != 0
  }

  /** `toggle_bitflag`: flip bit `off % 8` of byte `off / 8`; an offset past the end changes nothing. */
  function ToggleBit(bm: seq<bv8>, off: nat): (r: seq<bv8>)
    ensures |r| == |bm|
  {
    if off / 8 < |bm| then bm[off / 8 := bm[off / 8] ^ Mask(off % 8)] else bm
  }

  lemma ByteToggle(x: bv8, i: nat, j: nat)
    requires i < 8 && j < 8
    ensures ((x ^ Mask(i)) & Mask(j) != 0) == ((x & Mask(j) != 0) != (i == j))
  {
  }

  lemma ByteToggleTwice(x: bv8, i: nat)
    requires i < 8
    ensures (x ^ Mask(i)) ^ Mask(i) == x
  {
  }

  /** Toggling flips the one bit at the offset and no other. */
  lemma ToggleFlipsOne(bm: seq<bv8>, off: nat, k: nat)
    requires off / 8 < |bm|
    ensures ReadBit(ToggleBit(bm, off), k) == (ReadBit(bm, k) != (k == off))
  {
    if k / 8 < |bm| && k / 8 == off / 8 {
      ByteToggle(bm[off / 8], off % 8, k % 8);
      assert (k == off) == (k % 8 == off % 8);
    }
  }

  /** Toggling twice restores the bitmap. */
  lemma ToggleTwice(bm: seq<bv8>, off: nat)
    ensures ToggleBit(ToggleBit(bm, off), off) == bm
  {
    if off / 8 < |bm| {
      ByteToggleTwice(bm[off / 8], off % 8);
    }
  }

  /** The books: the availability bits, the free lists and the parity bitmap. */
  datatype Books = Books(avails: seq<bool>, lists: seq<seq<int>>, bitmap: seq<bv8>)

  /** `avails` bit g is set exactly while free list g is not empty. */
  predicate AvailsAgree(bk: Books)
    requires |bk.avails| == 64
  {
    forall g :: 0 <= g < 64 ==> bk.avails[g] == (g < |bk.lists| && bk.lists[g] != [])
  }

  /** The books' shape: a 64-bit `avails`, one list per granularity, a bit per buddy-pair slot. */
  predicate BooksOk(ar: Arena, bk: Books)
    requires ArenaOk(ar)
  {
    |bk.avails| == 64 && |bk.lists| == Levels(ar) && Pow2(Levels(ar)) <= 8 * |bk.bitmap|
    && AvailsAgree(bk)
  }

  /** `add_block_next`: set the avails bit, push the node after the sentinel, toggle its bit. */
  function AddBlockNextSpec(ar: Arena, bk: Books, g: nat, off: nat, node: int): (r: Books)
    requires ArenaOk(ar) && BooksOk(ar, bk) && g < |bk.lists|
    ensures BooksOk(ar, r) && r.avails[g]
  {
    Books(bk.avails[g := true], bk.lists[g := [node] + bk.lists[g]], ToggleBit(bk.bitmap, off))
  }

  /**
   * `remove_block_next`: unlink the node after the sentinel, clear the
   * avails bit when it was the last one (the sentinel's `prev` equals its
   * `next` exactly then, Llist.PrevIsNextIffShort), toggle its bit, and
   * return it.
   */
  function RemoveBlockNextSpec(ar: Arena, bk: Books, g: nat, size: nat): (r: (Books, int))
    requires ArenaOk(ar) && BooksOk(ar, bk) && g < |bk.lists| && bk.lists[g] != []
    requires 0 < size < U64_LIMIT
    ensures BooksOk(ar, r.0)
    ensures r.1 == bk.lists[g][0] && r.0.lists[g] == bk.lists[g][1..]
    ensures r.0.avails[g] == (|bk.lists[g]| > 1)
  {
    var l := bk.lists[g];
    var node := l[0];
    (Books(if |l| == 1 then bk.avails[g := false] else bk.avails,
           bk.lists[g := l[1..]],
           ToggleBit(bk.bitmap, BitmapOffset(ar, node, size))),
     node)
  }

  /** The first position of `x` in `l`. */
  function IndexOf(l: seq<int>, x: int): (i: nat)
    requires x in l
    ensures i < |l| && l[i] == x && x !in l[..i]
  {
    if l[0] == x then 0 else IndexOf(l[1..], x) + 1
  }

  /** `remove_block`: unlink a given node, clear the avails bit when it was the last one, toggle its bit. */
  function RemoveBlockSpec(ar: Arena, bk: Books, g: nat, off: nat, node: int): (r: Books)
    requires ArenaOk(ar) && BooksOk(ar, bk) && g < |bk.lists| && node in bk.lists[g]
    ensures BooksOk(ar, r)
    ensures |r.lists[g]| == |bk.lists[g]| - 1
    ensures r.avails[g] == (|bk.lists[g]| > 1)
  {
    var l := bk.lists[g];
    var i := IndexOf(l, node);
    Books(if |l| == 1 then bk.avails[g := false] else bk.avails,
          bk.lists[g := l[..i] + l[i + 1..]],
          ToggleBit(bk.bitmap, off))
  }

  /**
   * `fast_non0_log2(avails & !(usize::MAX << g))`: the highest set avails
   * bit below g, which is the largest available block smaller in
   * granularity; None when the masked word is zero.
   */
  function HighestBelow(avails: seq<bool>, g: nat): (r: Option<nat>)
    requires g <= |avails|
    ensures r.Some? ==> r.value < g && avails[r.value] && forall j :: r.value < j < g ==> !avails[j]
    ensures r.None? ==> forall j :: 0 <= j < g ==> !avails[j]
  {
    if g == 0 then None
    else if avails[g - 1] then Some(g - 1)
    else HighestBelow(avails, g - 1)
  }

  /**
   * The splitting loop of `alloc` (and of `shrink`): for each granularity
   * hg from `hg` to `g`, free the upper half of the block at `base`, of
   * `arena_size_pow2 >> hg` bytes.
   */
  function SplitSpec(ar: Arena, bk: Books, base: int, hg: nat, g: nat): (r: Books)
    requires ArenaOk(ar) && BooksOk(ar, bk) && g < Levels(ar)
    ensures BooksOk(ar, r)
    decreases g + 1 - hg, 1
  {
    if hg > g then bk else SplitRoundSpec(ar, bk, base, hg, g)
  }

  /** One round of the splitting loop: free the upper half at granularity hg and go on. */
  function SplitRoundSpec(ar: Arena, bk: Books, base: int, hg: nat, g: nat): (r: Books)
    requires ArenaOk(ar) && BooksOk(ar, bk) && hg <= g < Levels(ar)
    ensures BooksOk(ar, r)
    decreases g + 1 - hg, 0
  {
    BlockSizeStep(ar, hg);
    var hi := BlockSize(ar, hg);
    SplitSpec(ar, AddBlockNextSpec(ar, bk, hg, BitmapOffset(ar, base + hi, hi), base + hi), base, hg + 1, g)
  }

  /** The block size of a granularity is a `u64` and halves at the next one. */
  lemma BlockSizeStep(ar: Arena, g: nat)
    requires ArenaOk(ar) && g < Levels(ar)
    ensures 0 < BlockSize(ar, g) < U64_LIMIT && BlockSize(ar, g) == 2 * BlockSize(ar, g + 1)
  {
    BlockSizeAt(ar, g);
  }

  /** One round of the splitting loop. */
  lemma SplitStep(ar: Arena, bk: Books, base: int, hg: nat, g: nat, hi: nat, off: nat)
    requires ArenaOk(ar) && BooksOk(ar, bk) && hg <= g < Levels(ar)
    requires hi == BlockSize(ar, hg) && 0 < hi < U64_LIMIT && off == BitmapOffset(ar, base + hi, hi)
    ensures SplitSpec(ar, AddBlockNextSpec(ar, bk, hg, off, base + hi), base, hg + 1, g)
      == SplitSpec(ar, bk, base, hg, g)
  {
  }

  /**
   * `alloc`: the block size for the layout; no block when it exceeds the
   * arena (the out-of-memory handler is taken to fail). A block of the
   * granularity is taken when its list is not empty; otherwise the
   * smallest larger available block is taken and split down, or there is
   * no block.
   */
  function AllocSpec(ar: Arena, bk: Books, l: Layout): (r: (Option<int>, Books))
    requires ArenaOk(ar) && BooksOk(ar, bk) && l.size > 0 && LayoutOk(l)
    ensures BooksOk(ar, r.1)
  {
    SmallestBlockFits(ar);
    var size := LayoutToSize(ar.smlst, l);
    if size > ar.size then (None, bk)
    else
      GranularityOfSize(ar, size);
      var g := Granularity(ar, size);
      if bk.avails[g] then
        var taken := RemoveBlockNextSpec(ar, bk, g, size);
        (Some(taken.1), taken.0)
      else AllocLargerSpec(ar, bk, g)
  }

  /**
   * `alloc` when granularity g has no free block: the smallest larger
   * available block is taken and split down to g, or there is no block.
   */
  function AllocLargerSpec(ar: Arena, bk: Books, g: nat): (r: (Option<int>, Books))
    requires ArenaOk(ar) && BooksOk(ar, bk) && g < Levels(ar)
    ensures BooksOk(ar, r.1)
    ensures r.0.None? <==> forall j :: 0 <= j < g ==> !bk.avails[j]
  {
    match HighestBelow(bk.avails, g)
    case None => (None, bk)
    case Some(lg) => TakeAndSplitSpec(ar, bk, lg, g)
  }

  /** The first block of the non-empty list lg, unlinked and split down to granularity g. */
  function TakeAndSplitSpec(ar: Arena, bk: Books, lg: nat, g: nat): (r: (Option<int>, Books))
    requires ArenaOk(ar) && BooksOk(ar, bk) && lg < g < Levels(ar) && bk.avails[lg]
    ensures BooksOk(ar, r.1) && r.0 == Some(bk.lists[lg][0])
  {
    BlockSizeStep(ar, lg);
    var taken := RemoveBlockNextSpec(ar, bk, lg, BlockSize(ar, lg));
    (Some(taken.1), SplitSpec(ar, taken.0, taken.1, lg + 1, g))
  }

  /**
   * The merging loop of `dealloc` at granularity g: while the parity bit of
   * the block's pair is set, unlink the buddy and continue with the merged
   * block one granularity up; then free the block. A buddy that is not in
   * its list (undefined behaviour in the source) and a merge past
   * granularity 0 (the `granularity -= 1` underflow) are panics.
   */
  function MergeSpec(ar: Arena, bk: Books, p: int, g: nat): (r: Result<Books>)
    requires ArenaOk(ar) && BooksOk(ar, bk) && g < Levels(ar)
    ensures r.Ok? ==> BooksOk(ar, r.value)
    decreases g, 1
  {
    BlockSizeStep(ar, g);
    var size := BlockSize(ar, g);
    var off := BitmapOffset(ar, p, size);
    if !ReadBit(bk.bitmap, off) then Ok(AddBlockNextSpec(ar, bk, g, off, p))
    else MergeBuddy(ar, bk, p, g, size, off)
  }

  /**
   * A round of the merging loop whose parity bit is set: the buddy is the
   * block on the other side of the bit of weight `size`; it is unlinked and
   * the merged block goes one granularity up.
   */
  function MergeBuddy(ar: Arena, bk: Books, p: int, g: nat, size: nat, off: nat): (r: Result<Books>)
    requires ArenaOk(ar) && BooksOk(ar, bk) && g < Levels(ar) && size > 0
    ensures r.Ok? ==> BooksOk(ar, r.value)
    decreases g, 0
  {
    var lower := IsLowerBuddy(p, size);
    var buddy := if lower then p + size else p - size;
    var next := if lower then p else p - size;
    if buddy !in bk.lists[g] || g == 0 then Panic
    else MergeSpec(ar, RemoveBlockSpec(ar, bk, g, off, buddy), next, g - 1)
  }

  /** The merging loop stops at a clear parity bit and frees the block. */
  lemma MergeStop(ar: Arena, bk: Books, p: int, g: nat, size: nat, off: nat)
    requires ArenaOk(ar) && BooksOk(ar, bk) && g < Levels(ar)
    requires size == BlockSize(ar, g) && 0 < size < U64_LIMIT && off == BitmapOffset(ar, p, size)
    requires !ReadBit(bk.bitmap, off)
    ensures MergeSpec(ar, bk, p, g) == Ok(AddBlockNextSpec(ar, bk, g, off, p))
  {
  }

  /** The merging loop at a set parity bit goes on with the buddy. */
  lemma MergeSetBit(ar: Arena, bk: Books, p: int, g: nat, size: nat, off: nat)
    requires ArenaOk(ar) && BooksOk(ar, bk) && g < Levels(ar)
    requires size == BlockSize(ar, g) && 0 < size < U64_LIMIT && off == BitmapOffset(ar, p, size)
    requires ReadBit(bk.bitmap, off)
    ensures MergeSpec(ar, bk, p, g) == MergeBuddy(ar, bk, p, g, size, off)
  {
  }

  /** A set parity bit whose buddy is not on its list, or at granularity 0, is a panic. */
  lemma MergeStepPanics(ar: Arena, bk: Books, p: int, g: nat, size: nat, off: nat, buddy: int)
    requires ArenaOk(ar) && BooksOk(ar, bk) && g < Levels(ar)
    requires size == BlockSize(ar, g) && 0 < size < U64_LIMIT && off == BitmapOffset(ar, p, size)
    requires ReadBit(bk.bitmap, off)
    requires buddy == if IsLowerBuddy(p, size) then p + size else p - size
    requires buddy !in bk.lists[g] || g == 0
    ensures MergeSpec(ar, bk, p, g) == Panic
  {
    MergeSetBit(ar, bk, p, g, size, off);
    MergeBuddyPanics(ar, bk, p, g, size, off, buddy);
  }

  /** The buddy round panics on a buddy missing from its list or at granularity 0. */
  lemma MergeBuddyPanics(ar: Arena, bk: Books, p: int, g: nat, size: nat, off: nat, buddy: int)
    requires ArenaOk(ar) && BooksOk(ar, bk) && g < Levels(ar) && size > 0
    requires buddy == if IsLowerBuddy(p, size) then p + size else p - size
    requires buddy !in bk.lists[g] || g == 0
    ensures MergeBuddy(ar, bk, p, g, size, off) == Panic
  {
  }

  /** One round of the merging loop: a set parity bit unlinks the buddy and goes one granularity up. */
  lemma MergeStep(ar: Arena, bk: Books, p: int, g: nat, size: nat, off: nat, buddy: int, next: int)
    requires ArenaOk(ar) && BooksOk(ar, bk) && 0 < g < Levels(ar)
    requires size == BlockSize(ar, g) && 0 < size < U64_LIMIT && off == BitmapOffset(ar, p, size)
    requires ReadBit(bk.bitmap, off)
    requires buddy == if IsLowerBuddy(p, size) then p + size else p - size
    requires next == if IsLowerBuddy(p, size) then p else p - size
    requires buddy in bk.lists[g]
    ensures MergeSpec(ar, bk, p, g) == MergeSpec(ar, RemoveBlockSpec(ar, bk, g, off, buddy), next, g - 1)
  {
    MergeSetBit(ar, bk, p, g, size, off);
    MergeBuddyStep(ar, bk, p, g, size, off, buddy, next);
  }

  /** The buddy round itself: unlink the buddy and merge one granularity up. */
  lemma MergeBuddyStep(ar: Arena, bk: Books, p: int, g: nat, size: nat, off: nat, buddy: int, next: int)
    requires ArenaOk(ar) && BooksOk(ar, bk) && 0 < g < Levels(ar) && size > 0
    requires buddy == if IsLowerBuddy(p, size) then p + size else p - size
    requires next == if IsLowerBuddy(p, size) then p else p - size
    requires buddy in bk.lists[g]
    ensures MergeBuddy(ar, bk, p, g, size, off) == MergeSpec(ar, RemoveBlockSpec(ar, bk, g, off, buddy), next, g - 1)
  {
  }

  /** `dealloc`: the block size for the layout, its granularity, and the merging loop. */
  function DeallocSpec(ar: Arena, bk: Books, p: int, l: Layout): (r: Result<Books>)
    requires ArenaOk(ar) && BooksOk(ar, bk) && l.size > 0 && LayoutOk(l)
    ensures r.Ok? ==> BooksOk(ar, r.value)
  {
    SmallestBlockFits(ar);
    var size := LayoutToSize(ar.smlst, l);
    if size > ar.pow2 then Panic
    else
      GranularityOfSize(ar, size);
      MergeSpec(ar, bk, p, Granularity(ar, size))
  }

  /**
   * `shrink`: nothing when both layouts give the same block size;
   * otherwise the upper halves from below the old granularity down to the
   * new one are freed.
   */
  function ShrinkSpec(ar: Arena, bk: Books, p: int, oldL: Layout, newL: Layout): (r: Result<Books>)
    requires ArenaOk(ar) && BooksOk(ar, bk)
    requires oldL.size > 0 && LayoutOk(oldL) && newL.size > 0 && LayoutOk(newL)
    ensures r.Ok? ==> BooksOk(ar, r.value)
  {
    SmallestBlockFits(ar);
    var oldSize := LayoutToSize(ar.smlst, oldL);
    var newSize := LayoutToSize(ar.smlst, newL);
    if oldSize == newSize then Ok(bk)
    else if oldSize > ar.pow2 || newSize > ar.pow2 then Panic
    else
      GranularityOfSize(ar, oldSize);
      GranularityOfSize(ar, newSize);
      Ok(SplitSpec(ar, bk, p, Granularity(ar, oldSize) + 1, Granularity(ar, newSize)))
  }

  /**
   * `1 << trailing_zeros`: the largest power of two dividing `x`. For 0 the
   * shift by 64 is masked to a shift by 0, as in a build without overflow
   * checks; there the walk of `release` has reached its end (ReleaseAtAcme),
   * while a build with overflow checks panics (LowBitChecked).
   */
  function LowBit(x: int): (r: nat)
    ensures IsPow2(r) && x % r == 0
  {
    if x == 0 then 1
    else
      TrailingZerosDivides(x);
      Pow2IsPow2(TrailingZeros(x));
      Pow2(TrailingZeros(x))
  }

  /**
   * The blocks the loop of `release` hands to `dealloc`, as (base, size):
   * ascending blocks, each as large as the alignment of its base allows,
   * while they fit below `acme`; then descending ones, each the previous
   * power of two of the distance left, while that is at least the
   * smallest block.
   */
  function ReleaseBlocks(bb: int, acme: int, smlst: nat, asc: bool): seq<(int, nat)>
    requires IsPow2(smlst) && bb <= acme < bb + U64_LIMIT
    decreases acme - bb, if asc then 1 else 0
  {
    if asc then
      var bs := LowBit(bb);
      if bb + bs <= acme then [(bb, bs)] + ReleaseBlocks(bb + bs, acme, smlst, true)
      else ReleaseBlocks(bb, acme, smlst, false)
    else
      var delta := acme - bb;
      if delta >= smlst then
        PrevPow2Bounds(delta);
        var bs := PrevPow2(delta);
        [(bb, bs)] + ReleaseBlocks(bb + bs, acme, smlst, false)
      else []
  }

  /** `dealloc` of each block in turn; the first panic stops it. */
  function DeallocAll(ar: Arena, bk: Books, blocks: seq<(int, nat)>): (r: Result<Books>)
    requires ArenaOk(ar) && BooksOk(ar, bk)
    ensures r.Ok? ==> BooksOk(ar, r.value)
    decreases |blocks|, 1
  {
    if blocks == [] then Ok(bk)
    else DeallocThen(ar, bk, blocks[0].0, blocks[0].1, blocks[1..])
  }

  /**
   * `dealloc` of one block, then of the blocks after it. A size that is no
   * layout's panics; the blocks of `release` never have one.
   */
  function DeallocThen(ar: Arena, bk: Books, b: int, bs: nat, rest: seq<(int, nat)>): (r: Result<Books>)
    requires ArenaOk(ar) && BooksOk(ar, bk)
    ensures r.Ok? ==> BooksOk(ar, r.value)
    decreases |rest| + 1, 0
  {
    Pow2IsPow2(0);
    if !(0 < bs <= ISIZE_MAX) then Panic
    else match DeallocSpec(ar, bk, b, Layout(bs, 1))
    case Panic => Panic
    case Ok(bk1) => DeallocAll(ar, bk1, rest)
  }

  /** `dealloc` of the first block, then of the rest. */
  lemma DeallocAllStep(ar: Arena, bk: Books, b: int, bs: nat, rest: seq<(int, nat)>)
    requires ArenaOk(ar) && BooksOk(ar, bk) && 0 < bs <= ISIZE_MAX
    ensures var d := DeallocSpec(ar, bk, b, Layout(bs, 1));
      DeallocAll(ar, bk, [(b, bs)] + rest) == if d.Panic? then Panic else DeallocAll(ar, d.value, rest)
  {
    assert ([(b, bs)] + rest)[1..] == rest;
    assert DeallocAll(ar, bk, [(b, bs)] + rest) == DeallocThen(ar, bk, b, bs, rest);
  }

  /**
   * The loop of `release` from `bb` (ascending while `asc`), deallocating
   * each block as it goes; the first panic stops it.
   */
  function ReleaseFrom(ar: Arena, bk: Books, bb: int, acme: int, asc: bool): (r: Result<Books>)
    requires ArenaOk(ar) && BooksOk(ar, bk) && bb <= acme && acme - bb <= ISIZE_MAX
    ensures r.Ok? ==> BooksOk(ar, r.value)
    decreases acme - bb, if asc then 1 else 0, 2
  {
    if asc then AscendingRound(ar, bk, bb, acme) else DescendingRound(ar, bk, bb, acme)
  }

  /**
   * An ascending round: the block at `bb` as large as its alignment
   * allows while it fits below `acme`, else the turn to descending blocks.
   */
  function AscendingRound(ar: Arena, bk: Books, bb: int, acme: int): (r: Result<Books>)
    requires ArenaOk(ar) && BooksOk(ar, bk) && bb <= acme && acme - bb <= ISIZE_MAX
    ensures r.Ok? ==> BooksOk(ar, r.value)
    decreases acme - bb, 1, 1
  {
    var bs := LowBit(bb);
    if bb + bs <= acme then FreeThenRelease(ar, bk, bb, bs, acme, true)
    else ReleaseFrom(ar, bk, bb, acme, false)
  }

  /**
   * A descending round: the block at `bb` of the previous power of two of
   * the distance left, while that is at least the smallest block.
   */
  function DescendingRound(ar: Arena, bk: Books, bb: int, acme: int): (r: Result<Books>)
    requires ArenaOk(ar) && BooksOk(ar, bk) && bb <= acme && acme - bb <= ISIZE_MAX
    ensures r.Ok? ==> BooksOk(ar, r.value)
    decreases acme - bb, 0, 1
  {
    var delta := acme - bb;
    if delta >= ar.smlst then
      PrevPow2Bounds(delta);
      FreeThenRelease(ar, bk, bb, PrevPow2(delta), acme, false)
    else Ok(bk)
  }

  /** One `dealloc` of the loop of `release`, then the rest of the loop. */
  function FreeThenRelease(ar: Arena, bk: Books, bb: int, bs: nat, acme: int, asc: bool): (r: Result<Books>)
    requires ArenaOk(ar) && BooksOk(ar, bk) && 0 < bs && bb + bs <= acme && acme - bb <= ISIZE_MAX
    ensures r.Ok? ==> BooksOk(ar, r.value)
    decreases acme - bb, if asc then 1 else 0, 0
  {
    Pow2IsPow2(0);
    match DeallocSpec(ar, bk, bb, Layout(bs, 1))
    case Panic => Panic
    case Ok(bk1) => ReleaseFrom(ar, bk1, bb + bs, acme, asc)
  }

  /** The loop deallocates exactly the blocks `ReleaseBlocks` lists, in order. */
  lemma ReleaseFromBlocks(ar: Arena, bk: Books, bb: int, acme: int, asc: bool)
    requires ArenaOk(ar) && BooksOk(ar, bk) && bb <= acme && acme - bb <= ISIZE_MAX
    ensures ReleaseFrom(ar, bk, bb, acme, asc) == DeallocAll(ar, bk, ReleaseBlocks(bb, acme, ar.smlst, asc))
  {
    if asc {
      AscendingBlocks(ar, bk, bb, acme);
    } else {
      DescendingBlocks(ar, bk, bb, acme);
    }
  }

  /** The loop of `release` from `bb` deallocates exactly the blocks ReleaseBlocks lists. */
  ghost predicate BlocksAgree(ar: Arena, bk: Books, bb: int, acme: int, asc: bool)
    requires ArenaOk(ar) && BooksOk(ar, bk) && bb <= acme && acme - bb <= ISIZE_MAX
  {
    ReleaseFrom(ar, bk, bb, acme, asc) == DeallocAll(ar, bk, ReleaseBlocks(bb, acme, ar.smlst, asc))
  }

  /** The ascending half of ReleaseFromBlocks. */
  lemma {:induction false} AscendingBlocks(ar: Arena, bk: Books, bb: int, acme: int)
    requires ArenaOk(ar) && BooksOk(ar, bk) && bb <= acme && acme - bb <= ISIZE_MAX
    ensures BlocksAgree(ar, bk, bb, acme, true)
    decreases acme - bb
  {
    var bs := LowBit(bb);
    if bb + bs > acme {
      DescendingBlocks(ar, bk, bb, acme);
      AgreeSwitch(ar, bk, bb, acme);
    } else {
      var d := AgreeStep(ar, bk, bb, bs, acme, true);
      if d.Ok? {
        AscendingBlocks(ar, d.value, bb + bs, acme);
      }
    }
  }

  /** The descending half of ReleaseFromBlocks. */
  lemma {:induction false} DescendingBlocks(ar: Arena, bk: Books, bb: int, acme: int)
    requires ArenaOk(ar) && BooksOk(ar, bk) && bb <= acme && acme - bb <= ISIZE_MAX
    ensures BlocksAgree(ar, bk, bb, acme, false)
    decreases acme - bb
  {
    if acme - bb < ar.smlst {
      AgreeEnd(ar, bk, bb, acme);
    } else {
      var bs := PrevPow2(acme - bb);
      var d := AgreeStep(ar, bk, bb, bs, acme, false);
      if d.Ok? {
        DescendingBlocks(ar, d.value, bb + bs, acme);
      }
    }
  }

  /** BlocksAgree once the ascending blocks no longer fit: as for the descending ones. */
  lemma AgreeSwitch(ar: Arena, bk: Books, bb: int, acme: int)
    requires ArenaOk(ar) && BooksOk(ar, bk) && bb <= acme && acme - bb <= ISIZE_MAX
    requires bb + LowBit(bb) > acme && BlocksAgree(ar, bk, bb, acme, false)
    ensures BlocksAgree(ar, bk, bb, acme, true)
  {
    ReleaseSwitch(ar, bk, bb, acme);
  }

  /** BlocksAgree at the end of the loop. */
  lemma AgreeEnd(ar: Arena, bk: Books, bb: int, acme: int)
    requires ArenaOk(ar) && BooksOk(ar, bk) && bb <= acme && acme - bb < ar.smlst && acme - bb <= ISIZE_MAX
    ensures BlocksAgree(ar, bk, bb, acme, false)
  {
    ReleaseEnd(ar, bk, bb, acme);
  }

  /** BlocksAgree from `bb` follows from BlocksAgree after the round's block. */
  lemma AgreeStep(ar: Arena, bk: Books, bb: int, bs: nat, acme: int, asc: bool) returns (d: Result<Books>)
    requires ArenaOk(ar) && BooksOk(ar, bk) && bb <= acme && acme - bb <= ISIZE_MAX
    requires asc ==> bs == LowBit(bb) && bb + bs <= acme
    requires !asc ==> acme - bb >= ar.smlst && bs == PrevPow2(acme - bb)
    ensures bs > 0 && bb + bs <= acme
    ensures d.Ok? ==> BooksOk(ar, d.value)
    ensures d.Panic? ==> BlocksAgree(ar, bk, bb, acme, asc)
    ensures d.Ok? && BlocksAgree(ar, d.value, bb + bs, acme, asc) ==> BlocksAgree(ar, bk, bb, acme, asc)
  {
    d := ReleaseBlockStep(ar, bk, bb, bs, acme, asc);
  }

  /** The loop of `release` ends once less than a smallest block is left. */
  lemma ReleaseEnd(ar: Arena, bk: Books, bb: int, acme: int)
    requires ArenaOk(ar) && BooksOk(ar, bk) && bb <= acme && acme - bb < ar.smlst && acme - bb <= ISIZE_MAX
    ensures ReleaseFrom(ar, bk, bb, acme, false) == Ok(bk)
    ensures ReleaseBlocks(bb, acme, ar.smlst, false) == []
  {
  }

  /** The loop of `release` turns to descending blocks once the ascending one no longer fits. */
  lemma ReleaseSwitch(ar: Arena, bk: Books, bb: int, acme: int)
    requires ArenaOk(ar) && BooksOk(ar, bk) && bb <= acme && acme - bb <= ISIZE_MAX
    requires bb + LowBit(bb) > acme
    ensures ReleaseFrom(ar, bk, bb, acme, true) == ReleaseFrom(ar, bk, bb, acme, false)
    ensures ReleaseBlocks(bb, acme, ar.smlst, true) == ReleaseBlocks(bb, acme, ar.smlst, false)
  {
  }

  /** A round of the loop of `release` that deallocates the block at `bb`. */
  lemma ReleaseFromStep(ar: Arena, bk: Books, bb: int, bs: nat, acme: int, asc: bool)
    requires ArenaOk(ar) && BooksOk(ar, bk) && bb <= acme && acme - bb <= ISIZE_MAX
    requires asc ==> bs == LowBit(bb) && bb + bs <= acme
    requires !asc ==> acme - bb >= ar.smlst && bs == PrevPow2(acme - bb)
    ensures bs > 0 && bb + bs <= acme
    ensures var d := DeallocSpec(ar, bk, bb, Layout(bs, 1));
      ReleaseFrom(ar, bk, bb, acme, asc) == if d.Panic? then Panic else ReleaseFrom(ar, d.value, bb + bs, acme, asc)
  {
    ReleaseFromRound(ar, bk, bb, bs, acme, asc);
    FreeThenReleaseStep(ar, bk, bb, bs, acme, asc);
  }

  /** The loop's round at `bb` is a `dealloc` of the block there, then the rest. */
  lemma ReleaseFromRound(ar: Arena, bk: Books, bb: int, bs: nat, acme: int, asc: bool)
    requires ArenaOk(ar) && BooksOk(ar, bk) && bb <= acme && acme - bb <= ISIZE_MAX
    requires asc ==> bs == LowBit(bb) && bb + bs <= acme
    requires !asc ==> acme - bb >= ar.smlst && bs == PrevPow2(acme - bb)
    ensures bs > 0 && bb + bs <= acme
    ensures ReleaseFrom(ar, bk, bb, acme, asc) == FreeThenRelease(ar, bk, bb, bs, acme, asc)
  {
    if asc {
      assert ReleaseFrom(ar, bk, bb, acme, true) == FreeThenRelease(ar, bk, bb, bs, acme, true);
    } else {
      PrevPow2Bounds(acme - bb);
      assert ReleaseFrom(ar, bk, bb, acme, false) == FreeThenRelease(ar, bk, bb, bs, acme, false);
    }
  }

  /** `dealloc` of the block, then the loop from its end. */
  lemma FreeThenReleaseStep(ar: Arena, bk: Books, bb: int, bs: nat, acme: int, asc: bool)
    requires ArenaOk(ar) && BooksOk(ar, bk) && 0 < bs && bb + bs <= acme && acme - bb <= ISIZE_MAX
    ensures var d := DeallocSpec(ar, bk, bb, Layout(bs, 1));
      FreeThenRelease(ar, bk, bb, bs, acme, asc) == if d.Panic? then Panic else ReleaseFrom(ar, d.value, bb + bs, acme, asc)
  {
  }

  /** The same round in the list of blocks: the block at `bb` comes first. */
  lemma ReleaseBlocksStep(bb: int, bs: nat, acme: int, smlst: nat, asc: bool)
    requires IsPow2(smlst) && bb <= acme < bb + U64_LIMIT
    requires asc ==> bs == LowBit(bb) && bb + bs <= acme
    requires !asc ==> acme - bb >= smlst && bs == PrevPow2(acme - bb)
    ensures bs > 0 && bb + bs <= acme
    ensures ReleaseBlocks(bb, acme, smlst, asc) == [(bb, bs)] + ReleaseBlocks(bb + bs, acme, smlst, asc)
  {
    if asc {
      assert ReleaseBlocks(bb, acme, smlst, true) == [(bb, bs)] + ReleaseBlocks(bb + bs, acme, smlst, true);
    } else {
      PrevPow2Bounds(acme - bb);
      assert ReleaseBlocks(bb, acme, smlst, false) == [(bb, bs)] + ReleaseBlocks(bb + bs, acme, smlst, false);
    }
  }

  /** One block of `release`: the loop and the list agree on it and continue from its end. */
  lemma ReleaseBlockStep(ar: Arena, bk: Books, bb: int, bs: nat, acme: int, asc: bool) returns (d: Result<Books>)
    requires ArenaOk(ar) && BooksOk(ar, bk) && bb <= acme && acme - bb <= ISIZE_MAX
    requires asc ==> bs == LowBit(bb) && bb + bs <= acme
    requires !asc ==> acme - bb >= ar.smlst && bs == PrevPow2(acme - bb)
    ensures bs > 0 && bb + bs <= acme
    ensures d.Ok? ==> BooksOk(ar, d.value)
    ensures ReleaseFrom(ar, bk, bb, acme, asc) == (if d.Panic? then Panic else ReleaseFrom(ar, d.value, bb + bs, acme, asc))
    ensures DeallocAll(ar, bk, ReleaseBlocks(bb, acme, ar.smlst, asc))
      == (if d.Panic? then Panic else DeallocAll(ar, d.value, ReleaseBlocks(bb + bs, acme, ar.smlst, asc)))
  {
    ReleaseFromStep(ar, bk, bb, bs, acme, asc);
    DeallocBlocksStep(ar, bk, bb, bs, acme, asc);
    d := DeallocSpec(ar, bk, bb, Layout(bs, 1));
  }

  /** The list side of ReleaseBlockStep. */
  lemma DeallocBlocksStep(ar: Arena, bk: Books, bb: int, bs: nat, acme: int, asc: bool)
    requires ArenaOk(ar) && BooksOk(ar, bk) && bb <= acme && acme - bb <= ISIZE_MAX
    requires asc ==> bs == LowBit(bb) && bb + bs <= acme
    requires !asc ==> acme - bb >= ar.smlst && bs == PrevPow2(acme - bb)
    ensures bs > 0 && bb + bs <= acme
    ensures var d := DeallocSpec(ar, bk, bb, Layout(bs, 1));
      DeallocAll(ar, bk, ReleaseBlocks(bb, acme, ar.smlst, asc))
        == if d.Panic? then Panic else DeallocAll(ar, d.value, ReleaseBlocks(bb + bs, acme, ar.smlst, asc))
  {
    ReleaseBlocksStep(bb, bs, acme, ar.smlst, asc);
    DeallocAllStep(ar, bk, bb, bs, ReleaseBlocks(bb + bs, acme, ar.smlst, asc));
  }

  /** Whether a span's rounded bounds straddle address 0, which `release` splits around. */
  predicate StraddlesNull(p: int, len: nat, smlst: nat)
    requires smlst > 0
  {
    RoundUp(p, smlst) <= 0 < RoundDown(p + len, smlst)
  }

  /** Neither half of the split around address 0 straddles it again. */
  lemma NullSplitPieces(p: int, len: nat, sm: nat)
    requires sm > 0 && StraddlesNull(p, len, sm)
    ensures !StraddlesNull(p, 0 - p, sm)
    ensures sm - RoundUp(p, sm) <= len
    ensures !StraddlesNull(p + sm - RoundUp(p, sm), len - (sm - RoundUp(p, sm)), sm)
  {
    Arith.MultipleAbove(RoundDown(p + len, sm), sm);
    Arith.MultipleZero(RoundDown(0, sm), sm);
  }

  /** A panic releasing the part of a straddling span below address 0 is a panic of the whole. */
  lemma NullSplitPanics(ar: Arena, bk: Books, p: int, len: nat)
    requires ArenaOk(ar) && BooksOk(ar, bk) && StraddlesNull(p, len, ar.smlst)
    requires p <= 0 && ReleaseSpec(ar, bk, p, 0 - p) == Panic
    ensures ReleaseAroundNullSpec(ar, bk, p, len) == Panic
  {
  }

  /** Once the part below address 0 is released, the whole is the release of the rest. */
  lemma NullSplitThen(ar: Arena, bk: Books, p: int, len: nat, bk1: Books)
    requires ArenaOk(ar) && BooksOk(ar, bk) && StraddlesNull(p, len, ar.smlst)
    requires p <= 0 && ReleaseSpec(ar, bk, p, 0 - p) == Ok(bk1)
    ensures ar.smlst - RoundUp(p, ar.smlst) <= len && BooksOk(ar, bk1)
    ensures ReleaseAroundNullSpec(ar, bk, p, len)
      == ReleaseSpec(ar, bk1, p + ar.smlst - RoundUp(p, ar.smlst), len - (ar.smlst - RoundUp(p, ar.smlst)))
  {
    NullSplitPieces(p, len, ar.smlst);
  }

  /**
   * `release` of the span [p, p + len): its bounds rounded inward to the
   * smallest block; a panic when they leave the arena; nothing when no
   * whole smallest block lies inside; a span straddling address 0 is
   * released as the part below 0 and the part from the smallest block up;
   * otherwise the blocks of the loop are deallocated.
   */
  function ReleaseSpec(ar: Arena, bk: Books, p: int, len: nat): (r: Result<Books>)
    requires ArenaOk(ar) && BooksOk(ar, bk)
    ensures r.Ok? ==> BooksOk(ar, r.value)
    decreases if StraddlesNull(p, len, ar.smlst) then 1 else 0, 1
  {
    var sm := ar.smlst;
    var base := RoundUp(p, sm);
    var acme := RoundDown(p + len, sm);
    if base < ar.base || acme > ar.base + ar.size then Panic
    else if base >= acme then Ok(bk)
    else if base <= 0 < acme then ReleaseAroundNullSpec(ar, bk, p, len)
    else
      DeallocAll(ar, bk, ReleaseBlocks(base, acme, sm, true))
  }

  /** `release` of a span straddling address 0: the part below 0, then the part from the smallest block up. */
  function ReleaseAroundNullSpec(ar: Arena, bk: Books, p: int, len: nat): (r: Result<Books>)
    requires ArenaOk(ar) && BooksOk(ar, bk) && StraddlesNull(p, len, ar.smlst)
    ensures r.Ok? ==> BooksOk(ar, r.value)
    decreases 1, 0
  {
    var sm := ar.smlst;
    var base := RoundUp(p, sm);
    NullSplitPieces(p, len, sm);
    match ReleaseSpec(ar, bk, p, 0 - p)
    case Panic => Panic
    case Ok(bk1) => ReleaseSpec(ar, bk1, p + sm - base, len - (sm - base))
  }

  /** The blocks lie end to end from `lo` to `hi`, none empty. */
  predicate Tiles(blocks: seq<(int, nat)>, lo: int, hi: int)
    decreases |blocks|
  {
    if blocks == [] then lo == hi
    else blocks[0].0 == lo && blocks[0].1 > 0 && Tiles(blocks[1..], lo + blocks[0].1, hi)
  }

  /**
   * A block `dealloc` can take: a power of two of at least the smallest
   * block, at a base aligned to its size, and not at address 0.
   */
  predicate BuddyBlock(b: int, s: nat, sm: nat) {
    IsPow2(s) && sm <= s && b % s == 0 && b != 0
  }

  predicate BuddyBlocks(blocks: seq<(int, nat)>, sm: nat) {
    forall i :: 0 <= i < |blocks| ==> BuddyBlock(blocks[i].0, blocks[i].1, sm)
  }

  /** A buddy block in front of blocks tiling on from its end. */
  lemma TilesCons(b: int, s: nat, rest: seq<(int, nat)>, hi: int, sm: nat)
    requires BuddyBlock(b, s, sm) && Tiles(rest, b + s, hi) && BuddyBlocks(rest, sm)
    ensures Tiles([(b, s)] + rest, b, hi) && BuddyBlocks([(b, s)] + rest, sm)
  {
    assert ([(b, s)] + rest)[1..] == rest;
  }

  /** The lowest set bit of a nonzero multiple of a power of two is a multiple of it. */
  lemma LowBitLeast(x: int, p: nat)
    requires x != 0 && IsPow2(p) && x % p == 0
    ensures p <= LowBit(x) && LowBit(x) % p == 0
  {
    TrailingZerosLeast(x, Log2(p));
    Pow2Divides(Log2(p), TrailingZeros(x));
    Arith.MultipleAbove(LowBit(x), p);
  }

  /**
   * The blocks of the loop of `release` over [bb, acme), both multiples of
   * the smallest block and not around address 0, tile the span with
   * buddy blocks.
   */
  lemma {:induction false} ReleaseBlocksTile(bb: int, acme: int, sm: nat)
    requires IsPow2(sm) && bb <= acme < bb + U64_LIMIT
    requires bb % sm == 0 && acme % sm == 0 && (bb > 0 || acme <= 0)
    ensures Tiles(ReleaseBlocks(bb, acme, sm, true), bb, acme)
    ensures BuddyBlocks(ReleaseBlocks(bb, acme, sm, true), sm)
    decreases acme - bb
  {
    var bs := LowBit(bb);
    if bb + bs <= acme {
      LowBitLeast(bb, sm);
      Arith.MultipleSum(bb, bs, sm);
      ReleaseBlocksTile(bb + bs, acme, sm);
      TilesCons(bb, bs, ReleaseBlocks(bb + bs, acme, sm, true), acme, sm);
    } else {
      DescendingTile(bb, acme, sm);
    }
  }

  /** The descending blocks, from a `bb` aligned beyond the distance left, tile the rest of the span. */
  lemma {:induction false} DescendingTile(bb: int, acme: int, sm: nat)
    requires IsPow2(sm) && bb <= acme < bb + U64_LIMIT
    requires bb % sm == 0 && acme % sm == 0 && (bb > 0 || acme <= 0)
    requires acme - bb < LowBit(bb)
    ensures Tiles(ReleaseBlocks(bb, acme, sm, false), bb, acme)
    ensures BuddyBlocks(ReleaseBlocks(bb, acme, sm, false), sm)
    decreases acme - bb
  {
    var delta := acme - bb;
    Arith.MultipleSum(acme, bb, sm);
    if delta >= sm {
      PrevPow2Bounds(delta);
      var bs := PrevPow2(delta);
      PrevPow2AtLeast(delta, sm);
      Pow2DividesLarger(bs, LowBit(bb));
      Arith.MultipleTrans(bb, LowBit(bb), bs);
      Pow2DividesLarger(sm, bs);
      Arith.MultipleSum(bb, bs, sm);
      var nb := bb + bs;
      if acme - nb > 0 {
        Arith.MultipleSum(bb, bs, bs);
        LowBitLeast(nb, bs);
      }
      DescendingTile(nb, acme, sm);
      TilesCons(bb, bs, ReleaseBlocks(nb, acme, sm, false), acme, sm);
    } else if delta > 0 {
      Arith.MultipleAbove(delta, sm);
    }
  }

  /**
   * `release` of a span inside the arena, not around address 0, with a
   * whole smallest block in it: the blocks it deallocates tile the span
   * rounded inward to the smallest block, each a buddy block.
   */
  lemma ReleaseCovers(ar: Arena, bk: Books, p: int, len: nat)
    requires ArenaOk(ar) && BooksOk(ar, bk)
    requires var base := RoundUp(p, ar.smlst); var acme := RoundDown(p + len, ar.smlst);
      ar.base <= base < acme <= ar.base + ar.size && !(base <= 0 < acme)
    ensures var base := RoundUp(p, ar.smlst); var acme := RoundDown(p + len, ar.smlst);
      var blocks := ReleaseBlocks(base, acme, ar.smlst, true);
      && p <= base && acme <= p + len
      && ReleaseSpec(ar, bk, p, len) == DeallocAll(ar, bk, blocks)
      && Tiles(blocks, base, acme) && BuddyBlocks(blocks, ar.smlst)
  {
    ReleaseBlocksTile(RoundUp(p, ar.smlst), RoundDown(p + len, ar.smlst), ar.smlst);
  }

  /**
   * Around address 0 the two halves `release` recurses on round to the
   * span's own lower part [base, 0) and to its upper part from the
   * smallest block up: together the whole rounded span less the null
   * block [0, smlst).
   */
  lemma NullSplitCovers(p: int, len: nat, sm: nat)
    requires sm > 0 && StraddlesNull(p, len, sm)
    ensures RoundDown(p + (0 - p), sm) == 0
    ensures var base := RoundUp(p, sm);
      && sm - base <= len
      && RoundUp(p + (sm - base), sm) == sm
      && RoundDown(p + (sm - base) + (len - (sm - base)), sm) == RoundDown(p + len, sm)
  {
    NullSplitPieces(p, len, sm);
    Arith.MultipleZero(RoundDown(0, sm), sm);
    var base := RoundUp(p, sm);
    var q := p + (sm - base);
    assert 0 < q <= sm;
    var r := RoundUp(q, sm);
    Arith.MultipleAbove(r, sm);
    if r > sm {
      Arith.MultipleSum(r, sm, sm);
      Arith.MultipleAbove(r - sm, sm);
    }
  }

  /**
   * The first half `release` recurses on around address 0, as written:
   * `mem[..(0 - base)]`, of `0 - base` bytes from `p`, rounded inward.
   */
  function NullSplitFirstAsWritten(p: int, sm: nat): (r: (int, int))
    requires sm > 0
  {
    var base := RoundUp(p, sm);
    (base, RoundDown(p + (0 - base), sm))
  }

  /**
   * As written, the halves around address 0 miss memory: for
   * [-100, 1000) with smallest blocks of 32 the first half rounds to
   * [-96, -32) and the second starts at 32, so [-32, 0) is never released.
   */
  lemma NullSplitAsWrittenSkips()
    ensures StraddlesNull(-100, 1100, 32)
    ensures NullSplitFirstAsWritten(-100, 32) == (-96, -32)
    ensures RoundUp(-100 + (32 - RoundUp(-100, 32)), 32) == 32
  {
    assert RoundDown(-69, 32) == -96;
    assert RoundDown(-4, 32) == -32;
    assert RoundDown(59, 32) == 32;
    assert RoundDown(1000, 32) == 992;
  }

  /**
   * The first block the loop of `release` hands to `dealloc`, as written:
   * only `base == acme` returns early, and the descending distance is a
   * `usize`, wrapped modulo 2^64.
   */
  function ReleaseFirstBlockAsWritten(p: int, len: nat, sm: nat): (r: Option<(int, nat)>)
    requires IsPow2(sm)
  {
    var base := RoundUp(p, sm);
    var acme := RoundDown(p + len, sm);
    if base == acme || base <= 0 < acme then None
    else
      var bs := LowBit(base);
      if base + bs <= acme then Some((base, bs))
      else
        var delta := (acme - base) % U64_LIMIT;
        if delta >= sm then Some((base, PrevPow2(delta))) else None
  }

  /**
   * As written, a span inside one smallest block is not empty to
   * `release`: for [17, 18) with smallest blocks of 16 the bounds round
   * to 32 and 16, and the loop deallocates 2^63 bytes at 32, outside the
   * span and larger than any layout.
   */
  lemma ReleaseAsWrittenPastSpan()
    ensures ReleaseFirstBlockAsWritten(17, 1, 16) == Some((32, 0x8000_0000_0000_0000))
  {
    Pow2IsPow2(4);
    assert RoundDown(32, 16) == 32 && RoundDown(18, 16) == 16;
    LowBitOf32();
    assert (16 - 32) % U64_LIMIT == U64_LIMIT - 16;
    PrevPow2NearTop();
  }

  lemma LowBitOf32()
    ensures LowBit(32) == 32
  {
    assert TrailingZeros(32) == 5;
  }

  /**
   * `1 << x.trailing_zeros()` on a `usize` in a build with overflow checks:
   * 0 has 64 trailing zeros, and the shift by 64 panics.
   */
  function LowBitChecked(x: int): Result<nat> {
    if x == 0 then Panic else Ok(LowBit(x))
  }

  /** The ascending walk of `release` from `bb` lands exactly on `acme`, still ascending. */
  predicate AscendsTo(bb: int, acme: int)
    requires bb <= acme
    decreases acme - bb
  {
    bb == acme || (bb + LowBit(bb) <= acme && AscendsTo(bb + LowBit(bb), acme))
  }

  /**
   * As written, with overflow checks, the loop of `release` over rounded
   * bounds base < 0 == acme panics: each ascending block divides its base,
   * so the walk never passes 0; it lands on 0 still ascending and computes
   * `1 << 0.trailing_zeros()` there. The part below 0 of every release
   * split around address 0 is such a span, e.g. [-96, 0) for [-100, 1000)
   * with smallest blocks of 32.
   */
  lemma {:induction false} ReleaseAsWrittenShiftsAtNull(bb: int)
    requires bb <= 0
    ensures AscendsTo(bb, 0) && LowBitChecked(0) == Panic
    decreases -bb
  {
    if bb < 0 {
      var bs := LowBit(bb);
      Arith.MultipleGap(bb, 0, bs);
      ReleaseAsWrittenShiftsAtNull(bb + bs);
    }
  }

  /**
   * Corrected: once the walk reaches `acme` nothing is left, and the loop
   * ends having released nothing, whatever the shift at `acme` gives.
   */
  lemma ReleaseAtAcme(ar: Arena, bk: Books, acme: int, asc: bool)
    requires ArenaOk(ar) && BooksOk(ar, bk)
    ensures ReleaseFrom(ar, bk, acme, acme, asc) == Ok(bk)
    ensures ReleaseBlocks(acme, acme, ar.smlst, asc) == []
  {
    ReleaseEnd(ar, bk, acme, acme);
    if asc {
      ReleaseSwitch(ar, bk, acme, acme);
    }
  }

  lemma PrevPow2NearTop()
    ensures PrevPow2(U64_LIMIT - 16) == 0x8000_0000_0000_0000
  {
    Pow2Of64();
    Log2Unique(U64_LIMIT - 16, 63);
    FastLog2Bounds(U64_LIMIT - 16);
  }

  /** `release` of a span with no whole smallest block inside leaves the books as they are. */
  lemma ReleaseNothing(ar: Arena, bk: Books, p: int, len: nat)
    requires ArenaOk(ar) && BooksOk(ar, bk)
    requires var base := RoundUp(p, ar.smlst); var acme := RoundDown(p + len, ar.smlst);
      ar.base <= base && acme <= ar.base + ar.size && acme <= base
    ensures ReleaseSpec(ar, bk, p, len) == Ok(bk)
  {
  }

  /** The asserts of `validate_arena_args`. */
  predicate ValidArenaArgs(arenaSize: nat, smlst: nat) {
    MINIMUM_ARENA_SIZE <= arenaSize <= MAXIMUM_ARENA_SIZE && IsPow2(smlst) && smlst >= NODE_SIZE
  }

  /**
   * `slice_bytes`: the bytes of the list sentinels (one per granularity,
   * `(arena_size - 1).log2() + 1 - smallest_block.log2() + 1` of them) and
   * of the bitmap (a bit per granularity slot, at least one byte). It
   * panics on invalid arguments and, through the `u32` subtraction, on a
   * smallest block larger than the arena's power of two.
   */
  function SliceBytes(arenaSize: nat, smlst: nat): (r: Result<(nat, nat)>)
  {
    if !ValidArenaArgs(arenaSize, smlst) then Panic
    else
      var hi := Log2(arenaSize - 1) + 1;
      var lo := Log2(smlst);
      if lo > hi then Panic
      else
        var levels := hi - lo + 1;
        var bm := Pow2(levels) / 8;
        Ok((levels * NODE_SIZE, if bm != 0 then bm else 1))
  }

  /** `slice_bytes` succeeds exactly on the arguments of a valid arena. */
  lemma SliceBytesOk(arenaSize: nat, smlst: nat)
    ensures SliceBytes(arenaSize, smlst).Ok?
        <==> ValidArenaArgs(arenaSize, smlst) && smlst <= NextPow2(arenaSize)
  {
    if ValidArenaArgs(arenaSize, smlst) {
      NextPow2Log(arenaSize);
      Pow2Within(smlst, Log2(arenaSize - 1) + 1);
    }
  }

  /** A power of two is at most 2^hi exactly when its exponent is at most hi. */
  lemma Pow2Within(v: nat, hi: nat)
    requires IsPow2(v)
    ensures v <= Pow2(hi) <==> Log2(v) <= hi
  {
    if Log2(v) <= hi {
      Pow2Mono(Log2(v), hi);
    } else {
      Pow2Mono(hi + 1, Log2(v));
    }
  }

  /**
   * On success `slice_bytes` gives one sentinel per granularity and a
   * bitmap with a bit for every slot, of at least one byte.
   */
  lemma SliceBytesValid(arenaSize: nat, smlst: nat, base: int)
    requires SliceBytes(arenaSize, smlst).Ok?
    ensures var ar := Arena(base, arenaSize, NextPow2(arenaSize), smlst);
      var (ll, bm) := SliceBytes(arenaSize, smlst).value;
      ArenaOk(ar) && ll == NODE_SIZE * Levels(ar) && bm >= 1 && Pow2(Levels(ar)) <= 8 * bm
  {
    var levels := SliceLevels(arenaSize, smlst, base);
    BitmapBytes(levels);
  }

  /** The arguments `slice_bytes` accepts make an arena with the number of levels it counts. */
  lemma SliceLevels(arenaSize: nat, smlst: nat, base: int) returns (levels: nat)
    requires SliceBytes(arenaSize, smlst).Ok?
    ensures levels == Log2(arenaSize - 1) + 1 - Log2(smlst) + 1
    ensures var bm := Pow2(levels) / 8; SliceBytes(arenaSize, smlst) == Ok((levels * NODE_SIZE, if bm != 0 then bm else 1))
    ensures var ar := Arena(base, arenaSize, NextPow2(arenaSize), smlst);
      ArenaOk(ar) && Levels(ar) == levels
  {
    SliceArena(arenaSize, smlst, base);
    levels := Log2(arenaSize - 1) + 1 - Log2(smlst) + 1;
  }

  /** The arguments `slice_bytes` accepts make an arena whose power of two has exponent `hi`. */
  lemma SliceArena(arenaSize: nat, smlst: nat, base: int)
    requires SliceBytes(arenaSize, smlst).Ok?
    ensures ArenaOk(Arena(base, arenaSize, NextPow2(arenaSize), smlst))
    ensures Log2(NextPow2(arenaSize)) == Log2(arenaSize - 1) + 1
  {
    SliceBytesOk(arenaSize, smlst);
    NextPow2Log(arenaSize);
    Log2Pow2(Log2(arenaSize - 1) + 1);
  }

  /** `1 << levels >> 3`, or 1 when that is 0, bytes hold `1 << levels` bits. */
  lemma BitmapBytes(levels: nat)
    ensures var bm := Pow2(levels) / 8; Pow2(levels) <= 8 * (if bm != 0 then bm else 1)
  {
    if levels >= 3 {
      Pow2Add(3, levels - 3);
      assert Pow2(3) == 8;
      DivExact(Pow2(levels), 8, Pow2(levels - 3));
    } else {
      Pow2Mono(levels, 3);
      assert Pow2(3) == 8;
    }
  }

  /**
   * `extend`'s padding before the sentinels, `16 - (ptr & 15)`: it brings
   * `p` up to a multiple of the node size, by a whole node when `p` is one
   * already.
   */
  function LlAlignOffset(p: int): (r: nat)
    ensures 0 < r <= NODE_SIZE && (p + r) % NODE_SIZE == 0
  {
    NODE_SIZE - p % NODE_SIZE
  }

  /** `req_free_mem` as written: `arena_base % 16` bytes of padding, then the sentinels and the bitmap. */
  function ReqFreeMemAsWritten(smlst: nat, arenaBase: int, arenaSize: nat): Result<nat> {
    match SliceBytes(arenaSize, smlst)
    case Panic => Panic
    case Ok((ll, bm)) => Ok(arenaBase % NODE_SIZE + ll + bm)
  }

  /** `req_free_mem` with the padding `extend` takes at `arena_base`. */
  function ReqFreeMem(smlst: nat, arenaBase: int, arenaSize: nat): Result<nat> {
    match SliceBytes(arenaSize, smlst)
    case Panic => Panic
    case Ok((ll, bm)) => Ok(LlAlignOffset(arenaBase) + ll + bm)
  }

  /** Fresh books: a clear `avails`, `levels` empty lists and a zeroed bitmap of `bm` bytes. */
  function EmptyBooks(levels: nat, bm: nat): Books {
    Books(seq(64, _ => false), seq(levels, _ => []), seq(bm, _ => 0))
  }

  /** Fresh books with a list per granularity and a bit per slot are in shape. */
  lemma EmptyBooksOk(ar: Arena, bm: nat)
    requires ArenaOk(ar) && Pow2(Levels(ar)) <= 8 * bm
    ensures BooksOk(ar, EmptyBooks(Levels(ar), bm))
  {
  }

  /**
   * `extend` of an allocator without books (as `new_invalid` leaves it):
   * the slice sizes, the asserts that `free_mem` lies in the arena, the
   * sentinels and bitmap carved from the front of `free_mem` (slicing past
   * its end is undefined behaviour, a panic here), empty lists, a clear
   * `avails` and a zeroed bitmap, then `release` of the rest of `free_mem`.
   */
  function ExtendSpec(smlst: nat, base: int, size: nat, p: int, len: nat): (r: Result<(Arena, Books)>)
    ensures r.Ok? ==> ArenaOk(r.value.0) && BooksOk(r.value.0, r.value.1)
  {
    match SliceBytes(size, smlst)
    case Panic => Panic
    case Ok((ll, bm)) => ExtendSliced(smlst, base, size, p, len, ll, bm)
  }

  /** `extend` once the sentinel and bitmap sizes `ll` and `bm` are known. */
  function ExtendSliced(smlst: nat, base: int, size: nat, p: int, len: nat, ll: nat, bm: nat): (r: Result<(Arena, Books)>)
    requires SliceBytes(size, smlst) == Ok((ll, bm))
    ensures r.Ok? ==> ArenaOk(r.value.0) && BooksOk(r.value.0, r.value.1)
  {
    SliceBytesValid(size, smlst, base);
    if p < base || p + len > base + size then Panic
    else
      var off := LlAlignOffset(p) + ll + bm;
      if off > len then Panic
      else ExtendRelease(Arena(base, size, NextPow2(size), smlst), bm, p + off, len - off)
  }

  /** `extend` panics on a `free_mem` outside the arena or too small for the sentinels and bitmap. */
  lemma ExtendSlicedPanics(smlst: nat, base: int, size: nat, p: int, len: nat, ll: nat, bm: nat)
    requires SliceBytes(size, smlst) == Ok((ll, bm))
    requires p < base || p + len > base + size || LlAlignOffset(p) + ll + bm > len
    ensures ExtendSliced(smlst, base, size, p, len, ll, bm) == Panic
  {
  }

  /** With `free_mem` in the arena and room for the sentinels and bitmap, `extend` releases the rest. */
  lemma ExtendSlicedRelease(smlst: nat, base: int, size: nat, p: int, len: nat, ll: nat, bm: nat)
    requires SliceBytes(size, smlst) == Ok((ll, bm))
    requires base <= p && p + len <= base + size && LlAlignOffset(p) + ll + bm <= len
    ensures var ar := Arena(base, size, NextPow2(size), smlst);
      ArenaOk(ar) && ll / NODE_SIZE == Levels(ar) && Pow2(ll / NODE_SIZE) <= 8 * bm
    ensures var off := LlAlignOffset(p) + ll + bm;
      ExtendSliced(smlst, base, size, p, len, ll, bm)
        == ExtendRelease(Arena(base, size, NextPow2(size), smlst), bm, p + off, len - off)
  {
    SliceBytesValid(size, smlst, base);
  }

  /** The end of `extend`: empty books for the arena, then `release` of `len` bytes at `p`. */
  function ExtendRelease(ar: Arena, bm: nat, p: int, len: nat): (r: Result<(Arena, Books)>)
    requires ArenaOk(ar) && Pow2(Levels(ar)) <= 8 * bm
    ensures r.Ok? ==> r.value.0 == ar && BooksOk(ar, r.value.1)
  {
    EmptyBooksOk(ar, bm);
    match ReleaseSpec(ar, EmptyBooks(Levels(ar), bm), p, len)
    case Panic => Panic
    case Ok(bk1) => Ok((ar, bk1))
  }

  /**
   * `req_free_mem` is the least `free_mem` at `arena_base` that `extend`
   * accepts: with less it panics, with that much or more (inside the
   * arena) it releases what follows the sentinels and the bitmap.
   */
  lemma ReqFreeMemExact(smlst: nat, base: int, size: nat, len: nat)
    requires ReqFreeMem(smlst, base, size).Ok?
    ensures len < ReqFreeMem(smlst, base, size).value ==> ExtendSpec(smlst, base, size, base, len) == Panic
    ensures ReqFreeMem(smlst, base, size).value <= len <= size ==>
      var n := ReqFreeMem(smlst, base, size).value;
      var ar := Arena(base, size, NextPow2(size), smlst);
      var bm := SliceBytes(size, smlst).value.1;
      && ArenaOk(ar) && Pow2(Levels(ar)) <= 8 * bm
      && ExtendSpec(smlst, base, size, base, len) == ExtendRelease(ar, bm, base + n, len - n)
  {
    var (ll, bm) := SliceBytes(size, smlst).value;
    if len < ReqFreeMem(smlst, base, size).value {
      ExtendSlicedPanics(smlst, base, size, base, len, ll, bm);
    } else if len <= size {
      ExtendSlicedRelease(smlst, base, size, base, len, ll, bm);
    }
  }

  /** The sizes of an arena of 4096 bytes with smallest blocks of 16: nine granularities, 64 bitmap bytes. */
  lemma SliceBytesOf4096()
    ensures SliceBytes(4096, 16) == Ok((144, 64))
  {
    Log2Unique(4095, 11);
    Log2Pow2(4);
    assert Pow2(9) == 512;
  }

  /**
   * `req_free_mem` as written asks for too little: for an arena of 4096
   * bytes at address 0 with smallest blocks of 16 it asks for 208 bytes,
   * and `extend` given 208 bytes at address 0 panics, since its padding
   * at an aligned address is a whole node.
   */
  lemma ReqFreeMemAsWrittenShort()
    ensures ReqFreeMemAsWritten(16, 0, 4096) == Ok(208)
    ensures ReqFreeMem(16, 0, 4096) == Ok(224)
    ensures ExtendSpec(16, 0, 4096, 0, 208) == Panic
  {
    SliceBytesOf4096();
    ExtendSlicedPanics(16, 0, 4096, 0, 208, 144, 64);
  }

  /** The block size `alloc`, `dealloc` and `shrink` compute for a layout. */
  function LayoutSize(ar: Arena, l: Layout): (r: nat)
    requires ArenaOk(ar) && l.size > 0 && LayoutOk(l)
    ensures IsPow2(r) && r >= l.size && r >= l.align && r >= ar.smlst
  {
    SmallestBlockFits(ar);
    LayoutToSize(ar.smlst, l)
  }

  /** Block sizes shrink as the granularity grows: one is at least another exactly when its granularity is not higher. */
  lemma BlockSizeOrder(ar: Arena, j: nat, g: nat)
    requires ArenaOk(ar) && j < Levels(ar) && g < Levels(ar)
    ensures BlockSize(ar, j) >= BlockSize(ar, g) <==> j <= g
  {
    ArenaFacts(ar);
    BlockSizeExp(ar, j);
    BlockSizeExp(ar, g);
    Pow2BelowOrder(Log2(ar.pow2), j, g);
  }

  /**
   * `alloc` finds no block exactly when the block size exceeds the arena
   * or no free list of blocks at least that large has a block.
   */
  lemma AllocNoneIff(ar: Arena, bk: Books, l: Layout)
    requires ArenaOk(ar) && BooksOk(ar, bk) && l.size > 0 && LayoutOk(l)
    ensures var size := LayoutSize(ar, l);
      (AllocSpec(ar, bk, l).0.None? <==>
         size > ar.size || forall j :: 0 <= j < Levels(ar) && BlockSize(ar, j) >= size ==> !bk.avails[j])
  {
    SmallestBlockFits(ar);
    var size := LayoutToSize(ar.smlst, l);
    if size <= ar.size {
      GranularityOfSize(ar, size);
      var g := Granularity(ar, size);
      SizesFromGranularity(ar, g);
      if !bk.avails[g] {
        assert AllocSpec(ar, bk, l) == AllocLargerSpec(ar, bk, g);
      }
    }
  }

  /** The block sizes at least that of granularity g are those of granularities up to g. */
  lemma SizesFromGranularity(ar: Arena, g: nat)
    requires ArenaOk(ar) && g < Levels(ar)
    ensures forall j :: 0 <= j < Levels(ar) ==> (BlockSize(ar, j) >= BlockSize(ar, g) <==> j <= g)
  {
    forall j | 0 <= j < Levels(ar)
      ensures BlockSize(ar, j) >= BlockSize(ar, g) <==> j <= g
    {
      BlockSizeOrder(ar, j, g);
    }
  }

  /**
   * The splitting loop pushes the upper half of the block at `base` onto
   * the list of every granularity from `hg` to `g`, and leaves the other
   * lists alone.
   */
  lemma {:induction false} SplitLists(ar: Arena, bk: Books, base: int, hg: nat, g: nat, h: nat)
    requires ArenaOk(ar) && BooksOk(ar, bk) && g < Levels(ar) && h < Levels(ar)
    ensures SplitSpec(ar, bk, base, hg, g).lists[h]
      == if hg <= h <= g then [base + BlockSize(ar, h)] + bk.lists[h] else bk.lists[h]
    decreases g + 1 - hg
  {
    if hg <= g {
      BlockSizeStep(ar, hg);
      var hi := BlockSize(ar, hg);
      var off := BitmapOffset(ar, base + hi, hi);
      var bk1 := AddBlockNextSpec(ar, bk, hg, off, base + hi);
      SplitLists(ar, bk1, base, hg + 1, g, h);
      SplitStep(ar, bk, base, hg, g, hi, off);
    }
  }

  /**
   * `alloc` from a larger block: the block is the head of list lg, which
   * loses it, and each granularity between lg and g gains one upper buddy.
   */
  lemma AllocSplits(ar: Arena, bk: Books, lg: nat, g: nat)
    requires ArenaOk(ar) && BooksOk(ar, bk) && lg < g < Levels(ar) && bk.avails[lg]
    ensures var (r, bk1) := TakeAndSplitSpec(ar, bk, lg, g);
      && r == Some(bk.lists[lg][0])
      && bk1.lists[lg] == bk.lists[lg][1..]
      && forall h :: 0 <= h < Levels(ar) && h != lg ==>
        bk1.lists[h] == if lg < h <= g then [bk.lists[lg][0] + BlockSize(ar, h)] + bk.lists[h] else bk.lists[h]
  {
    forall h | 0 <= h < Levels(ar) && h != lg
      ensures TakeAndSplitSpec(ar, bk, lg, g).1.lists[h]
        == if lg < h <= g then [bk.lists[lg][0] + BlockSize(ar, h)] + bk.lists[h] else bk.lists[h]
    {
      AllocSplitsAt(ar, bk, lg, g, h);
    }
    AllocTakesHead(ar, bk, lg, g);
  }

  lemma AllocTakesHead(ar: Arena, bk: Books, lg: nat, g: nat)
    requires ArenaOk(ar) && BooksOk(ar, bk) && lg < g < Levels(ar) && bk.avails[lg]
    ensures TakeAndSplitSpec(ar, bk, lg, g).0 == Some(bk.lists[lg][0])
    ensures TakeAndSplitSpec(ar, bk, lg, g).1.lists[lg] == bk.lists[lg][1..]
  {
    BlockSizeStep(ar, lg);
    var taken := RemoveBlockNextSpec(ar, bk, lg, BlockSize(ar, lg));
    SplitLists(ar, taken.0, taken.1, lg + 1, g, lg);
  }

  lemma AllocSplitsAt(ar: Arena, bk: Books, lg: nat, g: nat, h: nat)
    requires ArenaOk(ar) && BooksOk(ar, bk) && lg < g < Levels(ar) && bk.avails[lg] && h < Levels(ar) && h != lg
    ensures TakeAndSplitSpec(ar, bk, lg, g).1.lists[h]
      == if lg < h <= g then [bk.lists[lg][0] + BlockSize(ar, h)] + bk.lists[h] else bk.lists[h]
  {
    BlockSizeStep(ar, lg);
    var taken := RemoveBlockNextSpec(ar, bk, lg, BlockSize(ar, lg));
    SplitLists(ar, taken.0, taken.1, lg + 1, g, h);
    RemoveBlockKeeps(ar, bk, lg, BlockSize(ar, lg), h);
  }

  lemma RemoveBlockKeeps(ar: Arena, bk: Books, g: nat, size: nat, h: nat)
    requires ArenaOk(ar) && BooksOk(ar, bk) && g < |bk.lists| && bk.lists[g] != []
    requires 0 < size < U64_LIMIT && h < |bk.lists| && h != g
    ensures RemoveBlockNextSpec(ar, bk, g, size).0.lists[h] == bk.lists[h]
  {
  }

  /**
   * `shrink` to a block size no larger frees the upper halves of the
   * block, one per granularity below the old one down to the new one, and
   * nothing when the sizes agree.
   */
  lemma ShrinkFrees(ar: Arena, bk: Books, p: int, oldL: Layout, newL: Layout)
    requires ArenaOk(ar) && BooksOk(ar, bk)
    requires oldL.size > 0 && LayoutOk(oldL) && newL.size > 0 && LayoutOk(newL)
    requires LayoutSize(ar, newL) <= LayoutSize(ar, oldL) <= ar.pow2
    ensures var r := ShrinkSpec(ar, bk, p, oldL, newL);
      var go := Granularity(ar, LayoutSize(ar, oldL));
      var gn := Granularity(ar, LayoutSize(ar, newL));
      && r.Ok?
      && (LayoutSize(ar, newL) == LayoutSize(ar, oldL) ==> r.value == bk)
      && forall h :: 0 <= h < Levels(ar) ==>
        r.value.lists[h] == if go < h <= gn then [p + BlockSize(ar, h)] + bk.lists[h] else bk.lists[h]
  {
    forall h | 0 <= h < Levels(ar)
      ensures ShrinkSpec(ar, bk, p, oldL, newL).Ok?
      ensures ShrinkSpec(ar, bk, p, oldL, newL).value.lists[h]
        == if Granularity(ar, LayoutSize(ar, oldL)) < h <= Granularity(ar, LayoutSize(ar, newL))
           then [p + BlockSize(ar, h)] + bk.lists[h] else bk.lists[h]
    {
      ShrinkFreesAt(ar, bk, p, oldL, newL, h);
    }
    ShrinkFreesAt(ar, bk, p, oldL, newL, 0);
  }

  lemma ShrinkFreesAt(ar: Arena, bk: Books, p: int, oldL: Layout, newL: Layout, h: nat)
    requires ArenaOk(ar) && BooksOk(ar, bk)
    requires oldL.size > 0 && LayoutOk(oldL) && newL.size > 0 && LayoutOk(newL)
    requires LayoutSize(ar, newL) <= LayoutSize(ar, oldL) <= ar.pow2 && h < Levels(ar)
    ensures var r := ShrinkSpec(ar, bk, p, oldL, newL);
      var go := Granularity(ar, LayoutSize(ar, oldL));
      var gn := Granularity(ar, LayoutSize(ar, newL));
      && r.Ok?
      && (LayoutSize(ar, newL) == LayoutSize(ar, oldL) ==> r.value == bk)
      && r.value.lists[h] == if go < h <= gn then [p + BlockSize(ar, h)] + bk.lists[h] else bk.lists[h]
  {
    SmallestBlockFits(ar);
    var o := LayoutToSize(ar.smlst, oldL);
    var n := LayoutToSize(ar.smlst, newL);
    GranularityOfSize(ar, o);
    GranularityOfSize(ar, n);
    if o != n {
      SplitLists(ar, bk, p, Granularity(ar, o) + 1, Granularity(ar, n), h);
    }
  }

  /** `Talloc`: the arena parameters and the books, updated in place. */
  class Talloc {
    var arenaBase: int
    var arenaSize: nat
    var arenaSizePow2: nat
    var smlstBlock: nat
    var avails: seq<bool>
    var llists: seq<seq<int>>
    var bitmap: seq<bv8>

    function ArenaOf(): Arena
      reads this
    {
      Arena(arenaBase, arenaSize, arenaSizePow2, smlstBlock)
    }

    function BooksOf(): Books
      reads this
    {
      Books(avails, llists, bitmap)
    }

    ghost predicate Valid()
      reads this
    {
      ArenaOk(ArenaOf()) && BooksOk(ArenaOf(), BooksOf())
    }

    /** `new_invalid`: no arena and no books, only the smallest block size. */
    constructor NewInvalid(smallest: nat)
      ensures arenaBase == 0 && arenaSize == 0 && arenaSizePow2 == 0 && smlstBlock == smallest
      ensures avails == seq(64, _ => false) && llists == [] && bitmap == []
    {
      arenaBase, arenaSize, arenaSizePow2, smlstBlock := 0, 0, 0, smallest;
      avails, llists, bitmap := seq(64, _ => false), [], [];
    }

    method AddBlockNext(g: nat, off: nat, node: int)
      requires Valid() && g < |llists|
      modifies this
      ensures Valid() && ArenaOf() == old(ArenaOf())
      ensures BooksOf() == AddBlockNextSpec(old(ArenaOf()), old(BooksOf()), g, off, node)
    {
      avails := avails[g := true];
      llists := llists[g := [node] + llists[g]];
      bitmap := ToggleBit(bitmap, off);
    }

    method RemoveBlockNext(g: nat, size: nat) returns (node: int)
      requires Valid() && g < |llists| && llists[g] != [] && 0 < size < U64_LIMIT
      modifies this
      ensures Valid() && ArenaOf() == old(ArenaOf())
      ensures (BooksOf(), node) == RemoveBlockNextSpec(old(ArenaOf()), old(BooksOf()), g, size)
    {
      if |llists[g]| == 1 {
        avails := avails[g := false];
      }
      node := llists[g][0];
      llists := llists[g := llists[g][1..]];
      bitmap := ToggleBit(bitmap, BitmapOffset(ArenaOf(), node, size));
    }

    method RemoveBlock(g: nat, off: nat, node: int)
      requires Valid() && g < |llists| && node in llists[g]
      modifies this
      ensures Valid() && ArenaOf() == old(ArenaOf())
      ensures BooksOf() == RemoveBlockSpec(old(ArenaOf()), old(BooksOf()), g, off, node)
    {
      if |llists[g]| == 1 {
        avails := avails[g := false];
      }
      var i := IndexOf(llists[g], node);
      llists := llists[g := llists[g][..i] + llists[g][i + 1..]];
      bitmap := ToggleBit(bitmap, off);
    }

    /** One round of the splitting loop: the upper half at granularity hg goes on its list. */
    method SplitRound(base: int, hg: nat, g: nat, hi: nat)
      requires Valid() && hg <= g < |llists| && hi == BlockSize(ArenaOf(), hg) && 0 < hi < U64_LIMIT
      modifies this
      ensures Valid() && ArenaOf() == old(ArenaOf())
      ensures SplitSpec(ArenaOf(), BooksOf(), base, hg + 1, g) == SplitSpec(ArenaOf(), old(BooksOf()), base, hg, g)
    {
      var off := BitmapOffset(ArenaOf(), base + hi, hi);
      SplitStep(ArenaOf(), BooksOf(), base, hg, g, hi, off);
      AddBlockNext(hg, off, base + hi);
    }

    /** The splitting loop of `alloc` and `shrink`. */
    method Split(base: int, hg0: nat, hi0: nat, g: nat)
      requires Valid() && g < |llists| && hi0 == BlockSize(ArenaOf(), hg0)
      modifies this
      ensures Valid() && ArenaOf() == old(ArenaOf())
      ensures BooksOf() == SplitSpec(old(ArenaOf()), old(BooksOf()), base, hg0, g)
    {
      if hg0 > g {
        return;
      }
      ghost var ar := ArenaOf();
      ghost var spec := SplitSpec(ar, BooksOf(), base, hg0, g);
      var hi := hi0;
      for hg := hg0 to g + 1
        invariant Valid() && ArenaOf() == ar
        invariant hi == BlockSize(ar, hg)
        invariant SplitSpec(ar, BooksOf(), base, hg, g) == spec
      {
        BlockSizeStep(ar, hg);
        SplitRound(base, hg, g, hi);
        hi := hi / 2;
      }
    }

    method Alloc(l: Layout) returns (r: Option<int>)
      requires Valid() && l.size > 0 && LayoutOk(l)
      modifies this
      ensures Valid() && ArenaOf() == old(ArenaOf())
      ensures (r, BooksOf()) == AllocSpec(old(ArenaOf()), old(BooksOf()), l)
    {
      ghost var spec := AllocSpec(ArenaOf(), BooksOf(), l);
      SmallestBlockFits(ArenaOf());
      var size := LayoutToSize(smlstBlock, l);
      if size > arenaSize {
        return None;
      }
      GranularityOfSize(ArenaOf(), size);
      var g := Granularity(ArenaOf(), size);
      if avails[g] {
        var b := RemoveBlockNext(g, size);
        return Some(b);
      }
      r := AllocLarger(g);
    }

    /** The path of `alloc` that splits the next larger available block. */
    method AllocLarger(g: nat) returns (r: Option<int>)
      requires Valid() && g < |llists|
      modifies this
      ensures Valid() && ArenaOf() == old(ArenaOf())
      ensures (r, BooksOf()) == AllocLargerSpec(old(ArenaOf()), old(BooksOf()), g)
    {
      var larger := HighestBelow(avails, g);
      if larger.None? {
        return None;
      }
      r := TakeAndSplit(larger.value, g);
    }

    /** `alloc` from the first block of the non-empty list lg. */
    method TakeAndSplit(lg: nat, g: nat) returns (r: Option<int>)
      requires Valid() && lg < g < |llists| && avails[lg]
      modifies this
      ensures Valid() && ArenaOf() == old(ArenaOf())
      ensures (r, BooksOf()) == TakeAndSplitSpec(old(ArenaOf()), old(BooksOf()), lg, g)
    {
      ghost var spec := TakeAndSplitSpec(ArenaOf(), BooksOf(), lg, g);
      BlockSizeStep(ArenaOf(), lg);
      var lgrSize := Shr(arenaSizePow2, lg);
      var lgrBase := RemoveBlockNext(lg, lgrSize);
      assert spec == (Some(lgrBase), SplitSpec(ArenaOf(), BooksOf(), lgrBase, lg + 1, g));
      Split(lgrBase, lg + 1, lgrSize / 2, g);
      return Some(lgrBase);
    }

    /** The merging loop of `dealloc`, from the block at `p0` of granularity `g0`. */
    method Merge(p0: int, g0: nat, size0: nat) returns (ok: bool)
      requires Valid() && g0 < |llists| && size0 == BlockSize(ArenaOf(), g0)
      modifies this
      ensures ArenaOf() == old(ArenaOf())
      ensures ok == MergeSpec(old(ArenaOf()), old(BooksOf()), p0, g0).Ok?
      ensures ok ==> Valid() && BooksOf() == MergeSpec(old(ArenaOf()), old(BooksOf()), p0, g0).value
    {
      ghost var ar := ArenaOf();
      ghost var spec := MergeSpec(ar, BooksOf(), p0, g0);
      BlockSizeStep(ar, g0);
      var p: int, g: nat, size: nat := p0, g0, size0;
      var off := BitmapOffset(ArenaOf(), p, size);
      while ReadBit(bitmap, off)
        invariant Valid() && ArenaOf() == ar
        invariant g < Levels(ar) && size == BlockSize(ar, g) && 0 < size < U64_LIMIT
        invariant off == BitmapOffset(ar, p, size)
        invariant MergeSpec(ar, BooksOf(), p, g) == spec
        decreases g
      {
        var buddy, next := p - size, p - size;
        if IsLowerBuddy(p, size) {
          buddy, next := p + size, p;
        }
        // A buddy missing from its list is undefined behaviour in the source.
        if buddy !in llists[g] {
          MergeStepPanics(ar, BooksOf(), p, g, size, off, buddy);
          return false;
        }
        if g == 0 {
          MergeStepPanics(ar, BooksOf(), p, g, size, off, buddy);
          RemoveBlock(g, off, buddy);
          return false;
        }
        MergeStep(ar, BooksOf(), p, g, size, off, buddy, next);
        RemoveBlock(g, off, buddy);
        BlockSizeStep(ar, g - 1);
        size := 2 * size;
        p := next;
        g := g - 1;
        off := BitmapOffset(ArenaOf(), p, size);
      }
      MergeStop(ar, BooksOf(), p, g, size, off);
      AddBlockNext(g, off, p);
      return true;
    }

    method Dealloc(ptr: int, l: Layout) returns (ok: bool)
      requires Valid() && l.size > 0 && LayoutOk(l)
      modifies this
      ensures ArenaOf() == old(ArenaOf())
      ensures ok == DeallocSpec(old(ArenaOf()), old(BooksOf()), ptr, l).Ok?
      ensures ok ==> Valid() && BooksOf() == DeallocSpec(old(ArenaOf()), old(BooksOf()), ptr, l).value
    {
      SmallestBlockFits(ArenaOf());
      var size := LayoutToSize(smlstBlock, l);
      if size > arenaSizePow2 {
        return false;
      }
      GranularityOfSize(ArenaOf(), size);
      var g := Granularity(ArenaOf(), size);
      ok := Merge(ptr, g, size);
    }

    method Shrink(ptr: int, oldL: Layout, newL: Layout) returns (ok: bool)
      requires Valid() && oldL.size > 0 && LayoutOk(oldL) && newL.size > 0 && LayoutOk(newL)
      modifies this
      ensures ArenaOf() == old(ArenaOf())
      ensures ok == ShrinkSpec(old(ArenaOf()), old(BooksOf()), ptr, oldL, newL).Ok?
      ensures ok ==> Valid() && BooksOf() == ShrinkSpec(old(ArenaOf()), old(BooksOf()), ptr, oldL, newL).value
    {
      ghost var spec := ShrinkSpec(ArenaOf(), BooksOf(), ptr, oldL, newL);
      SmallestBlockFits(ArenaOf());
      var oldSize := LayoutToSize(smlstBlock, oldL);
      var newSize := LayoutToSize(smlstBlock, newL);
      if oldSize == newSize {
        return true;
      }
      if oldSize > arenaSizePow2 || newSize > arenaSizePow2 {
        return false;
      }
      GranularityOfSize(ArenaOf(), oldSize);
      GranularityOfSize(ArenaOf(), newSize);
      var og := Granularity(ArenaOf(), oldSize);
      var ng := Granularity(ArenaOf(), newSize);
      Split(ptr, og + 1, oldSize / 2, ng);
      return true;
    }

    method Release(p: int, len: nat) returns (ok: bool)
      requires Valid()
      modifies this
      ensures ArenaOf() == old(ArenaOf())
      ensures !ok ==> ReleaseSpec(old(ArenaOf()), old(BooksOf()), p, len) == Panic
      ensures ok ==> Valid() && ReleaseSpec(old(ArenaOf()), old(BooksOf()), p, len) == Ok(BooksOf())
      decreases if StraddlesNull(p, len, smlstBlock) then 1 else 0, 1
    {
      var sm := smlstBlock;
      var base := RoundUp(p, sm);
      var acme := RoundDown(p + len, sm);
      if base < arenaBase || acme > arenaBase + arenaSize {
        return false;
      }
      if base >= acme {
        return true;
      }
      if base <= 0 < acme {
        ok := ReleaseAroundNull(p, len);
        return;
      }
      ReleaseFromBlocks(ArenaOf(), BooksOf(), base, acme, true);
      ok := ReleaseLoop(base, acme);
    }

    /** `release` of a span straddling address 0: the part below 0, then the rest. */
    method ReleaseAroundNull(p: int, len: nat) returns (ok: bool)
      requires Valid() && StraddlesNull(p, len, smlstBlock)
      modifies this
      ensures ArenaOf() == old(ArenaOf())
      ensures !ok ==> ReleaseAroundNullSpec(old(ArenaOf()), old(BooksOf()), p, len) == Panic
      ensures ok ==> Valid() && ReleaseAroundNullSpec(old(ArenaOf()), old(BooksOf()), p, len) == Ok(BooksOf())
      decreases 1, 0
    {
      ghost var ar := ArenaOf();
      ghost var bk := BooksOf();
      var sm := smlstBlock;
      var base := RoundUp(p, sm);
      NullSplitPieces(p, len, sm);
      ok := Release(p, 0 - p);
      if !ok {
        NullSplitPanics(ar, bk, p, len);
        return;
      }
      NullSplitThen(ar, bk, p, len, BooksOf());
      ok := Release(p + sm - base, len - (sm - base));
    }

    /** The loop of `release`: `dealloc` of the blocks between `base` and `acme`. */
    method ReleaseLoop(base: int, acme: int) returns (ok: bool)
      requires Valid() && base <= acme && acme - base <= ISIZE_MAX
      modifies this
      ensures ArenaOf() == old(ArenaOf())
      ensures ok == ReleaseFrom(old(ArenaOf()), old(BooksOf()), base, acme, true).Ok?
      ensures ok ==> Valid() && BooksOf() == ReleaseFrom(old(ArenaOf()), old(BooksOf()), base, acme, true).value
    {
      ghost var ar := ArenaOf();
      ghost var spec := ReleaseFrom(ar, BooksOf(), base, acme, true);
      var bb := base;
      var asc := true;
      var done := false;
      ok := true;
      while ok && !done
        invariant ArenaOf() == ar && base <= bb <= acme
        invariant ok ==> Valid()
        invariant !ok ==> spec == Panic
        invariant ok && done ==> spec == Ok(BooksOf())
        invariant ok && !done && asc ==> ReleaseFrom(ar, BooksOf(), bb, acme, true) == spec
        invariant ok && !done && !asc ==> ReleaseFrom(ar, BooksOf(), bb, acme, false) == spec
        decreases !done && ok, acme - bb, if asc then 1 else 0
      {
        if asc {
          ok, bb, asc := ReleaseAscending(bb, acme);
        } else {
          ok, bb, done := ReleaseDescending(bb, acme);
        }
      }
    }

    /**
     * An ascending round of the loop of `release`: the block at `bb` as
     * large as its alignment allows, or the turn to descending blocks when
     * that block does not fit below `acme`.
     */
    method ReleaseAscending(bb: int, acme: int) returns (ok: bool, next: int, asc: bool)
      requires Valid() && bb <= acme && acme - bb <= ISIZE_MAX
      modifies this
      ensures ArenaOf() == old(ArenaOf()) && bb <= next <= acme && (asc ==> next > bb)
      ensures ok ==> Valid()
      ensures old(ReleaseFrom(ArenaOf(), BooksOf(), bb, acme, true))
        == if !ok then Panic else ReleaseFrom(ArenaOf(), BooksOf(), next, acme, asc)
    {
      var bs := LowBit(bb);
      if bb + bs > acme {
        ReleaseSwitch(ArenaOf(), BooksOf(), bb, acme);
        return true, bb, false;
      }
      ok := ReleaseBlock(bb, bs, acme, true);
      next, asc := bb + bs, true;
    }

    /**
     * A descending round of the loop of `release`: the block at `bb` of the
     * previous power of two of the distance left, or the end when less than
     * a smallest block is left.
     */
    method ReleaseDescending(bb: int, acme: int) returns (ok: bool, next: int, done: bool)
      requires Valid() && bb <= acme && acme - bb <= ISIZE_MAX
      modifies this
      ensures ArenaOf() == old(ArenaOf()) && bb <= next <= acme && (!done ==> next > bb)
      ensures ok ==> Valid()
      ensures old(ReleaseFrom(ArenaOf(), BooksOf(), bb, acme, false))
        == if !ok then Panic else if done then Ok(BooksOf()) else ReleaseFrom(ArenaOf(), BooksOf(), next, acme, false)
    {
      var delta := acme - bb;
      if delta < smlstBlock {
        ReleaseEnd(ArenaOf(), BooksOf(), bb, acme);
        return true, bb, true;
      }
      var bs := PrevPow2(delta);
      ok := ReleaseBlock(bb, bs, acme, false);
      next, done := bb + bs, false;
    }

    /** `dealloc` of the block at `bb` in a round of the loop of `release`. */
    method ReleaseBlock(bb: int, bs: nat, acme: int, asc: bool) returns (ok: bool)
      requires Valid() && bb <= acme && acme - bb <= ISIZE_MAX
      requires asc ==> bs == LowBit(bb) && bb + bs <= acme
      requires !asc ==> acme - bb >= smlstBlock && bs == PrevPow2(acme - bb)
      modifies this
      ensures ArenaOf() == old(ArenaOf()) && bs > 0 && bb + bs <= acme
      ensures !ok ==> old(ReleaseFrom(ArenaOf(), BooksOf(), bb, acme, asc)) == Panic
      ensures ok ==> Valid()
      ensures ok ==> old(ReleaseFrom(ArenaOf(), BooksOf(), bb, acme, asc)) == ReleaseFrom(ArenaOf(), BooksOf(), bb + bs, acme, asc)
    {
      ReleaseFromStep(ArenaOf(), BooksOf(), bb, bs, acme, asc);
      ok := Dealloc(bb, Layout(bs, 1));
    }

    method Extend(base: int, size: nat, p: int, len: nat) returns (ok: bool)
      requires avails == seq(64, _ => false) && llists == [] && bitmap == []
      modifies this
      ensures !ok ==> ExtendSpec(old(smlstBlock), base, size, p, len) == Panic
      ensures ok ==> Valid() && ExtendSpec(old(smlstBlock), base, size, p, len) == Ok((ArenaOf(), BooksOf()))
    {
      var slices := SliceBytes(size, smlstBlock);
      if slices.Panic? {
        return false;
      }
      var (ll, bm) := slices.value;
      ok := ExtendWith(base, size, p, len, ll, bm);
    }

    /** `extend` past the slice sizes: the bounds asserts, the books, `release`. */
    method ExtendWith(base: int, size: nat, p: int, len: nat, ll: nat, bm: nat) returns (ok: bool)
      requires avails == seq(64, _ => false) && llists == [] && bitmap == []
      requires SliceBytes(size, smlstBlock) == Ok((ll, bm))
      modifies this
      ensures !ok ==> ExtendSliced(old(smlstBlock), base, size, p, len, ll, bm) == Panic
      ensures ok ==> Valid() && ExtendSliced(old(smlstBlock), base, size, p, len, ll, bm) == Ok((ArenaOf(), BooksOf()))
    {
      if p < base || p + len > base + size {
        ExtendSlicedPanics(smlstBlock, base, size, p, len, ll, bm);
        return false;
      }
      var off := LlAlignOffset(p) + ll + bm;
      if off > len {
        ExtendSlicedPanics(smlstBlock, base, size, p, len, ll, bm);
        return false;
      }
      ExtendSlicedRelease(smlstBlock, base, size, p, len, ll, bm);
      ok := InstallRelease(base, size, ll / NODE_SIZE, bm, p + off, len - off);
    }

    /** The arena fields and fresh books that `extend` writes, then `release` of its memory. */
    method InstallRelease(base: int, size: nat, levels: nat, bm: nat, q: int, n: nat) returns (ok: bool)
      requires MINIMUM_ARENA_SIZE <= size <= MAXIMUM_ARENA_SIZE
      requires ArenaOk(Arena(base, size, NextPow2(size), smlstBlock))
      requires levels == Levels(Arena(base, size, NextPow2(size), smlstBlock))
      requires Pow2(levels) <= 8 * bm
      modifies this
      ensures ArenaOf() == Arena(base, size, NextPow2(size), old(smlstBlock))
      ensures !ok ==> ExtendRelease(Arena(base, size, NextPow2(size), old(smlstBlock)), bm, q, n) == Panic
      ensures ok ==> Valid() && ExtendRelease(Arena(base, size, NextPow2(size), old(smlstBlock)), bm, q, n) == Ok((ArenaOf(), BooksOf()))
    {
      EmptyBooksOk(Arena(base, size, NextPow2(size), smlstBlock), bm);
      var empty := EmptyBooks(levels, bm);
      arenaBase, arenaSize, arenaSizePow2 := base, size, NextPow2(size);
      avails, llists, bitmap := empty.avails, empty.lists, empty.bitmap;
      assert ArenaOf() == Arena(base, size, NextPow2(size), smlstBlock);
      ok := Release(q, n);
    }
  }

  /** `new`: `new_invalid` followed by `extend`. */
  method New(smallest: nat, base: int, size: nat, p: int, len: nat) returns (t: Talloc, ok: bool)
    ensures !ok ==> ExtendSpec(smallest, base, size, p, len) == Panic
    ensures ok ==> t.Valid() && ExtendSpec(smallest, base, size, p, len) == Ok((t.ArenaOf(), t.BooksOf()))
  {
    t := new Talloc.NewInvalid(smallest);
    ok := t.Extend(base, size, p, len);
  }
}
