/**
 * The physical-memory manager of kernel/src/mem/pmemm.rs.
 *
 * The available regions of the firmware memory map are kept in a circular
 * list whose head is the largest region and whose nodes follow in
 * descending order of page count. Each node lives at the start of the
 * region it describes, so a node is known by that address. The list is
 * represented by the sequence of its nodes read forward from the head (the
 * empty sequence when the head pointer is null); `regions[|regions| - 1]` is
 * the head's `prev`.
 *
 * Page counts and addresses are unbounded integers; the two `wrapping_add`s
 * of the source are written out modulo 2^64. A dereference of the null head
 * is a `Panic`.
 */
module PhysMem {
  import opened Wrappers

  const U64_LIMIT: int := 0x1_0000_0000_0000_0000

  type u32 = x: int | 0 <= x < 0x1_0000_0000
  type u64 = x: int | 0 <= x < U64_LIMIT
  type isize = x: int | -0x8000_0000_0000_0000 <= x < 0x8000_0000_0000_0000

  /** `amd64::paging::PTE_MAPPED_SIZE`: the bytes of one page. */
  const PAGE_SIZE: nat := 0x1000

  /** The UEFI memory types the manager may hand out. */
  const LOADER_CODE: u32 := 1
  const LOADER_DATA: u32 := 2
  const BOOT_SERVICES_CODE: u32 := 3
  const BOOT_SERVICES_DATA: u32 := 4
  const CONVENTIONAL: u32 := 7

  /** `avl_mem_types!()`: the pattern a descriptor's type is matched against. */
  predicate Available(ty: u32) {
    ty == LOADER_CODE || ty == LOADER_DATA || ty == BOOT_SERVICES_CODE || ty == BOOT_SERVICES_DATA || ty == CONVENTIONAL
  }

  datatype MemoryDescriptor = MemoryDescriptor(ty: u32, physStart: u64, virtStart: u64, pageCount: u64)

  /** An item of `AvlMemAcc`: `(phys_base, virt_base, page_count)`. */
  datatype Region = Region(phys: nat, virt: nat, pages: nat)

  /** A list node: where it lives, and its data `(physical base, page count)`. */
  datatype Node = Node(addr: nat, phys: nat, pages: nat)

  /** `PhysMemHandle`: a claimed block of contiguous pages. */
  datatype Handle = Handle(virtBase: nat, physBase: nat, pageCount: nat)

  /** The pages of every descriptor. */
  function Pages(ds: seq<MemoryDescriptor>): nat {
    if |ds| == 0 then 0 else ds[0].pageCount + Pages(ds[1..])
  }

  /** The pages of the available descriptors. */
  function AvailablePages(ds: seq<MemoryDescriptor>): nat {
    if |ds| == 0 then 0 else (if Available(ds[0].ty) then ds[0].pageCount else 0) + AvailablePages(ds[1..])
  }

  lemma {:induction false} PagesAppend(a: seq<MemoryDescriptor>, b: seq<MemoryDescriptor>)
    ensures Pages(a + b) == Pages(a) + Pages(b)
    ensures AvailablePages(a + b) == AvailablePages(a) + AvailablePages(b)
  {
    if |a| > 0 {
      assert (a + b)[1..] == a[1..] + b;
      PagesAppend(a[1..], b);
    } else {
      assert a + b == b;
    }
  }

  lemma PagesSnoc(mmap: seq<MemoryDescriptor>, i: nat, j: nat)
    requires i <= j < |mmap|
    ensures Pages(mmap[i..j + 1]) == Pages(mmap[i..j]) + mmap[j].pageCount
  {
    assert mmap[i..j + 1] == mmap[i..j] + [mmap[j]];
    PagesAppend(mmap[i..j], [mmap[j]]);
    assert [mmap[j]][1..] == [];
  }

  /** A run of available descriptors holds nothing but available pages. */
  lemma {:induction false} AvailableRun(ds: seq<MemoryDescriptor>)
    requires forall k :: 0 <= k < |ds| ==> Available(ds[k].ty)
    ensures AvailablePages(ds) == Pages(ds)
  {
    if |ds| > 0 {
      AvailableRun(ds[1..]);
    }
  }

  /** A run of unavailable descriptors holds no available pages. */
  lemma {:induction false} UnavailableRun(ds: seq<MemoryDescriptor>)
    requires forall k :: 0 <= k < |ds| ==> !Available(ds[k].ty)
    ensures AvailablePages(ds) == 0
  {
    if |ds| > 0 {
      UnavailableRun(ds[1..]);
    }
  }

  /** The first available descriptor at or after `pos`, or `|mmap|`. */
  function FirstAvailable(mmap: seq<MemoryDescriptor>, pos: nat): (i: nat)
    requires pos <= |mmap|
    ensures pos <= i <= |mmap|
    ensures forall k :: pos <= k < i ==> !Available(mmap[k].ty)
    ensures i < |mmap| ==> Available(mmap[i].ty)
    decreases |mmap| - pos
  {
    if pos == |mmap| || Available(mmap[pos].ty) then pos else FirstAvailable(mmap, pos + 1)
  }

  /** The physical address just past the pages of `d`. */
  function PhysEnd(d: MemoryDescriptor): nat {
    d.physStart + d.pageCount * PAGE_SIZE
  }

  /** `b` starts in physical memory where `a` ends. */
  predicate Adjoins(a: MemoryDescriptor, b: MemoryDescriptor) {
    PhysEnd(a) == b.physStart
  }

  /**
   * Where the run of contiguous available descriptors continuing at `i`
   * ends: at the first descriptor that is not available or does not start
   * where the one before it ends.
   */
  function RunEnd(mmap: seq<MemoryDescriptor>, i: nat): (e: nat)
    requires 1 <= i <= |mmap|
    ensures i <= e <= |mmap|
    ensures forall k :: i <= k < e ==> Available(mmap[k].ty) && Adjoins(mmap[k - 1], mmap[k])
    ensures e < |mmap| ==> !Available(mmap[e].ty) || !Adjoins(mmap[e - 1], mmap[e])
    decreases |mmap| - i
  {
    if i == |mmap| || !Available(mmap[i].ty) || !Adjoins(mmap[i - 1], mmap[i]) then i else RunEnd(mmap, i + 1)
  }

  /** Where the iterator resumes after a run ending at `e`: past an unavailable descriptor, at an available one. */
  function Resume(mmap: seq<MemoryDescriptor>, e: nat): (p: nat)
    requires e <= |mmap|
    ensures e <= p <= |mmap|
    ensures p == e + 1 <==> e < |mmap| && !Available(mmap[e].ty)
  {
    if e < |mmap| && !Available(mmap[e].ty) then e + 1 else e
  }

  /** A run of adjoining descriptors covers the physical memory from its first start to its last end. */
  lemma {:induction false} RunSpan(mmap: seq<MemoryDescriptor>, i: nat, j: nat)
    requires i < j <= |mmap|
    requires forall k :: i < k < j ==> Adjoins(mmap[k - 1], mmap[k])
    ensures mmap[i].physStart + Pages(mmap[i..j]) * PAGE_SIZE == PhysEnd(mmap[j - 1])
    decreases j - i
  {
    if j == i + 1 {
      assert mmap[i..j] == [mmap[i]] && mmap[i..j][1..] == [];
    } else {
      RunSpan(mmap, i, j - 1);
      PagesSnoc(mmap, i, j - 1);
      assert Adjoins(mmap[j - 2], mmap[j - 1]);
    }
  }

  /**
   * `AvlMemAcc::next` from position `pos`, and the position after it: the
   * first available descriptor starts a region, the available descriptors
   * right after it that each start where the one before ends add their
   * pages to it, and the first descriptor that does not ends it: an
   * unavailable one is consumed, an available one after a gap starts the
   * next region; `None` when no available descriptor is left.
   */
  function AccNext(mmap: seq<MemoryDescriptor>, pos: nat): (r: (Option<Region>, nat))
    requires pos <= |mmap|
    ensures r.1 <= |mmap|
    ensures r.0.Some? ==> r.1 > pos
  {
    var i := FirstAvailable(mmap, pos);
    if i == |mmap| then (None, i)
    else
      var e := RunEnd(mmap, i + 1);
      (Some(Region(mmap[i].physStart, mmap[i].virtStart, Pages(mmap[i..e]))), Resume(mmap, e))
  }

  /** Everything `AvlMemAcc` yields from position `pos` on. */
  function AccAll(mmap: seq<MemoryDescriptor>, pos: nat): seq<Region>
    requires pos <= |mmap|
    decreases |mmap| - pos
  {
    var (r, p) := AccNext(mmap, pos);
    if r.None? then [] else [r.value] + AccAll(mmap, p)
  }

  lemma AccAllStep(mmap: seq<MemoryDescriptor>, pos: nat)
    requires pos <= |mmap|
    ensures var (r, p) := AccNext(mmap, pos);
      AccAll(mmap, pos) == if r.None? then [] else [r.value] + AccAll(mmap, p)
  {
  }

  function RegionPages(rs: seq<Region>): nat {
    if |rs| == 0 then 0 else rs[0].pages + RegionPages(rs[1..])
  }

  /** The iterator ends with `None` exactly when no available descriptor is left. */
  lemma AccNextEnds(mmap: seq<MemoryDescriptor>, pos: nat)
    requires pos <= |mmap|
    ensures AccNext(mmap, pos).0.None? <==> forall k :: pos <= k < |mmap| ==> !Available(mmap[k].ty)
  {
    var i := FirstAvailable(mmap, pos);
    if i < |mmap| {
      assert Available(mmap[i].ty);
    }
  }

  /**
   * A yielded region is a run of consecutive available descriptors that are
   * contiguous in physical memory: it starts at the first available one and
   * adds up exactly the pages of the run, all of them available.
   */
  lemma AccNextRun(mmap: seq<MemoryDescriptor>, pos: nat)
    requires pos <= |mmap| && AccNext(mmap, pos).0.Some?
    ensures var i := FirstAvailable(mmap, pos); var e := RunEnd(mmap, i + 1); var r := AccNext(mmap, pos).0.value;
      && i < e
      && r.phys == mmap[i].physStart && r.virt == mmap[i].virtStart
      && r.pages == AvailablePages(mmap[i..e]) == Pages(mmap[i..e])
      && (forall k :: i < k < e ==> Adjoins(mmap[k - 1], mmap[k]))
  {
    var i := FirstAvailable(mmap, pos);
    var e := RunEnd(mmap, i + 1);
    AvailableRun(mmap[i..e]);
  }

  /** A yielded region ends in physical memory where the last descriptor of its run ends. */
  lemma AccNextSpan(mmap: seq<MemoryDescriptor>, pos: nat)
    requires pos <= |mmap| && AccNext(mmap, pos).0.Some?
    ensures var i := FirstAvailable(mmap, pos); var e := RunEnd(mmap, i + 1); var r := AccNext(mmap, pos).0.value;
      r.phys + r.pages * PAGE_SIZE == PhysEnd(mmap[e - 1])
  {
    var i := FirstAvailable(mmap, pos);
    var e := RunEnd(mmap, i + 1);
    RunSpan(mmap, i, e);
  }

  /** The available pages of a suffix split at any later point. */
  lemma AvailableSplit(mmap: seq<MemoryDescriptor>, i: nat, j: nat)
    requires i <= j <= |mmap|
    ensures AvailablePages(mmap[i..]) == AvailablePages(mmap[i..j]) + AvailablePages(mmap[j..])
  {
    assert mmap[i..] == mmap[i..j] + mmap[j..];
    PagesAppend(mmap[i..j], mmap[j..]);
  }

  /** Skipping unavailable descriptors skips no available page. */
  lemma SkipPages(mmap: seq<MemoryDescriptor>, pos: nat)
    requires pos <= |mmap|
    ensures AvailablePages(mmap[pos..]) == AvailablePages(mmap[FirstAvailable(mmap, pos)..])
  {
    var i := FirstAvailable(mmap, pos);
    AvailableSplit(mmap, pos, i);
    UnavailableRun(mmap[pos..i]);
  }

  /** A run of available descriptors and the unavailable one, if any, that ends it. */
  lemma RunPages(mmap: seq<MemoryDescriptor>, i: nat)
    requires i < |mmap| && Available(mmap[i].ty)
    ensures var e := RunEnd(mmap, i + 1);
      AvailablePages(mmap[i..]) == Pages(mmap[i..e]) + AvailablePages(mmap[Resume(mmap, e)..])
  {
    var e := RunEnd(mmap, i + 1);
    AvailableSplit(mmap, i, e);
    AvailableRun(mmap[i..e]);
    if Resume(mmap, e) == e + 1 {
      AvailableSplit(mmap, e, e + 1);
      UnavailableRun(mmap[e..e + 1]);
    }
  }

  /** One step of the iterator: the available pages from `pos` on are those of the region yielded and those after it. */
  lemma AccNextPages(mmap: seq<MemoryDescriptor>, pos: nat)
    requires pos <= |mmap|
    ensures var (r, p) := AccNext(mmap, pos);
      AvailablePages(mmap[pos..]) == if r.None? then 0 else r.value.pages + AvailablePages(mmap[p..])
  {
    var i := FirstAvailable(mmap, pos);
    SkipPages(mmap, pos);
    if i < |mmap| {
      RunPages(mmap, i);
    } else {
      assert mmap[i..] == [];
    }
  }

  /** The regions yielded over the whole iteration hold every available page and no other. */
  lemma {:induction false} AccAllPages(mmap: seq<MemoryDescriptor>, pos: nat)
    requires pos <= |mmap|
    ensures RegionPages(AccAll(mmap, pos)) == AvailablePages(mmap[pos..])
    decreases |mmap| - pos
  {
    var (r, p) := AccNext(mmap, pos);
    AccNextPages(mmap, pos);
    if r.Some? {
      AccAllPages(mmap, p);
      var rest := AccAll(mmap, p);
      assert AccAll(mmap, pos) == [r.value] + rest;
      assert ([r.value] + rest)[1..] == rest;
    }
  }

  /**
   * `AvlMemAcc::next` as written: after the first available descriptor it
   * adds the pages of every later available descriptor, whatever lies
   * between, and consumes the whole map.
   */
  function AccNextAsWritten(mmap: seq<MemoryDescriptor>, pos: nat): (Option<Region>, nat)
    requires pos <= |mmap|
  {
    var i := FirstAvailable(mmap, pos);
    if i == |mmap| then (None, i)
    else (Some(Region(mmap[i].physStart, mmap[i].virtStart, AvailablePages(mmap[i..]))), |mmap|)
  }

  /**
   * An available page, a reserved page and another available page: as
   * written, one two-page region starting at address 0 is yielded, which
   * spans the reserved page; the corrected iterator yields a one-page region.
   */
  lemma AccNextAsWrittenSpansReserved()
    ensures var m := [MemoryDescriptor(CONVENTIONAL, 0, 0, 1), MemoryDescriptor(0, 0x1000, 0x1000, 1),
                      MemoryDescriptor(CONVENTIONAL, 0x2000, 0x2000, 1)];
      && AccNextAsWritten(m, 0).0 == Some(Region(0, 0, 2))
      && !Available(m[1].ty) && m[1].physStart < 0 + 2 * PAGE_SIZE
      && AccNext(m, 0).0 == Some(Region(0, 0, 1))
  {
    var m := [MemoryDescriptor(CONVENTIONAL, 0, 0, 1), MemoryDescriptor(0, 0x1000, 0x1000, 1),
              MemoryDescriptor(CONVENTIONAL, 0x2000, 0x2000, 1)];
    assert FirstAvailable(m, 0) == 0;
    assert m[0..] == m;
    assert m[1..] == [m[1], m[2]] && m[1..][1..] == [m[2]] && m[1..][1..][1..] == [];
    assert AvailablePages(m[1..][1..]) == 1;
    assert AvailablePages(m[1..]) == 1;
    assert AvailablePages(m) == 2;
    assert RunEnd(m, 1) == 1;
    assert m[0..1] == [m[0]] && m[0..1][1..] == [];
    assert Pages(m[0..1]) == 1;
  }

  /**
   * Two available descriptors listed one after the other with the hole of
   * the legacy video memory between them, [0, 0xA0000) and
   * [0x100000, 0x200000): the first region ends before the hole, and the
   * second descriptor starts the next region.
   */
  lemma AccNextStopsAtHole()
    ensures var m := [MemoryDescriptor(CONVENTIONAL, 0, 0, 0xA0), MemoryDescriptor(CONVENTIONAL, 0x10_0000, 0x10_0000, 0x100)];
      && !Adjoins(m[0], m[1])
      && AccNext(m, 0) == (Some(Region(0, 0, 0xA0)), 1)
      && AccNext(m, 1) == (Some(Region(0x10_0000, 0x10_0000, 0x100)), 2)
  {
    var m := [MemoryDescriptor(CONVENTIONAL, 0, 0, 0xA0), MemoryDescriptor(CONVENTIONAL, 0x10_0000, 0x10_0000, 0x100)];
    assert PhysEnd(m[0]) == 0xA_0000;
    assert Available(m[0].ty) && Available(m[1].ty);
    assert FirstAvailable(m, 0) == 0 && FirstAvailable(m, 1) == 1;
    assert RunEnd(m, 1) == 1 && RunEnd(m, 2) == 2;
    assert Resume(m, 1) == 1 && Resume(m, 2) == 2;
    assert m[0..1] == [m[0]] && m[0..1][1..] == [];
    assert m[1..2] == [m[1]] && m[1..2][1..] == [];
    assert Pages(m[0..1]) == 0xA0 && Pages(m[1..2]) == 0x100;
  }

  /** `AvlMemAcc`: the memory-map iterator. */
  class AvlMemAcc {
    const mmap: seq<MemoryDescriptor>
    var pos: nat

    /** `AvlMemAcc::iter`. */
    constructor (mmap: seq<MemoryDescriptor>)
      ensures this.mmap == mmap && pos == 0
    {
      this.mmap := mmap;
      pos := 0;
    }

    /** `next`: skip unavailable descriptors, then add up the run of contiguous available ones. */
    method Next() returns (r: Option<Region>)
      requires pos <= |mmap|
      modifies this
      ensures (r, pos) == AccNext(mmap, old(pos))
    {
      var p := pos;
      while p < |mmap| && !Available(mmap[p].ty)
        invariant old(pos) <= p <= |mmap|
        invariant FirstAvailable(mmap, old(pos)) == FirstAvailable(mmap, p)
        decreases |mmap| - p
      {
        p := p + 1;
      }
      if p == |mmap| {
        pos := p;
        return None;
      }
      var i := p;
      assert FirstAvailable(mmap, old(pos)) == i;
      var pages, e := AccumulateRun(i);
      pos := Resume(mmap, e);
      r := Some(Region(mmap[i].physStart, mmap[i].virtStart, pages));
    }

    /**
     * The accumulating loop of `next`, from the available descriptor at `i`:
     * the pages of the run that continues there, and where it ends.
     */
    method AccumulateRun(i: nat) returns (pages: nat, e: nat)
      requires i < |mmap| && Available(mmap[i].ty)
      ensures e == RunEnd(mmap, i + 1) && pages == Pages(mmap[i..e])
    {
      pages := mmap[i].pageCount;
      e := i + 1;
      assert mmap[i..e] == [mmap[i]];
      while e < |mmap|
        invariant i < e <= RunEnd(mmap, i + 1)
        invariant RunEnd(mmap, i + 1) == RunEnd(mmap, e)
        invariant pages == Pages(mmap[i..e])
        decreases |mmap| - e
      {
        var next := mmap[e];
        if !Available(next.ty) {
          return;
        }
        if !Adjoins(mmap[e - 1], next) {
          // a hole in physical memory: `next` starts the following region
          return;
        }
        PagesSnoc(mmap, i, e);
        e := e + 1;
        pages := pages + next.pageCount;
      }
    }
  }

  /** The pages held by a list's nodes. */
  function NodePages(ns: seq<Node>): nat {
    if |ns| == 0 then 0 else ns[0].pages + NodePages(ns[1..])
  }

  lemma {:induction false} NodePagesAppend(a: seq<Node>, b: seq<Node>)
    ensures NodePages(a + b) == NodePages(a) + NodePages(b)
  {
    if |a| > 0 {
      assert (a + b)[1..] == a[1..] + b;
      NodePagesAppend(a[1..], b);
    } else {
      assert a + b == b;
    }
  }

  /** The design's order: the head is the largest region and each node is no larger than the one before. */
  predicate Descending(ns: seq<Node>) {
    forall i, j :: 0 <= i < j < |ns| ==> ns[i].pages >= ns[j].pages
  }

  lemma DescendingTail(ns: seq<Node>)
    requires |ns| > 0 && Descending(ns)
    ensures Descending(ns[1..])
  {
    forall a, b | 0 <= a < b < |ns| - 1
      ensures ns[1..][a].pages >= ns[1..][b].pages
    {
      assert ns[1..][a] == ns[a + 1] && ns[1..][b] == ns[b + 1];
    }
  }

  /** Where a node of `pages` pages goes: before the first node that is not larger. */
  function InsertAt(ns: seq<Node>, pages: nat, from: nat): (i: nat)
    requires from <= |ns|
    ensures from <= i <= |ns|
    ensures forall k :: from <= k < i ==> ns[k].pages > pages
    ensures i < |ns| ==> ns[i].pages <= pages
    decreases |ns| - from
  {
    if from == |ns| || ns[from].pages <= pages then from else InsertAt(ns, pages, from + 1)
  }

  /** The list after inserting `n` at its place; when it goes first it becomes the head. */
  function Insert(ns: seq<Node>, n: Node): seq<Node> {
    var i := InsertAt(ns, n.pages, 0);
    ns[..i] + [n] + ns[i..]
  }

  /** Inserting keeps the order, ... */
  lemma InsertDescending(ns: seq<Node>, n: Node)
    requires Descending(ns)
    ensures Descending(Insert(ns, n))
  {
    var i := InsertAt(ns, n.pages, 0);
    var r := Insert(ns, n);
    forall a, b | 0 <= a < b < |r|
      ensures r[a].pages >= r[b].pages
    {
      if a < i && b == i {
      } else if a == i && b > i {
        assert r[b] == ns[b - 1];
        assert ns[i].pages <= n.pages;
      } else if a < i && b > i {
        assert r[b] == ns[b - 1];
      } else if a > i {
        assert r[a] == ns[a - 1] && r[b] == ns[b - 1];
      }
    }
  }

  /** ... adds the node to the nodes already there, ... */
  lemma InsertContents(ns: seq<Node>, n: Node)
    ensures multiset(Insert(ns, n)) == multiset(ns) + multiset{n}
  {
    var i := InsertAt(ns, n.pages, 0);
    assert ns == ns[..i] + ns[i..];
  }

  /** ... and adds its pages. */
  lemma InsertPages(ns: seq<Node>, n: Node)
    ensures NodePages(Insert(ns, n)) == NodePages(ns) + n.pages
  {
    var i := InsertAt(ns, n.pages, 0);
    assert ns == ns[..i] + ns[i..];
    NodePagesAppend(ns[..i] + [n], ns[i..]);
    NodePagesAppend(ns[..i], [n]);
    NodePagesAppend(ns[..i], ns[i..]);
    assert NodePages([n]) == n.pages by {
      assert [n][1..] == [];
    }
  }

  /**
   * The insertion walk of `new` and `reclaim` as written: it moves on past
   * every node larger than the new one, but the last node is never compared
   * (the walk falls through to the end of the list there), and a node that
   * belongs before the head goes before it in the ring while the head
   * pointer stays, which is the end of the list.
   */
  function InsertAtAsWritten(ns: seq<Node>, pages: nat, i: nat): (k: nat)
    requires i < |ns|
    ensures k <= |ns|
    decreases |ns| - i
  {
    if i + 1 == |ns| then |ns|
    else if ns[i].pages > pages then InsertAtAsWritten(ns, pages, i + 1)
    else if i == 0 then |ns|
    else i
  }

  function InsertAsWritten(ns: seq<Node>, n: Node): seq<Node>
    requires |ns| > 0
  {
    var i := InsertAtAsWritten(ns, n.pages, 0);
    ns[..i] + [n] + ns[i..]
  }

  /** Inserting 5 pages into the list 10, 3 gives 10, 3, 5 as written; the corrected insertion gives 10, 5, 3. */
  lemma InsertAsWrittenBreaksOrder()
    ensures var ns := [Node(0x1000, 0x1000, 10), Node(0x20000, 0x20000, 3)];
      var n := Node(0x40000, 0x40000, 5);
      && Descending(ns)
      && InsertAsWritten(ns, n) == ns + [n]
      && !Descending(InsertAsWritten(ns, n))
      && Insert(ns, n) == [ns[0], n, ns[1]]
  {
    var ns := [Node(0x1000, 0x1000, 10), Node(0x20000, 0x20000, 3)];
    var n := Node(0x40000, 0x40000, 5);
    assert InsertAtAsWritten(ns, 5, 0) == 2;
    assert ns[..2] == ns && ns[2..] == [];
    var w := InsertAsWritten(ns, n);
    assert w[1].pages < w[2].pages;
    assert InsertAt(ns, 5, 0) == 1;
    assert ns[..1] == [ns[0]] && ns[1..] == [ns[1]];
  }

  /** The list without node `j`; when that is the head, its successor becomes the head. */
  function Remove(ns: seq<Node>, j: nat): (r: seq<Node>)
    requires j < |ns|
    ensures |r| == |ns| - 1
  {
    ns[..j] + ns[j + 1..]
  }

  /** Removing a node keeps the order, ... */
  lemma RemoveDescending(ns: seq<Node>, j: nat)
    requires j < |ns| && Descending(ns)
    ensures Descending(Remove(ns, j))
  {
    var r := Remove(ns, j);
    forall a, b | 0 <= a < b < |r|
      ensures r[a].pages >= r[b].pages
    {
      var a' := if a < j then a else a + 1;
      var b' := if b < j then b else b + 1;
      assert r[a] == ns[a'] && r[b] == ns[b'];
    }
  }

  /** ... takes out that node and no other, ... */
  lemma RemoveContents(ns: seq<Node>, j: nat)
    requires j < |ns|
    ensures multiset(Remove(ns, j)) + multiset{ns[j]} == multiset(ns)
  {
    assert ns == ns[..j] + [ns[j]] + ns[j + 1..];
  }

  /** ... and takes out its pages. */
  lemma {:induction false} NodePagesMiddle(a: seq<Node>, x: Node, b: seq<Node>)
    ensures NodePages((a + [x]) + b) == NodePages(a + b) + x.pages
  {
    NodePagesAppend(a + [x], b);
    NodePagesAppend(a, [x]);
    NodePagesAppend(a, b);
    assert NodePages([x]) == x.pages by {
      assert [x][1..] == [];
    }
  }

  lemma {:induction false} RemovePages(ns: seq<Node>, j: nat)
    requires j < |ns|
    ensures NodePages(ns) == NodePages(Remove(ns, j)) + ns[j].pages
  {
    var a, x, b := ns[..j], ns[j], ns[j + 1..];
    assert ns == (a + [x]) + b;
    NodePagesMiddle(a, x, b);
    assert Remove(ns, j) == a + b;
  }

  lemma {:induction false} RemoveKeeps(ns: seq<Node>, j: nat)
    requires j < |ns|
    ensures Descending(ns) ==> Descending(Remove(ns, j))
    ensures NodePages(ns) == NodePages(Remove(ns, j)) + ns[j].pages
  {
    if Descending(ns) {
      RemoveDescending(ns, j);
    }
    RemovePages(ns, j);
  }

  /**
   * `LlistNode::remove` on a node of the list as the source uses it: the
   * node is unlinked and isolated, but the head pointer is never moved, so
   * removing the head leaves it as a one-node list of its own and drops
   * every other node.
   */
  function RemoveAsWritten(ns: seq<Node>, j: nat): seq<Node>
    requires j < |ns|
  {
    if j == 0 then [ns[0]] else ns[..j] + ns[j + 1..]
  }

  /** Claiming the head of a two-node list as written keeps the claimed node listed and loses the other. */
  lemma RemoveAsWrittenLosesList()
    ensures var ns := [Node(0x1000, 0x1000, 10), Node(0x20000, 0x20000, 3)];
      && RemoveAsWritten(ns, 0) == [ns[0]]
      && NodePages(RemoveAsWritten(ns, 0)) == 10
      && Remove(ns, 0) == [ns[1]]
  {
    var ns := [Node(0x1000, 0x1000, 10), Node(0x20000, 0x20000, 3)];
    assert ns[..0] + ns[1..] == [ns[1]];
    assert NodePages([ns[0]]) == 10 by {
      assert [ns[0]][1..] == [];
    }
  }

  /** The handle of a whole node. */
  function Whole(n: Node): Handle {
    Handle(n.addr, n.phys, n.pages)
  }

  /**
   * Claiming 8 pages from the one-node list 4, as written: the first test
   * takes the smallest node, which is the head, and removing it leaves the
   * head pointing at it, so the claimed node stays listed; the corrected
   * removal empties the list.
   */
  lemma RemoveAsWrittenKeepsClaimed()
    ensures var ns := [Node(0x1000, 0x1000, 4)];
      && ClaimSmallestAsWritten(ns, 8) == Some(Whole(ns[0]))
      && RemoveAsWritten(ns, 0) == ns
      && Remove(ns, 0) == []
  {
  }

  /** Where `claim`'s walk stops: the first node whose successor is not larger than the request, or the last. */
  function Stop(ns: seq<Node>, pages: nat, i: nat): (j: nat)
    requires i < |ns|
    ensures i <= j < |ns|
    ensures forall k :: i < k <= j ==> ns[k].pages > pages
    ensures j + 1 < |ns| ==> ns[j + 1].pages <= pages
    decreases |ns| - i
  {
    if i + 1 == |ns| || ns[i + 1].pages <= pages then i else Stop(ns, pages, i + 1)
  }

  /**
   * `chomp_on_largest`: the last `pageCount` pages of the head are claimed
   * (an underflow when the head is smaller panics), and the head, now
   * smaller, goes back to its place in the order.
   */
  function Chomp(ns: seq<Node>, pageCount: nat): Result<(Handle, seq<Node>)>
    requires |ns| > 0
  {
    var head := ns[0];
    if head.pages < pageCount then Panic
    else
      var rest := head.pages - pageCount;
      var h := Handle(head.addr + rest * PAGE_SIZE, head.phys + rest * PAGE_SIZE, pageCount);
      Ok((h, Insert(ns[1..], head.(pages := rest))))
  }

  /** The claimed pages are the tail of the old head, right after what it keeps. */
  lemma ChompTail(ns: seq<Node>, pageCount: nat)
    requires |ns| > 0 && Chomp(ns, pageCount).Ok?
    ensures var h := Chomp(ns, pageCount).value.0; var head := ns[0];
      && h.pageCount == pageCount
      && h.physBase == head.phys + (head.pages - pageCount) * PAGE_SIZE
      && h.physBase + h.pageCount * PAGE_SIZE == head.phys + head.pages * PAGE_SIZE
      && h.virtBase - head.addr == h.physBase - head.phys
  {
    var head := ns[0];
    var rest := head.pages - pageCount;
    assert rest * PAGE_SIZE + pageCount * PAGE_SIZE == head.pages * PAGE_SIZE;
  }

  /** Chomping keeps the order and moves `pageCount` pages from the list to the handle. */
  lemma {:induction false} ChompKeeps(ns: seq<Node>, pageCount: nat)
    requires |ns| > 0 && Chomp(ns, pageCount).Ok?
    ensures Descending(ns) ==> Descending(Chomp(ns, pageCount).value.1)
    ensures NodePages(Chomp(ns, pageCount).value.1) + pageCount == NodePages(ns)
  {
    var head := ns[0];
    var shrunk := head.(pages := head.pages - pageCount);
    assert Chomp(ns, pageCount).value.1 == Insert(ns[1..], shrunk);
    if Descending(ns) {
      DescendingTail(ns);
      InsertDescending(ns[1..], shrunk);
    }
    InsertPages(ns[1..], shrunk);
    assert NodePages(ns) == head.pages + NodePages(ns[1..]);
  }

  /**
   * The start of the chomped block as written: the remaining page count is
   * added to the byte address of the region.
   */
  function ChompBaseAsWritten(head: Node, pageCount: nat): int {
    head.phys + (head.pages - pageCount)
  }

  /**
   * Chomping 16 pages off a 256-page region at 1 MiB: as written the block
   * starts 240 bytes in, which is not on a page boundary and lies inside
   * the pages the region keeps.
   */
  lemma ChompBaseAsWrittenOverlaps()
    ensures var head := Node(0x10_0000, 0x10_0000, 256);
      var b := ChompBaseAsWritten(head, 16);
      && b == 0x10_0000 + 240
      && b % PAGE_SIZE != 0
      && head.phys <= b < head.phys + 240 * PAGE_SIZE
      && Chomp([head], 16).value.0.physBase == head.phys + 240 * PAGE_SIZE
  {
  }

  /**
   * The head-and-next swap of `chomp_on_largest` as written, on the `next`
   * and `prev` maps of the ring: four pointer stores, in source order.
   */
  function SwapAsWritten(next: map<int, int>, prev: map<int, int>, head: int): (r: (map<int, int>, map<int, int>))
    requires head in next && head in prev && next[head] in next && next[head] in prev
    requires next[next[head]] in prev && prev[head] in next
  {
    var n := next[head];
    var prev1 := prev[next[n] := head];
    var next1 := next[prev1[head] := n];
    var prev2 := prev1[n := prev1[head]];
    var prev3 := prev2[head := next1[n]];
    (next1, prev3)
  }

  /**
   * On the ring 0 -> 1 -> 2 -> 0 the swap leaves node 2's `next` at 1 and
   * node 0's `prev` at 2: the links no longer agree, and walking forward
   * from the head never comes back to it.
   */
  lemma SwapAsWrittenBreaksRing()
    ensures var next := map[0 := 1, 1 := 2, 2 := 0];
      var prev := map[0 := 2, 1 := 0, 2 := 1];
      var (n, p) := SwapAsWritten(next, prev, 0);
      && n == map[0 := 1, 1 := 2, 2 := 1]
      && p == map[0 := 2, 1 := 2, 2 := 0]
      && n[p[0]] != 0
  {
  }

  /**
   * The guard of the swap as written: the shrunk head is still larger than
   * its successor, which on a descending list is when no swap is needed.
   */
  predicate SwapGuardAsWritten(ns: seq<Node>, pageCount: nat)
    requires |ns| > 1 && ns[0].pages >= pageCount
  {
    ns[0].pages - pageCount > ns[1].pages
  }

  /** The list as written when the guard does not fire: the head is shrunk where it stands. */
  function ChompInPlaceAsWritten(ns: seq<Node>, pageCount: nat): (r: seq<Node>)
    requires |ns| > 0 && ns[0].pages >= pageCount
    ensures |r| == |ns| && r[1..] == ns[1..] && r[0].pages == ns[0].pages - pageCount
  {
    [ns[0].(pages := ns[0].pages - pageCount)] + ns[1..]
  }

  /**
   * The guard is inverted. Chomping 5 pages off the list 10, 8: the head
   * becomes 5, `5 > 8` fails, no swap is made, and the list is left as
   * 5, 8, out of order; the corrected `Chomp` re-inserts the head and gives
   * 8, 5. Chomping 5 off 10, 3 leaves 5, 3 in order, yet the guard fires
   * and the four stores of `SwapAsWritten` run.
   */
  lemma SwapGuardAsWrittenInverted()
    ensures var ns := [Node(0x10_0000, 0x10_0000, 10), Node(0x20_0000, 0x20_0000, 8)];
      && Descending(ns) && !SwapGuardAsWritten(ns, 5)
      && !Descending(ChompInPlaceAsWritten(ns, 5))
      && Chomp(ns, 5).value.1 == [ns[1], ns[0].(pages := 5)] && Descending(Chomp(ns, 5).value.1)
    ensures var ms := [Node(0x10_0000, 0x10_0000, 10), Node(0x20_0000, 0x20_0000, 3)];
      && SwapGuardAsWritten(ms, 5) && Descending(ChompInPlaceAsWritten(ms, 5))
  {
    var ns := [Node(0x10_0000, 0x10_0000, 10), Node(0x20_0000, 0x20_0000, 8)];
    var c := ChompInPlaceAsWritten(ns, 5);
    assert c[0].pages == 5 && c[1].pages == 8;
    assert ns[1..] == [ns[1]];
    var ms := [Node(0x10_0000, 0x10_0000, 10), Node(0x20_0000, 0x20_0000, 3)];
    var d := ChompInPlaceAsWritten(ms, 5);
    assert d == [ms[0].(pages := 5), ms[1]];
  }

  /**
   * `claim(page_count)` on the list `ns`: the handle and the new list, or
   * `Panic`. A zero request panics (the `assert!`), and so does a null head.
   * When even the smallest region is larger than the request, that region
   * is taken whole if it is at most a quarter larger, and otherwise pages
   * are chomped off the head. Otherwise the walk stops at the first node
   * whose successor is not larger than the request: that successor is taken
   * when it fits exactly; else the current node is taken whole when it is at
   * least the request and at most a quarter larger, pages are chomped off
   * the head when it is larger still, and the request panics when the
   * current node is smaller. Taking a current node of exactly the requested
   * size corrects the walk as written (`ClaimWalkAsWritten`), which only
   * takes it when it is strictly larger.
   */
  function ClaimSpec(ns: seq<Node>, pageCount: nat): Result<(Handle, seq<Node>)> {
    if pageCount == 0 || |ns| == 0 then Panic
    else
      var maxAccept := pageCount + pageCount / 4;
      var last := |ns| - 1;
      if ns[last].pages > pageCount then
        if ns[last].pages <= maxAccept then Ok((Whole(ns[last]), Remove(ns, last)))
        else Chomp(ns, pageCount)
      else
        var j := Stop(ns, pageCount, 0);
        if j + 1 < |ns| && ns[j + 1].pages == pageCount then Ok((Whole(ns[j + 1]), Remove(ns, j + 1)))
        else if ns[j].pages > maxAccept then Chomp(ns, pageCount)
        else if ns[j].pages >= pageCount then Ok((Whole(ns[j]), Remove(ns, j)))
        else Panic
  }

  /** On an ordered list, `claim` panics exactly for a zero request, an empty list, or a head smaller than the request. */
  lemma ClaimPanics(ns: seq<Node>, pageCount: nat)
    requires Descending(ns)
    ensures ClaimSpec(ns, pageCount).Panic? <==> pageCount == 0 || |ns| == 0 || ns[0].pages < pageCount
  {
    if pageCount > 0 && |ns| > 0 {
      var last := |ns| - 1;
      var j := Stop(ns, pageCount, 0);
      assert ns[last].pages <= ns[0].pages;
      assert ns[j].pages <= ns[0].pages;
      if j + 1 < |ns| {
        assert ns[j + 1].pages <= ns[0].pages;
      }
    }
  }

  /** A claim gets at least the pages asked for, and at most a quarter more. */
  lemma ClaimFits(ns: seq<Node>, pageCount: nat)
    requires ClaimSpec(ns, pageCount).Ok?
    ensures var h := ClaimSpec(ns, pageCount).value.0;
      pageCount <= h.pageCount <= pageCount + pageCount / 4
  {
  }

  /** When a region of exactly the requested size is listed, the claim gets exactly that many pages. */
  lemma ClaimExact(ns: seq<Node>, pageCount: nat, k: nat)
    requires Descending(ns) && pageCount > 0 && k < |ns| && ns[k].pages == pageCount
    ensures ClaimSpec(ns, pageCount).Ok? && ClaimSpec(ns, pageCount).value.0.pageCount == pageCount
  {
    var last := |ns| - 1;
    assert ns[last].pages <= ns[k].pages;
    var j := Stop(ns, pageCount, 0);
    assert ns[j].pages <= ns[0].pages;
    if k > j {
      assert ns[j + 1].pages >= ns[k].pages;
    }
  }

  /** A claim keeps the order and moves the handle's pages out of the list. */
  lemma {:induction false} ClaimKeeps(ns: seq<Node>, pageCount: nat)
    requires ClaimSpec(ns, pageCount).Ok?
    ensures Descending(ns) ==> Descending(ClaimSpec(ns, pageCount).value.1)
    ensures NodePages(ClaimSpec(ns, pageCount).value.1) + ClaimSpec(ns, pageCount).value.0.pageCount == NodePages(ns)
  {
    var last := |ns| - 1;
    var maxAccept := pageCount + pageCount / 4;
    if ns[last].pages > pageCount {
      if ns[last].pages <= maxAccept {
        RemoveKeeps(ns, last);
      } else {
        ChompKeeps(ns, pageCount);
      }
    } else {
      var j := Stop(ns, pageCount, 0);
      if j + 1 < |ns| && ns[j + 1].pages == pageCount {
        RemoveKeeps(ns, j + 1);
      } else if ns[j].pages > maxAccept {
        ChompKeeps(ns, pageCount);
      } else {
        RemoveKeeps(ns, j);
      }
    }
  }

  /**
   * The first test of `claim` as written: when the smallest region is
   * SMALLER than the request, it is removed and returned whole (it is
   * always within the quarter margin, being smaller).
   */
  function ClaimSmallestAsWritten(ns: seq<Node>, pageCount: nat): Option<Handle>
    requires |ns| > 0
  {
    var smallest := ns[|ns| - 1];
    if smallest.pages < pageCount && smallest.pages <= pageCount + pageCount / 4 then Some(Whole(smallest)) else None
  }

  /** Claiming 8 pages from a list holding one 4-page region: as written, the 4 pages are handed out. */
  lemma ClaimSmallestAsWrittenTooSmall()
    ensures var ns := [Node(0x1000, 0x1000, 4)];
      && ClaimSmallestAsWritten(ns, 8) == Some(Handle(0x1000, 0x1000, 4))
      && ClaimSpec(ns, 8).Panic?
  {
    var ns := [Node(0x1000, 0x1000, 4)];
    assert Stop(ns, 8, 0) == 0;
  }

  /**
   * The walk of `claim` after its first test, as written. It stops at the
   * first node whose successor is not larger than the request, the
   * successor of the last node being the head. That successor is taken
   * when it fits exactly; otherwise the current node is chomped when it is
   * more than a quarter larger, taken whole when it is STRICTLY larger, and
   * the request panics when it is not. So a head of exactly the requested
   * size is never taken while a smaller node follows it.
   */
  function ClaimWalkAsWritten(ns: seq<Node>, pageCount: nat): Result<(Handle, seq<Node>)>
    requires |ns| > 0 && ns[|ns| - 1].pages <= pageCount
  {
    var maxAccept := pageCount + pageCount / 4;
    var j := Stop(ns, pageCount, 0);
    var k := if j + 1 < |ns| then j + 1 else 0;
    if ns[k].pages == pageCount then Ok((Whole(ns[k]), Remove(ns, k)))
    else if ns[j].pages > maxAccept then Chomp(ns, pageCount)
    else if ns[j].pages > pageCount then Ok((Whole(ns[j]), Remove(ns, j)))
    else Panic
  }

  /**
   * Claiming 8 pages from the list 8, 4: as written the walk stops at the
   * head, whose successor is smaller, and panics, although the head fits
   * exactly; the corrected claim takes the head. The flaw is latent: as
   * written the first test answers this input before the walk, handing out
   * the 4-page region (ClaimSmallestAsWritten).
   */
  lemma ClaimWalkAsWrittenMissesHead()
    ensures var ns := [Node(0x1000, 0x1000, 8), Node(0x20000, 0x20000, 4)];
      && Descending(ns)
      && ClaimSmallestAsWritten(ns, 8) == Some(Whole(ns[1]))
      && ClaimWalkAsWritten(ns, 8) == Panic
      && ClaimSpec(ns, 8) == Ok((Whole(ns[0]), [ns[1]]))
  {
    var ns := [Node(0x1000, 0x1000, 8), Node(0x20000, 0x20000, 4)];
    assert Stop(ns, 8, 0) == 0;
    assert Remove(ns, 0) == [ns[1]];
  }

  /** The node after node `i` in the ring: the head follows the last node. */
  function RingNext(ns: seq<Node>, i: nat): (k: nat)
    requires i < |ns|
    ensures k < |ns|
  {
    if i + 1 < |ns| then i + 1 else 0
  }

  /** The node the walk of `claim` is at after `n` rounds that each moved on. */
  function WalkAfter(ns: seq<Node>, n: nat): (i: nat)
    requires |ns| > 0
    ensures i < |ns|
  {
    if n == 0 then 0 else RingNext(ns, WalkAfter(ns, n - 1))
  }

  /**
   * As written, `claim` of fewer pages than every listed region never
   * returns: the first test only handles a smallest region SMALLER than
   * the request, and every round of the walk then meets a successor larger
   * than the request, so it moves on round the ring for ever, e.g. for 2
   * pages from the list 4. The corrected claim answers such a request.
   */
  lemma ClaimAsWrittenHangs(ns: seq<Node>, pageCount: nat)
    requires Descending(ns) && |ns| > 0 && 0 < pageCount < ns[|ns| - 1].pages
    ensures ClaimSmallestAsWritten(ns, pageCount) == None
    ensures forall n: nat :: ns[RingNext(ns, WalkAfter(ns, n))].pages > pageCount
    ensures ClaimSpec(ns, pageCount).Ok?
  {
    forall n: nat
      ensures ns[RingNext(ns, WalkAfter(ns, n))].pages > pageCount
    {
      var k := RingNext(ns, WalkAfter(ns, n));
      assert ns[k].pages >= ns[|ns| - 1].pages;
    }
  }

  /**
   * `reclaim(handle)`: a block that starts right where the head
   * ends is merged into the head; any other block is inserted as a node of
   * its own. A null head panics.
   */
  function ReclaimSpec(ns: seq<Node>, h: Handle): Result<seq<Node>> {
    if |ns| == 0 then Panic
    else if ns[0].addr + ns[0].pages * PAGE_SIZE == h.virtBase then Ok([ns[0].(pages := ns[0].pages + h.pageCount)] + ns[1..])
    else Ok(Insert(ns, Node(h.virtBase, h.physBase, h.pageCount)))
  }

  /** Reclaiming keeps the order and gives the handle's pages back to the list. */
  lemma {:induction false} ReclaimKeeps(ns: seq<Node>, h: Handle)
    requires ReclaimSpec(ns, h).Ok?
    ensures Descending(ns) ==> Descending(ReclaimSpec(ns, h).value)
    ensures NodePages(ReclaimSpec(ns, h).value) == NodePages(ns) + h.pageCount
  {
    var n := Node(h.virtBase, h.physBase, h.pageCount);
    if ns[0].addr + ns[0].pages * PAGE_SIZE == h.virtBase {
      var r := ReclaimSpec(ns, h).value;
      assert r[1..] == ns[1..];
      if Descending(ns) {
        forall a, b | 0 <= a < b < |r|
          ensures r[a].pages >= r[b].pages
        {
          assert r[b] == ns[b];
          if a > 0 {
            assert r[a] == ns[a];
          }
        }
      }
    } else {
      InsertPages(ns, n);
      if Descending(ns) {
        InsertDescending(ns, n);
      }
    }
  }

  /**
   * A block chomped off the head that keeps its place as the head merges
   * back into it on reclaim: the list is what it was before the claim.
   */
  lemma ChompThenReclaim(ns: seq<Node>, pageCount: nat)
    requires |ns| > 0 && Chomp(ns, pageCount).Ok?
    requires |ns| == 1 || ns[1].pages <= ns[0].pages - pageCount
    ensures var (h, after) := Chomp(ns, pageCount).value;
      ReclaimSpec(after, h) == Ok(ns)
  {
    var head := ns[0];
    var rest := head.pages - pageCount;
    var shrunk := head.(pages := rest);
    assert InsertAt(ns[1..], rest, 0) == 0;
    assert Insert(ns[1..], shrunk) == [shrunk] + ns[1..];
    assert ([shrunk] + ns[1..])[1..] == ns[1..];
    assert [shrunk.(pages := rest + pageCount)] + ns[1..] == ns;
  }

  /**
   * `reclaim` as written: after merging the block into the head it goes on
   * to insert the block as a node of its own (with the as-written walk).
   */
  function ReclaimAsWritten(ns: seq<Node>, h: Handle): seq<Node>
    requires |ns| > 0
  {
    var merged := if ns[0].addr + ns[0].pages * PAGE_SIZE == h.virtBase then [ns[0].(pages := ns[0].pages + h.pageCount)] + ns[1..] else ns;
    InsertAsWritten(merged, Node(h.virtBase, h.physBase, h.pageCount))
  }

  /** Reclaiming one page right after a two-page head: as written, the list ends up with four pages, not three. */
  lemma ReclaimAsWrittenCountsTwice()
    ensures var ns := [Node(0x1000, 0x1000, 2)];
      var h := Handle(0x3000, 0x3000, 1);
      && NodePages(ReclaimAsWritten(ns, h)) == 4
      && ReclaimSpec(ns, h).Ok? && NodePages(ReclaimSpec(ns, h).value) == 3
  {
    var ns := [Node(0x1000, 0x1000, 2)];
    var h := Handle(0x3000, 0x3000, 1);
    var merged := [Node(0x1000, 0x1000, 3)];
    assert ns[1..] == [];
    assert InsertAtAsWritten(merged, 1, 0) == 1;
    assert merged[..1] == merged && merged[1..] == [];
    var w := ReclaimAsWritten(ns, h);
    assert w == [Node(0x1000, 0x1000, 3), Node(0x3000, 0x3000, 1)];
    assert w[1..] == [Node(0x3000, 0x3000, 1)] && w[1..][1..] == [];
    assert NodePages(w[1..]) == 1;
    assert ReclaimSpec(ns, h).value == merged;
    assert merged[1..] == [];
  }

  /** `a.wrapping_add(b as u64)` for a signed `b`. */
  function WrappingAdd(a: nat, b: int): u64 {
    (a + b) % U64_LIMIT
  }

  /** Every descriptor's virtual start set to its physical start plus `offset`, as `new` does. */
  function Relocated(mmap: seq<MemoryDescriptor>, offset: isize): (r: seq<MemoryDescriptor>)
    ensures |r| == |mmap|
    ensures forall k :: 0 <= k < |mmap| ==>
      r[k] == mmap[k].(virtStart := WrappingAdd(mmap[k].physStart, offset))
  {
    seq(|mmap|, k requires 0 <= k < |mmap| => mmap[k].(virtStart := WrappingAdd(mmap[k].physStart, offset)))
  }

  /** Every descriptor's virtual start moved by `offset`, as `fix` does. */
  function Shifted(mmap: seq<MemoryDescriptor>, offset: isize): (r: seq<MemoryDescriptor>)
    ensures |r| == |mmap|
    ensures forall k :: 0 <= k < |mmap| ==>
      r[k] == mmap[k].(virtStart := WrappingAdd(mmap[k].virtStart, offset))
  {
    seq(|mmap|, k requires 0 <= k < |mmap| => mmap[k].(virtStart := WrappingAdd(mmap[k].virtStart, offset)))
  }

  /** Every node's address moved by `offset`, as `fix` does to the list pointers. */
  function Moved(ns: seq<Node>, offset: isize): (r: seq<Node>)
    ensures |r| == |ns|
    ensures forall k :: 0 <= k < |ns| ==> r[k] == ns[k].(addr := WrappingAdd(ns[k].addr, offset))
  {
    seq(|ns|, k requires 0 <= k < |ns| => ns[k].(addr := WrappingAdd(ns[k].addr, offset)))
  }

  /** Moving the list changes no page count, so the order and the page total stay. */
  lemma {:induction false} MovedKeeps(ns: seq<Node>, offset: isize)
    ensures Descending(ns) ==> Descending(Moved(ns, offset))
    ensures NodePages(Moved(ns, offset)) == NodePages(ns)
  {
    if |ns| > 0 {
      MovedKeeps(ns[1..], offset);
      assert Moved(ns, offset)[1..] == Moved(ns[1..], offset);
    }
  }

  /** Moving by `offset` and then back by `-offset` restores every address below 2^64. */
  lemma MovedBack(ns: seq<Node>, offset: isize)
    requires forall k :: 0 <= k < |ns| ==> ns[k].addr < U64_LIMIT
    requires offset > -0x8000_0000_0000_0000
    ensures Moved(Moved(ns, offset), -offset) == ns
  {
    var m := Moved(Moved(ns, offset), -offset);
    forall k | 0 <= k < |ns|
      ensures m[k] == ns[k]
    {
      var a := ns[k].addr;
      var q := (a + offset) / U64_LIMIT;
      assert (a + offset) % U64_LIMIT == a + offset - q * U64_LIMIT;
      assert (a + offset - q * U64_LIMIT - offset) == a - q * U64_LIMIT;
      assert (a - q * U64_LIMIT) % U64_LIMIT == a;
    }
  }

  /** `PhysMemHandle::fix`: the virtual base becomes the physical base plus `offset`. */
  function HandleFixed(h: Handle, offset: isize): (r: Handle)
    ensures r.physBase == h.physBase && r.pageCount == h.pageCount
    ensures r.virtBase == WrappingAdd(h.physBase, offset)
  {
    h.(virtBase := WrappingAdd(h.physBase, offset))
  }

  /** The node for a region: it lives at the region's virtual base. */
  function NodeOf(r: Region): Node {
    Node(r.virt, r.phys, r.pages)
  }

  /** The list `new` builds from the regions in the order they are yielded. */
  function BuildList(rs: seq<Region>): seq<Node> {
    if |rs| == 0 then [] else Insert(BuildList(rs[..|rs| - 1]), NodeOf(rs[|rs| - 1]))
  }

  lemma SeqShift<T>(a: seq<T>, x: T, b: seq<T>)
    ensures a + ([x] + b) == (a + [x]) + b
  {
  }

  lemma BuildListStep(rs: seq<Region>, r: Region)
    ensures BuildList(rs + [r]) == Insert(BuildList(rs), NodeOf(r))
  {
    assert (rs + [r])[..|rs|] == rs;
  }

  /** The list `new` builds is in descending order and holds the pages of all the regions. */
  lemma {:induction false} BuildListKeeps(rs: seq<Region>)
    ensures Descending(BuildList(rs))
    ensures NodePages(BuildList(rs)) == RegionPages(rs)
  {
    if |rs| > 0 {
      var init := rs[..|rs| - 1];
      BuildListKeeps(init);
      InsertDescending(BuildList(init), NodeOf(rs[|rs| - 1]));
      InsertPages(BuildList(init), NodeOf(rs[|rs| - 1]));
      RegionPagesLast(rs);
    }
  }

  lemma {:induction false} RegionPagesLast(rs: seq<Region>)
    requires |rs| > 0
    ensures RegionPages(rs) == RegionPages(rs[..|rs| - 1]) + rs[|rs| - 1].pages
  {
    if |rs| > 1 {
      assert rs[1..][..|rs| - 2] == rs[..|rs| - 1][1..];
      RegionPagesLast(rs[1..]);
    } else {
      assert rs[..0] == [];
      assert rs[1..] == [];
    }
  }

  /** Relocating the map keeps every type and page count. */
  lemma {:induction false} RelocatedPages(mmap: seq<MemoryDescriptor>, offset: isize)
    ensures AvailablePages(Relocated(mmap, offset)) == AvailablePages(mmap)
    ensures Pages(Relocated(mmap, offset)) == Pages(mmap)
  {
    if |mmap| > 0 {
      RelocatedPages(mmap[1..], offset);
      assert Relocated(mmap, offset)[1..] == Relocated(mmap[1..], offset);
    }
  }

  /**
   * The list `new` starts with is in descending order and holds exactly the
   * available pages of the memory map.
   */
  lemma NewList(mmap: seq<MemoryDescriptor>, offset: isize)
    ensures var ns := BuildList(AccAll(Relocated(mmap, offset), 0));
      Descending(ns) && NodePages(ns) == AvailablePages(mmap)
  {
    var m := Relocated(mmap, offset);
    BuildListKeeps(AccAll(m, 0));
    AccAllPages(m, 0);
    assert m[0..] == m;
    RelocatedPages(mmap, offset);
  }

  /** The first loop of `new`: relocate every descriptor and total the page counts. */
  method Relocate(mmap: seq<MemoryDescriptor>, offset: isize) returns (m: seq<MemoryDescriptor>, total: nat)
    ensures m == Relocated(mmap, offset) && total == Pages(mmap)
  {
    m := mmap;
    total := 0;
    var k := 0;
    while k < |m|
      invariant 0 <= k <= |m| && |m| == |mmap|
      invariant m[..k] == Relocated(mmap, offset)[..k] && m[k..] == mmap[k..]
      invariant total + Pages(mmap[k..]) == Pages(mmap)
    {
      assert mmap[k..][1..] == mmap[k + 1..];
      total := total + m[k].pageCount;
      m := m[k := m[k].(virtStart := WrappingAdd(m[k].physStart, offset))];
      k := k + 1;
    }
    assert m == Relocated(mmap, offset);
  }

  class PhysMemManager {
    var physMemSize: nat
    var mmap: seq<MemoryDescriptor>
    /** The list, read forward from `llist_head`. */
    var regions: seq<Node>

    /**
     * `new`: the virtual start of every descriptor becomes its physical start
     * plus `offset`, the page counts of all descriptors are totalled, and
     * every region `AvlMemAcc` yields becomes a node inserted at its place.
     */
    constructor (mmap: seq<MemoryDescriptor>, offset: isize)
      ensures this.mmap == Relocated(mmap, offset)
      ensures physMemSize == Pages(mmap)
      ensures regions == BuildList(AccAll(Relocated(mmap, offset), 0))
    {
      var m, total := Relocate(mmap, offset);
      this.mmap := m;
      physMemSize := total;
      regions := [];
      new;
      BuildRegions();
    }

    /** The second half of `new`: every region `AvlMemAcc` yields is inserted at its place. */
    method BuildRegions()
      requires regions == []
      modifies this
      ensures regions == BuildList(AccAll(mmap, 0))
      ensures mmap == old(mmap) && physMemSize == old(physMemSize)
    {
      var acc := new AvlMemAcc(mmap);
      ghost var yielded: seq<Region> := [];
      while true
        invariant acc.mmap == mmap == old(mmap) && acc.pos <= |mmap| && physMemSize == old(physMemSize)
        invariant yielded + AccAll(mmap, acc.pos) == AccAll(mmap, 0)
        invariant regions == BuildList(yielded)
        decreases |mmap| - acc.pos
      {
        ghost var pos := acc.pos;
        var r := acc.Next();
        AccAllStep(mmap, pos);
        if r.None? {
          assert yielded + [] == yielded;
          break;
        }
        InsertNode(NodeOf(r.value));
        BuildListStep(yielded, r.value);
        SeqShift(yielded, r.value, AccAll(mmap, acc.pos));
        yielded := yielded + [r.value];
      }
    }

    /** The insertion walk: on past every larger node, then in before the first that is not. */
    method InsertNode(n: Node)
      modifies this
      ensures regions == Insert(old(regions), n)
      ensures mmap == old(mmap) && physMemSize == old(physMemSize)
    {
      var i := 0;
      while i < |regions| && regions[i].pages > n.pages
        invariant 0 <= i <= |regions|
        invariant InsertAt(regions, n.pages, 0) == InsertAt(regions, n.pages, i)
      {
        i := i + 1;
      }
      regions := regions[..i] + [n] + regions[i..];
    }

    /** `fix`: every virtual address moves by `offset`; an empty list is a null dereference. */
    method Fix(offset: isize) returns (ok: bool)
      modifies this
      ensures mmap == Shifted(old(mmap), offset) && physMemSize == old(physMemSize)
      ensures ok <==> |old(regions)| > 0
      ensures ok ==> regions == Moved(old(regions), offset)
    {
      var m := mmap;
      var k := 0;
      while k < |m|
        invariant 0 <= k <= |m| && |m| == |old(mmap)|
        invariant m[..k] == Shifted(old(mmap), offset)[..k] && m[k..] == old(mmap)[k..]
      {
        m := m[k := m[k].(virtStart := WrappingAdd(m[k].virtStart, offset))];
        k := k + 1;
      }
      assert m == Shifted(old(mmap), offset);
      mmap := m;
      if |regions| == 0 {
        return false;
      }
      var ns := regions;
      var i := 0;
      while i < |ns|
        invariant 0 <= i <= |ns| && |ns| == |regions|
        invariant ns[..i] == Moved(regions, offset)[..i] && ns[i..] == regions[i..]
      {
        ns := ns[i := ns[i].(addr := WrappingAdd(ns[i].addr, offset))];
        i := i + 1;
      }
      assert ns == Moved(regions, offset);
      regions := ns;
      ok := true;
    }

    /** `chomp_on_largest`. */
    method ChompOnLargest(pageCount: nat) returns (r: Result<Handle>)
      requires |regions| > 0
      modifies this
      ensures r.Ok? <==> Chomp(old(regions), pageCount).Ok?
      ensures r.Ok? ==> (r.value, regions) == Chomp(old(regions), pageCount).value
      ensures r.Panic? ==> regions == old(regions)
      ensures mmap == old(mmap) && physMemSize == old(physMemSize)
    {
      var head := regions[0];
      if head.pages < pageCount {
        return Panic;
      }
      var rest := head.pages - pageCount;
      r := Ok(Handle(head.addr + rest * PAGE_SIZE, head.phys + rest * PAGE_SIZE, pageCount));
      regions := regions[1..];
      InsertNode(head.(pages := rest));
    }

    /** `claim(page_count)`. */
    method Claim(pageCount: nat) returns (r: Result<Handle>)
      modifies this
      ensures r.Ok? <==> ClaimSpec(old(regions), pageCount).Ok?
      ensures r.Ok? ==> (r.value, regions) == ClaimSpec(old(regions), pageCount).value
      ensures r.Panic? ==> regions == old(regions)
      ensures mmap == old(mmap) && physMemSize == old(physMemSize)
    {
      ghost var spec := ClaimSpec(regions, pageCount);
      if pageCount == 0 || |regions| == 0 {
        return Panic;
      }
      var maxAccept := pageCount + pageCount / 4;
      var last := |regions| - 1;
      var smallest := regions[last];
      if smallest.pages > pageCount {
        if smallest.pages <= maxAccept {
          assert spec == Ok((Whole(smallest), Remove(regions, last)));
          regions := Remove(regions, last);
          return Ok(Whole(smallest));
        }
        assert spec == Chomp(regions, pageCount);
        r := ChompOnLargest(pageCount);
        return;
      }
      var i := 0;
      while i + 1 < |regions| && regions[i + 1].pages > pageCount
        invariant 0 <= i < |regions|
        invariant Stop(regions, pageCount, 0) == Stop(regions, pageCount, i)
      {
        i := i + 1;
      }
      if i + 1 < |regions| && regions[i + 1].pages == pageCount {
        var taken := regions[i + 1];
        assert spec == Ok((Whole(taken), Remove(regions, i + 1)));
        regions := Remove(regions, i + 1);
        return Ok(Whole(taken));
      }
      var curr := regions[i];
      if curr.pages > maxAccept {
        assert spec == Chomp(regions, pageCount);
        r := ChompOnLargest(pageCount);
      } else if curr.pages >= pageCount {
        assert spec == Ok((Whole(curr), Remove(regions, i)));
        regions := Remove(regions, i);
        r := Ok(Whole(curr));
      } else {
        assert spec == Panic;
        r := Panic;
      }
    }

    /** `reclaim(mem_handle)`. */
    method Reclaim(h: Handle) returns (ok: bool)
      modifies this
      ensures ok <==> ReclaimSpec(old(regions), h).Ok?
      ensures ok ==> regions == ReclaimSpec(old(regions), h).value
      ensures !ok ==> regions == old(regions)
      ensures mmap == old(mmap) && physMemSize == old(physMemSize)
    {
      if |regions| == 0 {
        return false;
      }
      var head := regions[0];
      if head.addr + head.pages * PAGE_SIZE == h.virtBase {
        regions := [head.(pages := head.pages + h.pageCount)] + regions[1..];
      } else {
        InsertNode(Node(h.virtBase, h.physBase, h.pageCount));
      }
      ok := true;
    }
  }
}
