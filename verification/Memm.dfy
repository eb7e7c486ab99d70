/**
 * The kernel's memory-management helpers (kernel/src/memm/mod.rs): the
 * physical/virtual offset conversions, the PAT slot of each memory type,
 * the span `Mapper::map` rounds a request to, and the walk `map_offset`
 * makes over the page-table levels. Addresses are integers: a `usize` in
 * [0, 2^64), a pointer compared as `isize` in [-2^63, 2^63). Overflow of
 * checked arithmetic panics; `wrapping_add` wraps explicitly.
 */
module Memm {
  import opened Wrappers
  import Paging
  import opened Arith

  const USIZE_LIMIT: int := 0x1_0000_0000_0000_0000
  const ISIZE_LIMIT: int := 0x8000_0000_0000_0000

  type usize = x: int | 0 <= x < USIZE_LIMIT
  type isize = x: int | -ISIZE_LIMIT <= x < ISIZE_LIMIT

  /** The PML4 slot through which physical memory is mapped at an offset. */
  const OFFSET_IDX: nat := 0x100
  /** Physical memory appears at this (negative) offset in the higher half. */
  const PHYS_LADDR_OFFSET: isize := -0x8000_0000_0000

  const PTE_SIZE: nat := 0x1000
  const PDPTE_SIZE: nat := 0x4000_0000

  const KRNL_BOOT_BASE: usize := USIZE_LIMIT - PDPTE_SIZE
  const KRNL_STACK_ACME: usize := USIZE_LIMIT - PDPTE_SIZE
  const KRNL_STACK_SIZE: usize := 4 * 1024 * 1024 - PTE_SIZE

  /** `usize as isize`: two's-complement reinterpretation. */
  function AsIsize(u: usize): (i: isize)
    ensures i == u || i == u - USIZE_LIMIT
  {
    if u < ISIZE_LIMIT then u else u - USIZE_LIMIT
  }

  /** `isize as usize`, and any wrapping result: the value modulo 2^64. */
  function AsUsize(i: int): (u: usize)
    ensures (u - i) % USIZE_LIMIT == 0
  {
    i % USIZE_LIMIT
  }

  // ----- `from_phys_addr!` and `to_phys_addr!` -----

  /**
   * `from_phys_addr!`: the linear address of a physical address, by
   * adding the (negative) offset in `isize`; the addition overflows, and
   * panics, only for physical addresses just above 2^63.
   */
  function FromPhysAddr(paddr: usize): (r: Result<usize>)
    ensures r.Panic? <==> ISIZE_LIMIT <= paddr < ISIZE_LIMIT - PHYS_LADDR_OFFSET
    ensures r.Ok? ==> r.value == (paddr + PHYS_LADDR_OFFSET) % USIZE_LIMIT
  {
    var s := AsIsize(paddr) + PHYS_LADDR_OFFSET;
    if s < -ISIZE_LIMIT then Panic else Ok(AsUsize(s))
  }

  /** `to_phys_addr!`: the physical address of a linear one, by subtracting the offset in `isize`. */
  function ToPhysAddr(laddr: usize): (r: Result<usize>)
    ensures r.Panic? <==> ISIZE_LIMIT + PHYS_LADDR_OFFSET <= laddr < ISIZE_LIMIT
    ensures r.Ok? ==> r.value == (laddr - PHYS_LADDR_OFFSET) % USIZE_LIMIT
  {
    var d := AsIsize(laddr) - PHYS_LADDR_OFFSET;
    if d >= ISIZE_LIMIT then Panic else Ok(AsUsize(d))
  }

  /** Converting to a linear address and back gives the physical address. */
  lemma PhysRoundTrip(paddr: usize)
    requires FromPhysAddr(paddr).Ok?
    ensures ToPhysAddr(FromPhysAddr(paddr).value) == Ok(paddr)
  {
  }

  /** Converting to a physical address and back gives the linear address. */
  lemma LinearRoundTrip(laddr: usize)
    requires ToPhysAddr(laddr).Ok?
    ensures FromPhysAddr(ToPhysAddr(laddr).value) == Ok(laddr)
  {
  }

  // ----- `pat_type_to_pte` -----

  /** The memory types a PAT slot can hold (AMD64 Architecture Programmer's Manual, volume 2, section 7.8). */
  datatype PatType = Uncacheable | WriteCombining | WriteThrough | WriteProtect | WriteBack | UncacheableMinus

  /**
   * `KRNL_DEFAULT_PAT`, slot by slot: the four standard slots, then the
   * four selected by the PAT bit (the last two are reserved and hold
   * uncacheable-minus).
   */
  const KRNL_DEFAULT_PAT: seq<PatType> := [
    WriteBack, WriteThrough, UncacheableMinus, Uncacheable,
    WriteCombining, WriteProtect, UncacheableMinus, UncacheableMinus]

  /** The slot index `pat_type_to_pte` selects: the first slot of the default PAT holding the type. */
  function PatIndex(t: PatType): (idx: nat)
    ensures idx < |KRNL_DEFAULT_PAT| && KRNL_DEFAULT_PAT[idx] == t
    ensures forall j :: 0 <= j < idx ==> KRNL_DEFAULT_PAT[j] != t
  {
    match t
    case Uncacheable => 3
    case WriteCombining => 4
    case WriteThrough => 1
    case WriteProtect => 5
    case WriteBack => 0
    case UncacheableMinus => 2
  }

  // ----- `Mapper::map`: the span -----

  /** `x & !(PTE_SIZE - 1)`: rounded down to a 4 KiB boundary. */
  function PageDown(x: nat): (r: nat)
    ensures r <= x < r + PTE_SIZE && r % PTE_SIZE == 0
  {
    x - x % PTE_SIZE
  }

  /**
   * The span `Mapper::map` computes, as written: the base rounded down to
   * 4 KiB, and the acme one rounded-up size past it (a wrapping pointer
   * add). A zero size fails the `assert!`; `size + 0xfff` overflowing
   * panics.
   */
  function MapSpanAsWritten(base: usize, size: usize): (r: Result<(usize, usize)>)
    ensures r.Panic? <==> size == 0 || size + PTE_SIZE - 1 >= USIZE_LIMIT
  {
    if size == 0 || size + PTE_SIZE - 1 >= USIZE_LIMIT then Panic
    else
      var b := PageDown(base);
      Ok((b, AsUsize(b + PageDown(size + PTE_SIZE - 1))))
  }

  /**
   * As written, the size is rounded up from the rounded-down base, so a
   * request that starts inside a page and ends in the next leaves its
   * last byte outside the span.
   */
  lemma MapSpanAsWrittenMissesEnd()
    ensures MapSpanAsWritten(0xfff, 2) == Ok((0, 0x1000))
    ensures !(0 <= 0xfff + 2 - 1 < 0x1000)
  {
  }

  /**
   * The span `Mapper::map` is for: from the base rounded down to the end
   * of the request rounded up, so that every byte of the request lies in
   * whole 4 KiB pages of the span.
   */
  function MapSpan(base: usize, size: usize): (r: Result<(usize, usize)>)
    ensures r.Panic? <==> size == 0 || base % PTE_SIZE + size + PTE_SIZE - 1 >= USIZE_LIMIT
    ensures r.Ok? ==> r.value.0 % PTE_SIZE == 0 && r.value.0 <= base < r.value.0 + PTE_SIZE
    ensures r.Ok? ==> r.value.1 == AsUsize(r.value.0 + PageDown(base % PTE_SIZE + size + PTE_SIZE - 1))
    ensures r.Ok? ==>
      var len := PageDown(base % PTE_SIZE + size + PTE_SIZE - 1);
      len % PTE_SIZE == 0 && r.value.0 + len >= base + size && len < base % PTE_SIZE + size + PTE_SIZE
  {
    if size == 0 || base % PTE_SIZE + size + PTE_SIZE - 1 >= USIZE_LIMIT then Panic
    else
      var b := PageDown(base);
      Ok((b, AsUsize(b + PageDown(base % PTE_SIZE + size + PTE_SIZE - 1))))
  }

  /** The two agree whenever the base is page-aligned, as every caller's is. */
  lemma MapSpanAligned(base: usize, size: usize)
    requires base % PTE_SIZE == 0
    ensures MapSpan(base, size) == MapSpanAsWritten(base, size)
  {
  }

  // ----- `map_offset`: the walk over the table levels -----

  const PT_LVL: int := 1
  const PD_LVL: int := 2
  const PDPT_LVL: int := 3
  const PML4_LVL: int := 4

  /** `paging::page_size`: the span one entry of a level-`lvl` table maps. */
  function PageSize(lvl: int): (ps: nat)
    requires PT_LVL <= lvl <= PML4_LVL
    ensures ps % PTE_SIZE == 0 && ps >= PTE_SIZE
    ensures lvl > PT_LVL ==> ps == 512 * PageSize(lvl - 1)
  {
    if lvl == 1 then 0x1000
    else if lvl == 2 then 0x20_0000
    else if lvl == 3 then 0x4000_0000
    else 0x80_0000_0000
  }

  /** `paging::table_index`: which entry of its level-`lvl` table translates `addr`. */
  function TableIndex(addr: int, lvl: int): (i: nat)
    requires PT_LVL <= lvl <= PML4_LVL
    ensures i < 512
  {
    (addr / PageSize(lvl)) % 512
  }

  /** The address rounded down to a multiple of `m`. */
  function AlignDown(x: int, m: nat): int
    requires m > 0
  {
    x - x % m
  }

  /** The end of the span the level-`lvl` table holding `addr` translates. */
  function TableEnd(addr: int, lvl: int): int
    requires PT_LVL <= lvl <= PML4_LVL
  {
    AlignDown(addr, 512 * PageSize(lvl)) + 512 * PageSize(lvl)
  }

  /** `base.wrapping_add(n)` on a pointer compared as `isize`. */
  function Wrap(x: int): (r: isize)
    ensures -ISIZE_LIMIT <= x < ISIZE_LIMIT ==> r == x
    ensures (r - x) % USIZE_LIMIT == 0
  {
    (x + ISIZE_LIMIT) % USIZE_LIMIT - ISIZE_LIMIT
  }

  /**
   * `remaining`: the bytes left plus one page less one byte; the `isize`
   * subtraction overflows, and panics, when the span is 2^63 bytes or more.
   */
  function Remaining(base: isize, acme: isize): (r: Result<nat>)
    requires base < acme
    ensures r.Panic? <==> acme - base >= ISIZE_LIMIT
    ensures r.Ok? ==> r.value == acme - base + PTE_SIZE - 1
  {
    if acme - base >= ISIZE_LIMIT then Panic else Ok(acme - base + PTE_SIZE - 1)
  }

  /**
   * Whether the entry at `base` becomes a leaf: always in a page table;
   * in a page directory or PDPT when the rest of the span fills the
   * entry's page and `base` is aligned to it; never in the PML4.
   */
  predicate IsLeafStep(lvl: int, base: int, remaining: nat)
    requires PT_LVL <= lvl <= PML4_LVL
  {
    lvl == PT_LVL || (remaining >= PageSize(lvl) && base % PageSize(lvl) == 0 && lvl < 4)
  }

  /** A leaf entry the walk writes: the linear address it maps and the level of its table. */
  datatype Leaf = Leaf(addr: int, lvl: int)

  /** `PTE::PRESENT`. */
  const PTE_P: bv64 := 0x1
  /** `PTE::HUGE_PAGE`, the PS bit of a directory entry; `PTE::PAT` is the same bit 7. */
  const PTE_PS: bv64 := 0x80
  const PTE_PAT: bv64 := 0x80
  /** `PTE::PAT_PS`: where a huge-page entry keeps its PAT bit. */
  const PTE_PAT_PS: bv64 := 0x1000

  /**
   * The entry `map_offset` writes for a leaf at level `lvl`: present, the
   * physical address `paddr` from the page getter (`PTE::from_paddr`
   * panics unless it is page-aligned and below 2^52), and the flags
   * `leaves`. Above the page-table level the entry maps a huge page: PAT_PS
   * is added when the entry holds PAT, and PS otherwise.
   */
  function LeafEntry(lvl: int, paddr: bv64, leaves: bv64): (r: Result<bv64>)
    requires PT_LVL <= lvl <= PML4_LVL
    ensures r.Ok? <==> Paging.FromPaddr(paddr).Ok?
  {
    match Paging.FromPaddr(paddr)
    case Panic => Panic
    case Ok(a) =>
      var entry := PTE_P | a | leaves;
      if lvl == PT_LVL then Ok(entry)
      else if entry & PTE_PAT != 0 then Ok(entry | PTE_PAT_PS)
      else Ok(entry | PTE_PS)
  }

  /** A page-table leaf is present, maps `paddr` and holds exactly the flags given, PAT included. */
  lemma LeafEntryPt(paddr: bv64, leaves: bv64)
    requires Paging.FromPaddr(paddr).Ok? && leaves & Paging.BASE_MASK == 0
    ensures var e := LeafEntry(PT_LVL, paddr, leaves).value;
      && e & PTE_P != 0 && Paging.GetPaddr(e) == paddr
      && e & !Paging.BASE_MASK == (leaves | PTE_P) & !Paging.BASE_MASK
  {
  }

  /**
   * A leaf above the page-table level is a present huge page: apart from
   * PAT_PS it holds exactly the present bit, the address, the flags given
   * and PS, and PAT_PS is set exactly when the flags hold PAT. This needs
   * bit 12 clear in the flags (they hold no address) and in the page (a
   * huge page is aligned to 2 MiB at least).
   */
  lemma LeafEntryHuge(lvl: int, paddr: bv64, leaves: bv64)
    requires PT_LVL < lvl <= PML4_LVL && Paging.FromPaddr(paddr).Ok?
    requires leaves & PTE_PAT_PS == 0 && paddr & 0x1FFF == 0
    ensures var e := LeafEntry(lvl, paddr, leaves).value;
      && e & !PTE_PAT_PS == PTE_P | paddr | leaves | PTE_PS
      && (e & PTE_PAT_PS != 0 <==> leaves & PTE_PAT != 0)
  {
    if leaves & PTE_PAT != 0 {
      HugePat(lvl, paddr, leaves);
    } else {
      HugeNoPat(lvl, paddr, leaves);
    }
  }

  /** The huge-page leaf when the flags hold PAT. */
  lemma HugePat(lvl: int, paddr: bv64, leaves: bv64)
    requires PT_LVL < lvl <= PML4_LVL && Paging.FromPaddr(paddr).Ok?
    requires leaves & PTE_PAT_PS == 0 && paddr & 0x1FFF == 0 && leaves & PTE_PAT != 0
    ensures var e := LeafEntry(lvl, paddr, leaves).value;
      e & !PTE_PAT_PS == PTE_P | paddr | leaves | PTE_PS && e & PTE_PAT_PS != 0
  {
    EntryBits(paddr, leaves);
    HugeValue(lvl, paddr, leaves);
    HugeWithPat(paddr, leaves);
  }

  /** The huge-page leaf when the flags lack PAT. */
  lemma HugeNoPat(lvl: int, paddr: bv64, leaves: bv64)
    requires PT_LVL < lvl <= PML4_LVL && Paging.FromPaddr(paddr).Ok?
    requires leaves & PTE_PAT_PS == 0 && paddr & 0x1FFF == 0 && leaves & PTE_PAT == 0
    ensures var e := LeafEntry(lvl, paddr, leaves).value;
      e & !PTE_PAT_PS == PTE_P | paddr | leaves | PTE_PS && e & PTE_PAT_PS == 0
  {
    EntryBits(paddr, leaves);
    HugeValue(lvl, paddr, leaves);
    HugeWithoutPat(paddr, leaves);
  }

  /** Above the page-table level the entry gains PAT_PS or PS by its PAT bit. */
  lemma HugeValue(lvl: int, paddr: bv64, leaves: bv64)
    requires PT_LVL < lvl <= PML4_LVL && Paging.FromPaddr(paddr).Ok?
    ensures var entry := PTE_P | paddr | leaves;
      LeafEntry(lvl, paddr, leaves)
      == if entry & PTE_PAT != 0 then Ok(entry | PTE_PAT_PS) else Ok(entry | PTE_PS)
  {
  }

  /** The PAT bit of a fresh entry comes from the flags alone. */
  lemma EntryBits(paddr: bv64, leaves: bv64)
    requires paddr & 0x1FFF == 0
    ensures (PTE_P | paddr | leaves) & PTE_PAT == leaves & PTE_PAT
  {
  }

  /** An entry whose flags hold PAT (bit 7, which is PS) gains PAT_PS. */
  lemma HugeWithPat(paddr: bv64, leaves: bv64)
    requires paddr & 0x1FFF == 0 && leaves & PTE_PAT_PS == 0 && leaves & PTE_PAT != 0
    ensures ((PTE_P | paddr | leaves) | PTE_PAT_PS) & PTE_PAT_PS != 0
    ensures ((PTE_P | paddr | leaves) | PTE_PAT_PS) & !PTE_PAT_PS == PTE_P | paddr | leaves | PTE_PS
  {
  }

  /** An entry whose flags lack PAT gains PS and no PAT_PS. */
  lemma HugeWithoutPat(paddr: bv64, leaves: bv64)
    requires paddr & 0x1FFF == 0 && leaves & PTE_PAT_PS == 0 && leaves & PTE_PAT == 0
    ensures ((PTE_P | paddr | leaves) | PTE_PS) & PTE_PAT_PS == 0
    ensures ((PTE_P | paddr | leaves) | PTE_PS) & !PTE_PAT_PS == PTE_P | paddr | leaves | PTE_PS
  {
  }

  /** The leaves a step produced, followed by those of the rest of the walk. */
  function Then(leaves: seq<Leaf>, rest: Result<seq<Leaf>>): (r: Result<seq<Leaf>>)
    ensures r.Ok? <==> rest.Ok?
    ensures r.Ok? ==> r.value == leaves + rest.value
  {
    if rest.Ok? then Ok(leaves + rest.value) else Panic
  }

  /** `2^64` is a whole number of level-`lvl` tables' spans. */
  lemma TablesInWord(lvl: int) returns (m: int)
    requires PT_LVL <= lvl <= PML4_LVL
    ensures USIZE_LIMIT == 512 * PageSize(lvl) * m
  {
    m := USIZE_LIMIT / (512 * PageSize(lvl));
    if lvl == 1 {} else if lvl == 2 {} else if lvl == 3 {} else {}
  }

  /**
   * An address a whole number of entries past `ps * q`: its index is `q`'s
   * plus that number, modulo the table.
   */
  lemma IndexAfter(next: int, lvl: int, q: int, n: int)
    requires PT_LVL <= lvl <= PML4_LVL
    requires 0 <= next - PageSize(lvl) * (q + n) < PageSize(lvl)
    requires q % 512 + n < 512 && n >= 0
    ensures TableIndex(next, lvl) == q % 512 + n
  {
    var ps := PageSize(lvl);
    DivUnique(next, ps, q + n, next - ps * (q + n));
    var t := q / 512;
    assert q + n == 512 * t + (q % 512 + n);
    DivUnique(q + n, 512, t, q % 512 + n);
  }

  lemma ThenEmpty(rest: Result<seq<Leaf>>)
    ensures Then([], rest) == rest
  {
    if rest.Ok? {
      assert [] + rest.value == rest.value;
    }
  }

  lemma ThenAssoc(a: seq<Leaf>, b: seq<Leaf>, rest: Result<seq<Leaf>>)
    ensures Then(a, Then(b, rest)) == Then(a + b, rest)
  {
    if rest.Ok? {
      assert a + (b + rest.value) == a + b + rest.value;
    }
  }

  /** Addresses that differ by a multiple of 2^64 have the same index. */
  lemma SameIndex(x: int, y: int, lvl: int)
    requires PT_LVL <= lvl <= PML4_LVL
    requires (x - y) % USIZE_LIMIT == 0
    ensures TableIndex(x, lvl) == TableIndex(y, lvl)
  {
    var ps := PageSize(lvl);
    var m := TablesInWord(lvl);
    var k := (x - y) / USIZE_LIMIT;
    assert x - y == USIZE_LIMIT * k;
    var c := m * k;
    ScaleProduct(ps, m, k);
    var q := y / ps;
    assert y == ps * q + y % ps;
    assert ps * (q + 512 * c) == ps * q + 512 * ps * c;
    DivUnique(x, ps, q + 512 * c, y % ps);
    DivUnique(q + 512 * c, 512, q / 512 + c, q % 512);
  }

  lemma ScaleProduct(ps: int, m: int, k: int)
    ensures 512 * ps * m * k == 512 * ps * (m * k)
  {
  }

  /** The next entry of the same table translates the next page. */
  lemma NextIndex(addr: int, next: isize, lvl: int)
    requires PT_LVL <= lvl <= PML4_LVL
    requires TableIndex(addr, lvl) < 511
    requires (next - (AlignDown(addr, PageSize(lvl)) + PageSize(lvl))) % USIZE_LIMIT == 0
    ensures TableIndex(next, lvl) == TableIndex(addr, lvl) + 1
  {
    var ps := PageSize(lvl);
    var q := addr / ps;
    var a := AlignDown(addr, ps) + ps;
    assert addr == ps * q + addr % ps;
    MulSucc(ps, q);
    IndexAfter(a, lvl, q, 1);
    SameIndex(next, a, lvl);
  }

  /**
   * The loop of `map_offset::<lvl>` over one table, as written: after an
   * entry the pointer moves on by the entry's page size, from wherever
   * inside the entry it was. It stops at the acme or after entry 511.
   */
  function MapLoopAsWritten(lvl: int, base: isize, acme: isize): (r: Result<seq<Leaf>>)
    requires PT_LVL <= lvl <= PML4_LVL
    decreases lvl, 512 - TableIndex(base, lvl)
  {
    if base >= acme then Ok([])
    else match Remaining(base, acme)
      case Panic => Panic
      case Ok(remaining) =>
        var here := if IsLeafStep(lvl, base, remaining) then Ok([Leaf(base, lvl)])
          else MapLoopAsWritten(lvl - 1, base, acme);
        if here.Panic? then Panic
        else if TableIndex(base, lvl) == 511 then here
        else
          var next := Wrap(base + PageSize(lvl));
          NextIndexAsWritten(base, next, lvl);
          Then(here.value, MapLoopAsWritten(lvl, next, acme))
  }

  lemma NextIndexAsWritten(addr: int, next: isize, lvl: int)
    requires PT_LVL <= lvl <= PML4_LVL
    requires TableIndex(addr, lvl) < 511
    requires next == Wrap(addr + PageSize(lvl))
    ensures TableIndex(next, lvl) == TableIndex(addr, lvl) + 1
  {
    var ps := PageSize(lvl);
    var q := addr / ps;
    var a := addr + ps;
    assert addr == ps * q + addr % ps && 0 <= addr % ps < ps;
    MulSucc(ps, q);
    IndexAfter(a, lvl, q, 1);
    SameIndex(next, a, lvl);
  }

  /** `map_offset::<lvl>` as written: an invalid level panics. */
  function MapOffsetAsWritten(lvl: int, base: isize, acme: isize): (r: Result<seq<Leaf>>)
    ensures (lvl < PT_LVL || lvl > PML4_LVL) ==> r.Panic?
  {
    if lvl < PT_LVL || lvl > PML4_LVL then Panic else MapLoopAsWritten(lvl, base, acme)
  }

  /**
   * As written, a request that starts in the last page of a page table
   * and runs into the next one maps only that page: returning to the page
   * directory, the pointer moves on by 2 MiB from inside the entry and
   * lands beyond the acme, so the two pages after 0x200000 stay unmapped.
   */
  lemma MapOffsetAsWrittenSkipsPages()
    ensures MapOffsetAsWritten(PML4_LVL, 0x1f_f000, 0x20_2000) == Ok([Leaf(0x1f_f000, PT_LVL)])
  {
    assert TableIndex(0x1f_f000, PT_LVL) == 511;
    assert MapLoopAsWritten(PT_LVL, 0x1f_f000, 0x20_2000) == Ok([Leaf(0x1f_f000, PT_LVL)]);
    assert MapLoopAsWritten(PD_LVL, 0x3f_f000, 0x20_2000) == Ok([]);
    assert Remaining(0x1f_f000, 0x20_2000) == Ok(0x3fff);
    assert !IsLeafStep(PD_LVL, 0x1f_f000, 0x3fff);
    assert TableIndex(0x1f_f000, PD_LVL) == 0;
    assert Wrap(0x1f_f000 + PageSize(PD_LVL)) == 0x3f_f000;
    assert [Leaf(0x1f_f000, PT_LVL)] + [] == [Leaf(0x1f_f000, PT_LVL)];
    assert MapLoopAsWritten(PD_LVL, 0x1f_f000, 0x20_2000) == Ok([Leaf(0x1f_f000, PT_LVL)]);
    assert MapLoopAsWritten(PDPT_LVL, 0x1f_f000, 0x20_2000) == Ok([Leaf(0x1f_f000, PT_LVL)]);
  }

  /**
   * The loop of `map_offset::<lvl>` over one table, as intended: after an
   * entry the pointer moves on to the start of the next entry.
   */
  function MapLoop(lvl: int, base: isize, acme: isize): (r: Result<seq<Leaf>>)
    requires PT_LVL <= lvl <= PML4_LVL
    decreases lvl, 1, 512 - TableIndex(base, lvl)
  {
    if base >= acme then Ok([])
    else match Remaining(base, acme)
      case Panic => Panic
      case Ok(remaining) =>
        var here := MapEntry(lvl, base, acme, remaining);
        if here.Panic? then Panic
        else if TableIndex(base, lvl) == 511 then here
        else
          var next := Wrap(EntryEnd(base, lvl));
          NextIndex(base, next, lvl);
          Then(here.value, MapLoop(lvl, next, acme))
  }

  /** The leaves one entry of the walk writes: itself, or those of the table below it. */
  function MapEntry(lvl: int, base: isize, acme: isize, remaining: nat): (r: Result<seq<Leaf>>)
    requires PT_LVL <= lvl <= PML4_LVL
    decreases lvl, 0, 0
  {
    if IsLeafStep(lvl, base, remaining) then Ok([Leaf(base, lvl)]) else MapLoop(lvl - 1, base, acme)
  }

  /** The end of the entry holding `addr`: where the next entry's page starts. */
  function EntryEnd(addr: int, lvl: int): int
    requires PT_LVL <= lvl <= PML4_LVL
  {
    AlignDown(addr, PageSize(lvl)) + PageSize(lvl)
  }

  /** `map_offset::<lvl>`: an invalid level panics. */
  function MapOffsetSpec(lvl: int, base: isize, acme: isize): (r: Result<seq<Leaf>>)
    ensures (lvl < PT_LVL || lvl > PML4_LVL) ==> r.Panic?
  {
    if lvl < PT_LVL || lvl > PML4_LVL then Panic else MapLoop(lvl, base, acme)
  }

  /** The leaves map, one page after another, exactly the span from `from` to `to`. */
  predicate Tiles(leaves: seq<Leaf>, from: int, to: int)
    decreases |leaves|
  {
    if |leaves| == 0 then from == to
    else
      && PT_LVL <= leaves[0].lvl <= PDPT_LVL
      && leaves[0].addr == from
      && from % PageSize(leaves[0].lvl) == 0
      && Tiles(leaves[1..], from + PageSize(leaves[0].lvl), to)
  }

  lemma {:induction false} TilesAppend(a: seq<Leaf>, b: seq<Leaf>, x: int, y: int, z: int)
    requires Tiles(a, x, y) && Tiles(b, y, z)
    ensures Tiles(a + b, x, z)
    decreases |a|
  {
    if |a| > 0 {
      assert (a + b)[1..] == a[1..] + b;
      TilesAppend(a[1..], b, x + PageSize(a[0].lvl), y, z);
    } else {
      assert a + b == b;
    }
  }

  /** Addresses small enough that no pointer step of the walk wraps or overflows. */
  predicate InWalkRange(x: int) {
    -0x4000_0000_0000_0000 <= x < 0x4000_0000_0000_0000
  }

  /** One entry's page, and the table holding it, in terms of the table one level down. */
  lemma EntryBounds(base: int, lvl: int)
    requires PT_LVL <= lvl <= PML4_LVL
    ensures AlignDown(base, PageSize(lvl)) <= base < AlignDown(base, PageSize(lvl)) + PageSize(lvl)
    ensures AlignDown(base, PageSize(lvl)) + PageSize(lvl) <= TableEnd(base, lvl)
    ensures TableIndex(base, lvl) == 511 ==> AlignDown(base, PageSize(lvl)) + PageSize(lvl) == TableEnd(base, lvl)
    ensures lvl > PT_LVL ==> TableEnd(base, lvl - 1) == EntryEnd(base, lvl)
  {
    var ps := PageSize(lvl);
    var q := base / ps;
    var t, j := q / 512, q % 512;
    TableStart(base, lvl);
    assert AlignDown(base, ps) == 512 * ps * t + ps * j;
    MulMono(ps, j + 1, 512);
    assert ps * (j + 1) == ps * j + ps;
  }

  /** Where the table holding `base` starts. */
  lemma TableStart(base: int, lvl: int)
    requires PT_LVL <= lvl <= PML4_LVL
    ensures var ps := PageSize(lvl); var q := base / ps;
      AlignDown(base, 512 * ps) == 512 * ps * (q / 512)
      && AlignDown(base, ps) == 512 * ps * (q / 512) + ps * (q % 512)
  {
    var ps := PageSize(lvl);
    var q := base / ps;
    var t, j := q / 512, q % 512;
    assert base == ps * q + base % ps;
    SplitProduct(ps, q, t, j);
    MulMono(ps, j, 511);
    assert ps * 511 + ps == 512 * ps;
    assert 0 <= ps * j;
    DivUnique(base, 512 * ps, t, ps * j + base % ps);
  }

  lemma SplitProduct(ps: int, q: int, t: int, j: int)
    requires q == 512 * t + j
    ensures ps * q == 512 * ps * t + ps * j
  {
  }

  /** The next entry lies in the same table. */
  lemma NextEntrySameTable(base: int, lvl: int)
    requires PT_LVL <= lvl <= PML4_LVL
    requires TableIndex(base, lvl) < 511
    ensures TableEnd(EntryEnd(base, lvl), lvl) == TableEnd(base, lvl)
  {
    var ps := PageSize(lvl);
    var q := base / ps;
    var t, j := q / 512, q % 512;
    TableStart(base, lvl);
    var next := AlignDown(base, ps) + ps;
    assert next == 512 * ps * t + ps * (j + 1);
    MulMono(ps, j + 1, 511);
    DivUnique(next, 512 * ps, t, ps * (j + 1));
  }

  function Min(a: int, b: int): int {
    if a <= b then a else b
  }

  /**
   * The walk of one level-`lvl` table, as intended, maps page after page
   * with no gap from a 4 KiB-aligned `base` up to the acme or the end of
   * the table, whichever comes first; each leaf is aligned to its page
   * size and no walk inside that range panics.
   */
  lemma {:induction false} MapLoopTiles(lvl: int, base: isize, acme: isize)
    requires PT_LVL <= lvl <= PML4_LVL
    requires base % PTE_SIZE == 0 && acme % PTE_SIZE == 0 && base < acme
    requires InWalkRange(base) && InWalkRange(acme)
    ensures MapLoop(lvl, base, acme).Ok?
    ensures Tiles(MapLoop(lvl, base, acme).value, base, Min(acme, TableEnd(base, lvl)))
    decreases lvl, 1, 512 - TableIndex(base, lvl), 1
  {
    var entryEnd := EntryEnd(base, lvl);
    if TableIndex(base, lvl) < 511 && entryEnd < acme {
      NextEntryStart(base, lvl);
      NextIndex(base, entryEnd, lvl);
      MapLoopTiles(lvl, entryEnd, acme);
      MapLoopTilesStep(lvl, base, acme);
    } else {
      MapLoopTilesLast(lvl, base, acme);
    }
  }

  /** The next entry starts on a page boundary inside the range where nothing wraps. */
  lemma NextEntryStart(base: int, lvl: int)
    requires PT_LVL <= lvl <= PML4_LVL
    requires base % PTE_SIZE == 0 && InWalkRange(base)
    ensures var e := EntryEnd(base, lvl); e % PTE_SIZE == 0 && base < e <= base + PageSize(lvl)
  {
    var ps := PageSize(lvl);
    var q := base / ps;
    assert AlignDown(base, ps) == ps * q && 0 <= base % ps < ps;
    PageAligned(q, ps);
  }

  lemma PageAligned(q: int, ps: int)
    requires ps > 0 && ps % PTE_SIZE == 0
    ensures (ps * q + ps) % PTE_SIZE == 0
  {
    var m := ps / PTE_SIZE;
    assert ps == PTE_SIZE * m;
    assert ps * q + ps == PTE_SIZE * (m * q + m);
  }

  /** The walk's last entry in this table, or the one that reaches the acme. */
  lemma MapLoopTilesLast(lvl: int, base: isize, acme: isize)
    requires PT_LVL <= lvl <= PML4_LVL
    requires base % PTE_SIZE == 0 && acme % PTE_SIZE == 0 && base < acme
    requires InWalkRange(base) && InWalkRange(acme)
    requires TableIndex(base, lvl) == 511 || EntryEnd(base, lvl) >= acme
    ensures MapLoop(lvl, base, acme).Ok?
    ensures Tiles(MapLoop(lvl, base, acme).value, base, Min(acme, TableEnd(base, lvl)))
    decreases lvl, 1, 512 - TableIndex(base, lvl), 0
  {
    var remaining := acme - base + PTE_SIZE - 1;
    MapEntryTiles(lvl, base, acme, remaining);
    var here := MapEntry(lvl, base, acme, remaining).value;
    EntryBounds(base, lvl);
    MapLoopUnfold(lvl, base, acme, remaining);
    if TableIndex(base, lvl) < 511 {
      NextEntrySameTable(base, lvl);
      assert MapLoop(lvl, EntryEnd(base, lvl), acme) == Ok([]);
      assert here + [] == here;
    }
  }

  /** An entry followed by the rest of the table, given that the rest tiles. */
  lemma MapLoopTilesStep(lvl: int, base: isize, acme: isize)
    requires PT_LVL <= lvl <= PML4_LVL
    requires base % PTE_SIZE == 0 && acme % PTE_SIZE == 0 && base < acme
    requires InWalkRange(base) && InWalkRange(acme)
    requires TableIndex(base, lvl) < 511 && EntryEnd(base, lvl) < acme
    requires MapLoop(lvl, EntryEnd(base, lvl), acme).Ok?
    requires Tiles(MapLoop(lvl, EntryEnd(base, lvl), acme).value, EntryEnd(base, lvl),
      Min(acme, TableEnd(EntryEnd(base, lvl), lvl)))
    ensures MapLoop(lvl, base, acme).Ok?
    ensures Tiles(MapLoop(lvl, base, acme).value, base, Min(acme, TableEnd(base, lvl)))
    decreases lvl, 1, 512 - TableIndex(base, lvl), 0
  {
    var remaining := acme - base + PTE_SIZE - 1;
    MapEntryTiles(lvl, base, acme, remaining);
    var here := MapEntry(lvl, base, acme, remaining).value;
    var entryEnd := EntryEnd(base, lvl);
    EntryBounds(base, lvl);
    MapLoopUnfold(lvl, base, acme, remaining);
    NextEntrySameTable(base, lvl);
    TilesAppend(here, MapLoop(lvl, entryEnd, acme).value, base, entryEnd, Min(acme, TableEnd(base, lvl)));
  }

  /** One step of the walk, as its definition gives it. */
  lemma MapLoopStep(lvl: int, base: isize, acme: isize)
    requires PT_LVL <= lvl <= PML4_LVL && base < acme
    ensures Remaining(base, acme).Panic? ==> MapLoop(lvl, base, acme).Panic?
    ensures Remaining(base, acme).Ok? ==>
      var here := MapEntry(lvl, base, acme, Remaining(base, acme).value);
      && (here.Panic? ==> MapLoop(lvl, base, acme).Panic?)
      && (here.Ok? && TableIndex(base, lvl) == 511 ==> MapLoop(lvl, base, acme) == here)
      && (here.Ok? && TableIndex(base, lvl) < 511 ==>
            MapLoop(lvl, base, acme) == Then(here.value, MapLoop(lvl, Wrap(EntryEnd(base, lvl)), acme)))
  {
  }

  /** One step of the walk inside the range where nothing wraps. */
  lemma MapLoopUnfold(lvl: int, base: isize, acme: isize, remaining: nat)
    requires PT_LVL <= lvl <= PML4_LVL
    requires base < acme && InWalkRange(base) && InWalkRange(acme)
    requires remaining == acme - base + PTE_SIZE - 1
    requires MapEntry(lvl, base, acme, remaining).Ok?
    requires EntryEnd(base, lvl) < ISIZE_LIMIT
    ensures TableIndex(base, lvl) == 511 ==> MapLoop(lvl, base, acme) == MapEntry(lvl, base, acme, remaining)
    ensures TableIndex(base, lvl) < 511 ==>
      MapLoop(lvl, base, acme) == Then(MapEntry(lvl, base, acme, remaining).value, MapLoop(lvl, EntryEnd(base, lvl), acme))
  {
    assert Remaining(base, acme) == Ok(remaining);
  }

  /** One entry of the walk maps, with no gap, from `base` up to the acme or the end of the entry. */
  lemma {:induction false} MapEntryTiles(lvl: int, base: isize, acme: isize, remaining: nat)
    requires PT_LVL <= lvl <= PML4_LVL
    requires base % PTE_SIZE == 0 && acme % PTE_SIZE == 0 && base < acme
    requires InWalkRange(base) && InWalkRange(acme)
    requires remaining == acme - base + PTE_SIZE - 1
    ensures MapEntry(lvl, base, acme, remaining).Ok?
    ensures Tiles(MapEntry(lvl, base, acme, remaining).value, base, Min(acme, EntryEnd(base, lvl)))
    decreases lvl, 0, 0, 0
  {
    EntryBounds(base, lvl);
    if IsLeafStep(lvl, base, remaining) {
      LeafFits(lvl, base, acme, remaining);
      var here := [Leaf(base, lvl)];
      assert Tiles(here[1..], base + PageSize(lvl), base + PageSize(lvl));
    } else {
      MapLoopTiles(lvl - 1, base, acme);
    }
  }

  /** A leaf's page starts at its entry and ends inside the span. */
  lemma LeafFits(lvl: int, base: int, acme: int, remaining: nat)
    requires PT_LVL <= lvl <= PML4_LVL
    requires base % PTE_SIZE == 0 && acme % PTE_SIZE == 0 && base < acme
    requires remaining == acme - base + PTE_SIZE - 1
    requires IsLeafStep(lvl, base, remaining)
    ensures base % PageSize(lvl) == 0 && lvl <= PDPT_LVL
    ensures EntryEnd(base, lvl) == base + PageSize(lvl) <= acme
  {
    var ps := PageSize(lvl);
    assert lvl <= PDPT_LVL && base % ps == 0 && acme - base + PTE_SIZE - 1 >= ps by {
      if lvl == PT_LVL {
        assert ps == PTE_SIZE;
      }
    }
    PageMultiple(acme - base, ps);
    assert AlignDown(base, ps) == base;
  }

  /** A whole number of pages that, with one page less a byte added, reaches `ps`, is at least `ps`. */
  lemma PageMultiple(span: int, ps: int)
    requires span % PTE_SIZE == 0 && ps % PTE_SIZE == 0 && span > 0
    requires span + PTE_SIZE - 1 >= ps
    ensures span >= ps
  {
  }

  /**
   * `map_offset::<lvl>`: the leaves its loop writes, table by table,
   * descending into the next level for each entry that is not a leaf.
   * The entries' contents and the page getter are not modelled here.
   */
  method MapOffset(lvl: int, base: isize, acme: isize) returns (r: Result<seq<Leaf>>)
    ensures r == MapOffsetSpec(lvl, base, acme)
    decreases if lvl < 0 then 0 else lvl
  {
    if lvl < PT_LVL || lvl > PML4_LVL {
      return Panic;
    }
    var b: isize := base;
    var leaves: seq<Leaf> := [];
    ThenEmpty(MapLoop(lvl, b, acme));
    while b < acme
      invariant Then(leaves, MapLoop(lvl, b, acme)) == MapLoop(lvl, base, acme)
      decreases 512 - TableIndex(b, lvl)
    {
      MapLoopStep(lvl, b, acme);
      var remaining := Remaining(b, acme);
      if remaining.Panic? {
        return Panic;
      }
      var here: Result<seq<Leaf>>;
      if IsLeafStep(lvl, b, remaining.value) {
        here := Ok([Leaf(b, lvl)]);
      } else {
        here := MapOffset(lvl - 1, b, acme);
      }
      assert here == MapEntry(lvl, b, acme, remaining.value);
      if here.Panic? {
        return Panic;
      }
      var index := TableIndex(b, lvl);
      var next := Wrap(EntryEnd(b, lvl));
      if index == 511 {
        leaves := leaves + here.value;
        break;
      }
      NextIndex(b, next, lvl);
      ThenAssoc(leaves, here.value, MapLoop(lvl, next, acme));
      leaves := leaves + here.value;
      b := next;
    }
    assert leaves + [] == leaves;
    r := Ok(leaves);
  }
}
