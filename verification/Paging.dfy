/**
 * Long-mode paging helpers (amd64/src/paging.rs): extraction of the four
 * page-table indices from a linear address, the physical-address field of a
 * page-table entry, and the linear addresses that reach page-table entries
 * through a recursive PML4 slot.
 */
module Paging {
  import opened Wrappers

  const PT_INDEX_MASK: bv64 := 0x1F_F000
  const PDT_INDEX_MASK: bv64 := 0x3FE0_0000
  const PDPT_INDEX_MASK: bv64 := 0x7F_C000_0000
  const PML4T_INDEX_MASK: bv64 := 0xFF80_0000_0000
  const CANONICAL_HIGHER_HALF: bv64 := 0xFFFF_8000_0000_0000
  /** Bits 12 through 51: where an entry keeps its physical address. */
  const BASE_MASK: bv64 := 0x000F_FFFF_FFFF_F000

  /** Index into a page table: bits 12..20 of the address. */
  function PtIndex(laddr: bv64): (r: bv64)
    ensures r < 512
  {
    ((laddr & PT_INDEX_MASK) >> 12)
  }

  /** Index into a page directory table: bits 21..29. */
  function PdtIndex(laddr: bv64): (r: bv64)
    ensures r < 512
  {
    ((laddr & PDT_INDEX_MASK) >> 21)
  }

  /** Index into a page directory pointer table: bits 30..38. */
  function PdptIndex(laddr: bv64): (r: bv64)
    ensures r < 512
  {
    ((laddr & PDPT_INDEX_MASK) >> 30)
  }

  /** Index into the PML4 table: bits 39..47. */
  function Pml4tIndex(laddr: bv64): (r: bv64)
    ensures r < 512
  {
    ((laddr & PML4T_INDEX_MASK) >> 39)
  }

  /** Sign-extends bit 47 into bits 48..63, as a canonical address requires. */
  predicate IsCanonical(laddr: bv64) {
    laddr & CANONICAL_HIGHER_HALF == 0 || laddr & CANONICAL_HIGHER_HALF == CANONICAL_HIGHER_HALF
  }

  /**
   * The linear address with the given table indices and page offset: an
   * independent reference for the four extractors (each index below 512,
   * the offset below 4096), sign-extended from the PML4 index's top bit.
   */
  function Compose(pml4t: bv64, pdpt: bv64, pdt: bv64, pt: bv64, offset: bv64): bv64
    requires pml4t < 512 && pdpt < 512 && pdt < 512 && pt < 512 && offset < 0x1000
  {
    (if pml4t >= 256 then 0xFFFF_0000_0000_0000 else 0)
      | (pml4t << 39) | (pdpt << 30) | (pdt << 21) | (pt << 12) | offset
  }

  /** The extractors read back every component of a composed address. */
  lemma ComposeIndices(pml4t: bv64, pdpt: bv64, pdt: bv64, pt: bv64, offset: bv64)
    requires pml4t < 512 && pdpt < 512 && pdt < 512 && pt < 512 && offset < 0x1000
    ensures var a := Compose(pml4t, pdpt, pdt, pt, offset);
      IsCanonical(a) && Pml4tIndex(a) == pml4t && PdptIndex(a) == pdpt
      && PdtIndex(a) == pdt && PtIndex(a) == pt && a & 0xFFF == offset
  {
  }

  /** A canonical address is determined by its four indices and page offset. */
  lemma DecomposeCanonical(laddr: bv64)
    requires IsCanonical(laddr)
    ensures laddr == Compose(Pml4tIndex(laddr), PdptIndex(laddr), PdtIndex(laddr), PtIndex(laddr), laddr & 0xFFF)
  {
  }

  /** `PTE::from_paddr`: panics unless the address is page-aligned and below 2^52. */
  function FromPaddr(paddr: bv64): (r: Result<bv64>)
    ensures r.Ok? <==> paddr & 0xFFF == 0 && paddr < 0x10_0000_0000_0000
  {
    if paddr & !BASE_MASK == 0 then Ok(paddr) else Panic
  }

  /** `PTE::get_paddr`: the physical-address field of an entry. */
  function GetPaddr(entry: bv64): (r: bv64)
    ensures r & 0xFFF == 0 && r < 0x10_0000_0000_0000
  {
    entry & BASE_MASK
  }

  /** Reading the address back out of a freshly built entry gives the address. */
  lemma PaddrRoundTrip(paddr: bv64)
    requires FromPaddr(paddr).Ok?
    ensures GetPaddr(FromPaddr(paddr).value) == paddr
  {
  }

  /** The facts the recursive mapping is for, about an address `r` derived from `laddr`. */
  predicate MovesDownOneLevel(r: bv64, laddr: bv64, top: bv64) {
    IsCanonical(r) && r & 7 == 0 && Pml4tIndex(r) == top
    && PdptIndex(r) == Pml4tIndex(laddr) && PdtIndex(r) == PdptIndex(laddr)
    && PtIndex(r) == PdtIndex(laddr) && r & 0xFFF == PtIndex(laddr) << 3
  }

  /**
   * The address of the page-table entry translating `laddr`, through the
   * PML4 slot `recursiveIndex` mapped onto the PML4 itself.
   */
  function RecurToPte(laddr: bv64, recursiveIndex: bv64): bv64 {
    // `((recursiveIndex << 55) as i64 >> 16) as u64`: an arithmetic shift, copying the sign bit in
    var x := recursiveIndex << 55;
    var slot := (x >> 16) | (if x & 0x8000_0000_0000_0000 != 0 then 0xFFFF_0000_0000_0000 else 0);
    ((laddr >> 9) & !(CANONICAL_HIGHER_HALF | PML4T_INDEX_MASK | 7)) | slot
  }

  lemma RecurToPteHigh(laddr: bv64, recursiveIndex: bv64)
    ensures var r := RecurToPte(laddr, recursiveIndex);
      IsCanonical(r) && r & 7 == 0 && Pml4tIndex(r) == recursiveIndex & 0x1FF
  {
  }

  lemma RecurToPteMiddle(laddr: bv64, recursiveIndex: bv64)
    ensures var r := RecurToPte(laddr, recursiveIndex);
      PdptIndex(r) == Pml4tIndex(laddr) && PdtIndex(r) == PdptIndex(laddr)
  {
  }

  lemma RecurToPteLow(laddr: bv64, recursiveIndex: bv64)
    ensures var r := RecurToPte(laddr, recursiveIndex);
      PtIndex(r) == PdtIndex(laddr) && r & 0xFFF == PtIndex(laddr) << 3
  {
  }

  /**
   * Every index moves one level down, the slot's index enters at the top,
   * and the old page-table index becomes the byte offset of an 8-byte entry.
   */
  lemma RecurToPteIndices(laddr: bv64, recursiveIndex: bv64)
    ensures MovesDownOneLevel(RecurToPte(laddr, recursiveIndex), laddr, recursiveIndex & 0x1FF)
  {
    RecurToPteHigh(laddr, recursiveIndex);
    RecurToPteMiddle(laddr, recursiveIndex);
    RecurToPteLow(laddr, recursiveIndex);
  }

  /** The entry in the page directory: two steps through the recursive slot. */
  function RecurToPde(laddr: bv64, recursiveIndex: bv64): bv64 {
    RecurToPte(RecurToPte(laddr, recursiveIndex), recursiveIndex)
  }

  /** The entry in the page directory pointer table: three steps. */
  function RecurToPdpe(laddr: bv64, recursiveIndex: bv64): bv64 {
    RecurToPte(RecurToPte(RecurToPte(laddr, recursiveIndex), recursiveIndex), recursiveIndex)
  }

  /** The PML4 entry: four steps. */
  function RecurToPml4e(laddr: bv64, recursiveIndex: bv64): bv64 {
    RecurToPte(RecurToPte(RecurToPte(RecurToPte(laddr, recursiveIndex), recursiveIndex), recursiveIndex), recursiveIndex)
  }

  /** Each step through the slot moves the address's indices down one more level. */
  lemma {:induction false} RecurChainIndices(laddr: bv64, recursiveIndex: bv64)
    requires recursiveIndex < 512
    ensures var ri, pde := recursiveIndex, RecurToPde(laddr, recursiveIndex);
      IsCanonical(pde) && Pml4tIndex(pde) == ri && PdptIndex(pde) == ri
      && PdtIndex(pde) == Pml4tIndex(laddr) && PtIndex(pde) == PdptIndex(laddr)
      && pde & 0xFFF == PdtIndex(laddr) << 3
    ensures var ri, pdpe := recursiveIndex, RecurToPdpe(laddr, recursiveIndex);
      IsCanonical(pdpe) && Pml4tIndex(pdpe) == ri && PdptIndex(pdpe) == ri
      && PdtIndex(pdpe) == ri && PtIndex(pdpe) == Pml4tIndex(laddr)
      && pdpe & 0xFFF == PdptIndex(laddr) << 3
    ensures var ri, pml4e := recursiveIndex, RecurToPml4e(laddr, recursiveIndex);
      IsCanonical(pml4e) && Pml4tIndex(pml4e) == ri && PdptIndex(pml4e) == ri
      && PdtIndex(pml4e) == ri && PtIndex(pml4e) == ri
      && pml4e & 0xFFF == Pml4tIndex(laddr) << 3
  {
    var pte := RecurToPte(laddr, recursiveIndex);
    RecurToPteIndices(laddr, recursiveIndex);
    var pde := RecurToPte(pte, recursiveIndex);
    RecurToPteIndices(pte, recursiveIndex);
    var pdpe := RecurToPte(pde, recursiveIndex);
    RecurToPteIndices(pde, recursiveIndex);
    RecurToPteIndices(pdpe, recursiveIndex);
  }

  /** The page-directory entry of a 2 MiB page, computed in one step. */
  function RecurToHpde(laddr: bv64, recursiveIndex: bv64): bv64 {
    var x := recursiveIndex << 55;
    var slot := (x >> 16) | (if x & 0x8000_0000_0000_0000 != 0 then 0xFFFF_0000_0000_0000 else 0);
    ((laddr >> 18) & !(CANONICAL_HIGHER_HALF | PML4T_INDEX_MASK | PDPT_INDEX_MASK | 7))
      | slot | (recursiveIndex << 30)
  }

  lemma RecurToHpdeHigh(laddr: bv64, recursiveIndex: bv64)
    requires recursiveIndex < 512
    ensures var r := RecurToHpde(laddr, recursiveIndex);
      IsCanonical(r) && Pml4tIndex(r) == recursiveIndex && PdptIndex(r) == recursiveIndex
  {
  }

  lemma RecurToHpdeLow0(laddr: bv64, recursiveIndex: bv64)
    requires recursiveIndex < 512
    ensures var r := RecurToHpde(laddr, recursiveIndex); PdtIndex(r) == Pml4tIndex(laddr)
  {
  }

  lemma RecurToHpdeLow1(laddr: bv64, recursiveIndex: bv64)
    requires recursiveIndex < 512
    ensures var r := RecurToHpde(laddr, recursiveIndex); PtIndex(r) == PdptIndex(laddr)
  {
  }

  lemma RecurToHpdeLow2(laddr: bv64, recursiveIndex: bv64)
    requires recursiveIndex < 512
    ensures var r := RecurToHpde(laddr, recursiveIndex); r & 0xFFF == PdtIndex(laddr) << 3
  {
  }

  /** The directory-pointer entry of a 1 GiB page, computed in one step. */
  function RecurToHpdpe(laddr: bv64, recursiveIndex: bv64): bv64 {
    var x := recursiveIndex << 55;
    var slot := (x >> 16) | (if x & 0x8000_0000_0000_0000 != 0 then 0xFFFF_0000_0000_0000 else 0);
    ((laddr >> 27) & !(CANONICAL_HIGHER_HALF | PML4T_INDEX_MASK | PDPT_INDEX_MASK | PDT_INDEX_MASK | 7))
      | slot | (recursiveIndex << 30) | (recursiveIndex << 21)
  }

  lemma RecurToHpdpeHigh(laddr: bv64, recursiveIndex: bv64)
    requires recursiveIndex < 512
    ensures var r := RecurToHpdpe(laddr, recursiveIndex);
      IsCanonical(r) && Pml4tIndex(r) == recursiveIndex && PdptIndex(r) == recursiveIndex
  {
  }

  lemma RecurToHpdpeLow0(laddr: bv64, recursiveIndex: bv64)
    requires recursiveIndex < 512
    ensures var r := RecurToHpdpe(laddr, recursiveIndex); PdtIndex(r) == recursiveIndex
  {
  }

  lemma RecurToHpdpeLow1(laddr: bv64, recursiveIndex: bv64)
    requires recursiveIndex < 512
    ensures var r := RecurToHpdpe(laddr, recursiveIndex); PtIndex(r) == Pml4tIndex(laddr)
  {
  }

  lemma RecurToHpdpeLow2(laddr: bv64, recursiveIndex: bv64)
    requires recursiveIndex < 512
    ensures var r := RecurToHpdpe(laddr, recursiveIndex); r & 0xFFF == PdptIndex(laddr) << 3
  {
  }

  /** The directory-pointer entry above a 2 MiB page's directory entry. */
  function RecurToHpdePdpe(laddr: bv64, recursiveIndex: bv64): bv64 {
    RecurToPte(RecurToHpde(laddr, recursiveIndex), recursiveIndex)
  }

  /** The PML4 entry above a 2 MiB page. */
  function RecurToHpdePml4e(laddr: bv64, recursiveIndex: bv64): bv64 {
    RecurToPte(RecurToPte(RecurToHpde(laddr, recursiveIndex), recursiveIndex), recursiveIndex)
  }

  /** The PML4 entry above a 1 GiB page. */
  function RecurToHpdpePml4e(laddr: bv64, recursiveIndex: bv64): bv64 {
    RecurToPte(RecurToHpdpe(laddr, recursiveIndex), recursiveIndex)
  }

  /** Two canonical addresses with the same indices and page offset are equal. */
  lemma SameIndicesSameAddress(a: bv64, b: bv64)
    requires IsCanonical(a) && IsCanonical(b)
    requires Pml4tIndex(a) == Pml4tIndex(b) && PdptIndex(a) == PdptIndex(b)
    requires PdtIndex(a) == PdtIndex(b) && PtIndex(a) == PtIndex(b) && a & 0xFFF == b & 0xFFF
    ensures a == b
  {
    DecomposeCanonical(a);
    DecomposeCanonical(b);
  }

  /**
   * The one-step huge-page forms land on the same entries as the step-by-step
   * forms, and so do the forms built on top of them.
   */
  lemma HugeFormsAgree(laddr: bv64, recursiveIndex: bv64)
    requires recursiveIndex < 512
    ensures RecurToHpde(laddr, recursiveIndex) == RecurToPde(laddr, recursiveIndex)
    ensures RecurToHpdpe(laddr, recursiveIndex) == RecurToPdpe(laddr, recursiveIndex)
    ensures RecurToHpdePdpe(laddr, recursiveIndex) == RecurToPdpe(laddr, recursiveIndex)
    ensures RecurToHpdePml4e(laddr, recursiveIndex) == RecurToPml4e(laddr, recursiveIndex)
    ensures RecurToHpdpePml4e(laddr, recursiveIndex) == RecurToPml4e(laddr, recursiveIndex)
  {
    RecurChainIndices(laddr, recursiveIndex);
    RecurToHpdeHigh(laddr, recursiveIndex);
    RecurToHpdeLow0(laddr, recursiveIndex);
    RecurToHpdeLow1(laddr, recursiveIndex);
    RecurToHpdeLow2(laddr, recursiveIndex);
    SameIndicesSameAddress(RecurToHpde(laddr, recursiveIndex), RecurToPde(laddr, recursiveIndex));
    RecurToHpdpeHigh(laddr, recursiveIndex);
    RecurToHpdpeLow0(laddr, recursiveIndex);
    RecurToHpdpeLow1(laddr, recursiveIndex);
    RecurToHpdpeLow2(laddr, recursiveIndex);
    SameIndicesSameAddress(RecurToHpdpe(laddr, recursiveIndex), RecurToPdpe(laddr, recursiveIndex));
  }
}
