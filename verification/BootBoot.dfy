/**
 * The BOOTBOOT hand-over information (kernel/src/bootboot.rs): the layout
 * constants, the memory map's usable regions and the environment text.
 * Memory the bootloader left behind is passed in: the memory-map entries
 * as an array, the probe's verdict for each entry as a sequence (the
 * volatile write-and-read-back is hardware behaviour), and the 4096
 * environment bytes as a sequence.
 */
module BootBoot {
  import opened Wrappers

  type byte = x: int | 0 <= x < 0x100

  const BOOTBOOT_MAGIC: seq<byte> := [0x42, 0x4f, 0x4f, 0x54]

  const PROTOCOL_MINIMAL: byte := 0
  const PROTOCOL_STATIC: byte := 1
  const PROTOCOL_DYNAMIC: byte := 2
  const PROTOCOL_BIGENDIAN: byte := 128

  const LOADER_BIOS: bv32 := 0
  const LOADER_UEFI: bv32 := 4
  const LOADER_RPI: bv32 := 8

  /** The framebuffer formats, as the loader reports them (reversed from its header file). */
  const FB_ARGB: byte := 3
  const FB_RGBA: byte := 2
  const FB_ABGR: byte := 1
  const FB_BGRA: byte := 0

  const MMAP_DATA_SIZE_MASK: bv64 := 0xffff_ffff_ffff_fff0
  const MMAP_DATA_TYPE_MASK: bv64 := 0xf
  const MMAP_USED: bv64 := 0
  const MMAP_FREE: bv64 := 1
  const MMAP_ACPI: bv64 := 2
  const MMAP_MMIO: bv64 := 3

  const FRAMEBUFFER: int := 0xffff_ffff_fc00_0000
  const BOOTBOOT: int := 0xffff_ffff_ffe0_0000
  const ENV_CFG: int := 0xffff_ffff_ffe0_1000
  const ENV_CFG_LEN: nat := 4096

  /**
   * `size_of::<BootBoot>()` of the packed structure: 64 bytes of fields,
   * the 64-byte x86-64 platform block and the first memory-map entry.
   */
  const BOOTBOOT_SIZE: nat := 4 + 4 + 1 + 1 + 2 + 2 + 2 + 8 + 8 + 8 + 8 + 4 + 4 + 4 + 4 + 64 + 16

  /** `size_of::<MMapEntry>()`. */
  const MMAP_ENTRY_SIZE: nat := 16

  /** `BOOTBOOT.wrapping_offset(1)`: the memory map starts one whole structure past the header. */
  const MMAP: int := BOOTBOOT + BOOTBOOT_SIZE

  datatype MMapEntry = MMapEntry(ptr: bv64, data: bv64)

  /** A usable region: its base and its size in bytes. */
  datatype Region = Region(base: bv64, size: bv64)

  predicate IsFree(e: MMapEntry) {
    e.data & MMAP_FREE != 0
  }

  /** `data & !MMAP_FREE`: the entry's data with the free flag cleared. */
  function ClearFree(data: bv64): (d: bv64)
    ensures d & 1 == 0
    ensures d & !1 == data & !1
  {
    data & !MMAP_FREE
  }

  /**
   * The number of entries `mmap_available_iter` reads: the bytes of the
   * reported size past the structure, in whole entries. A size smaller
   * than the structure underflows, which panics.
   */
  function MmapLen(size: bv32): (r: Result<nat>)
    ensures r.Panic? <==> (size as int) < BOOTBOOT_SIZE
    ensures r.Ok? ==> BOOTBOOT_SIZE + MMAP_ENTRY_SIZE * r.value <= size as int
    ensures r.Ok? ==> (size as int) < BOOTBOOT_SIZE + MMAP_ENTRY_SIZE * (r.value + 1)
  {
    if (size as int) < BOOTBOOT_SIZE then Panic
    else Ok((size as int - BOOTBOOT_SIZE) / MMAP_ENTRY_SIZE)
  }

  /** An entry whose free flag failed the probe, with the flag cleared. */
  function Probed(e: MMapEntry, usable: bool): (p: MMapEntry)
    ensures p.ptr == e.ptr
    ensures IsFree(p) <==> IsFree(e) && usable
    ensures ClearFree(p.data) == ClearFree(e.data)
  {
    if IsFree(e) && !usable then MMapEntry(e.ptr, ClearFree(e.data)) else e
  }

  /**
   * The probe loop of `mmap_available_iter`: every free entry whose
   * write-and-read-back test fails (`usable[i]` false) loses its free flag
   * in place; no other entry and no other bit changes.
   */
  method ProbeEntries(mmap: array<MMapEntry>, n: nat, usable: seq<bool>)
    requires n <= mmap.Length && |usable| == mmap.Length
    modifies mmap
    ensures forall i :: 0 <= i < n ==> mmap[i] == Probed(old(mmap[i]), usable[i])
    ensures forall i :: n <= i < mmap.Length ==> mmap[i] == old(mmap[i])
  {
    var i := 0;
    while i < n
      invariant 0 <= i <= n
      invariant forall k :: 0 <= k < i ==> mmap[k] == Probed(old(mmap[k]), usable[k])
      invariant forall k :: i <= k < mmap.Length ==> mmap[k] == old(mmap[k])
    {
      if IsFree(mmap[i]) && !usable[i] {
        mmap[i] := MMapEntry(mmap[i].ptr, ClearFree(mmap[i].data));
      }
      i := i + 1;
    }
  }

  /** The region an entry describes: its base, and its size with the type bits masked off. */
  function RegionOf(e: MMapEntry): (r: Region)
    ensures r.base == e.ptr && r.size & MMAP_DATA_TYPE_MASK == 0
  {
    Region(e.ptr, e.data & MMAP_DATA_SIZE_MASK)
  }

  /** The filter and map of `mmap_available_iter`: the regions of the free entries, in map order. */
  function Available(entries: seq<MMapEntry>): (r: seq<Region>)
    ensures |r| <= |entries|
    ensures forall k :: 0 <= k < |r| ==> r[k].size & MMAP_DATA_TYPE_MASK == 0
  {
    if |entries| == 0 then []
    else if IsFree(entries[0]) then [RegionOf(entries[0])] + Available(entries[1..])
    else Available(entries[1..])
  }

  /** A region is yielded exactly when some free entry describes it. */
  lemma {:induction false} AvailableMembers(entries: seq<MMapEntry>, r: Region)
    ensures r in Available(entries) <==> exists k :: 0 <= k < |entries| && IsFree(entries[k]) && RegionOf(entries[k]) == r
    decreases |entries|
  {
    if |entries| > 0 {
      AvailableMembers(entries[1..], r);
      var tail := entries[1..];
      if exists k :: 0 <= k < |tail| && IsFree(tail[k]) && RegionOf(tail[k]) == r {
        var k :| 0 <= k < |tail| && IsFree(tail[k]) && RegionOf(tail[k]) == r;
        assert entries[k + 1] == tail[k];
      }
      if exists k :: 0 <= k < |entries| && IsFree(entries[k]) && RegionOf(entries[k]) == r {
        var k :| 0 <= k < |entries| && IsFree(entries[k]) && RegionOf(entries[k]) == r;
        if k > 0 {
          assert tail[k - 1] == entries[k];
        }
      }
    }
  }

  /** Every free entry contributes one region: the count is the number of free entries. */
  function FreeCount(entries: seq<MMapEntry>): nat {
    if |entries| == 0 then 0 else (if IsFree(entries[0]) then 1 else 0) + FreeCount(entries[1..])
  }

  lemma {:induction false} AvailableCount(entries: seq<MMapEntry>)
    ensures |Available(entries)| == FreeCount(entries)
    decreases |entries|
  {
    if |entries| > 0 {
      AvailableCount(entries[1..]);
    }
  }

  /**
   * `mmap_available_iter`: the entry count from the header's size, the
   * probe over those entries, then the regions of the entries still free.
   * The entries are the first `MmapLen(size)` elements of `mmap`.
   */
  method MmapAvailableIter(size: bv32, mmap: array<MMapEntry>, usable: seq<bool>) returns (r: Result<seq<Region>>)
    requires |usable| == mmap.Length
    requires (size as int) >= BOOTBOOT_SIZE ==> MmapLen(size).value <= mmap.Length
    modifies mmap
    ensures r.Panic? <==> (size as int) < BOOTBOOT_SIZE
    ensures r.Panic? ==> unchanged(mmap)
    ensures r.Ok? ==>
      var len := MmapLen(size).value;
      && (forall i :: 0 <= i < len ==> mmap[i] == Probed(old(mmap[i]), usable[i]))
      && (forall i :: len <= i < mmap.Length ==> mmap[i] == old(mmap[i]))
      && r.value == Available(mmap[..len])
  {
    var len := MmapLen(size);
    if len.Panic? {
      return Panic;
    }
    var n := len.value;
    ProbeEntries(mmap, n, usable);
    r := Ok(Available(mmap[..n]));
  }

  /** After the probe, the yielded regions are those of the entries that were free and passed it. */
  lemma ProbedRegions(entries: seq<MMapEntry>, usable: seq<bool>, probed: seq<MMapEntry>, r: Region)
    requires |usable| == |entries| == |probed|
    requires forall k :: 0 <= k < |entries| ==> probed[k] == Probed(entries[k], usable[k])
    ensures r in Available(probed) <==>
      exists k :: 0 <= k < |entries| && IsFree(entries[k]) && usable[k] && RegionOf(entries[k]) == r
  {
    AvailableMembers(probed, r);
    forall k | 0 <= k < |entries| ensures RegionOf(probed[k]) == RegionOf(entries[k]) {
      SizeIgnoresFree(entries[k].data);
    }
    if r in Available(probed) {
      var k :| 0 <= k < |probed| && IsFree(probed[k]) && RegionOf(probed[k]) == r;
      assert IsFree(entries[k]) && usable[k] && RegionOf(entries[k]) == r;
    }
    if exists k :: 0 <= k < |entries| && IsFree(entries[k]) && usable[k] && RegionOf(entries[k]) == r {
      var k :| 0 <= k < |entries| && IsFree(entries[k]) && usable[k] && RegionOf(entries[k]) == r;
      assert IsFree(probed[k]) && RegionOf(probed[k]) == r;
    }
  }

  /** Clearing the free flag leaves the size bits alone. */
  lemma SizeIgnoresFree(data: bv64)
    ensures ClearFree(data) & MMAP_DATA_SIZE_MASK == data & MMAP_DATA_SIZE_MASK
  {
  }

  /**
   * `env_cfg_as_str`: the environment text is the bytes before the first
   * NUL of the 4096-byte area, or all of them when it holds none.
   */
  method EnvCfgLen(env: seq<byte>) returns (len: nat)
    requires |env| == ENV_CFG_LEN
    ensures len <= ENV_CFG_LEN
    ensures forall k :: 0 <= k < len ==> env[k] != 0
    ensures len < ENV_CFG_LEN ==> env[len] == 0
  {
    len := 0;
    while len < ENV_CFG_LEN && env[len] != 0
      invariant len <= ENV_CFG_LEN
      invariant forall k :: 0 <= k < len ==> env[k] != 0
    {
      len := len + 1;
    }
  }

  /** The text itself: the bytes before that NUL, read as characters. */
  method EnvCfgAsStr(env: seq<byte>) returns (text: string)
    requires |env| == ENV_CFG_LEN
    ensures |text| <= ENV_CFG_LEN
    ensures forall k :: 0 <= k < |text| ==> text[k] as int == env[k] && env[k] != 0
    ensures |text| < ENV_CFG_LEN ==> env[|text|] == 0
  {
    var len := EnvCfgLen(env);
    text := [];
    var i := 0;
    while i < len
      invariant 0 <= i <= len && |text| == i
      invariant forall k :: 0 <= k < i ==> text[k] as int == env[k]
    {
      text := text + [env[i] as char];
      i := i + 1;
    }
  }
}
