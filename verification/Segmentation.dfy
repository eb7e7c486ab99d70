/**
 * Segment selectors, GDT slot insertion and system-segment descriptors
 * (amd64/src/segmentation.rs).
 */
module Segmentation {
  import opened Wrappers
  import opened Amd64
  import opened Interrupts

  // ----- Segment selectors: RPL in bits 0..1, table indicator in bit 2, index in bits 3..15 -----

  const RPL_MASK: bv16 := 0x3
  const TABLE_SELECTOR_BIT: bv16 := 0x4

  /** The requested privilege level; two bits always decode. */
  function GetRpl(sel: bv16): (r: PrivLvl)
    ensures ToBits(r) as bv16 == sel & RPL_MASK
  {
    var bits := (sel & RPL_MASK) as bv8;
    FromBitsToBits(bits);
    FromBits(bits).value
  }

  function GetIndex(sel: bv16): bv16 {
    sel >> 3
  }

  /** Whether the selector indexes the LDT (`true`) or the GDT (`false`). */
  predicate GetTi(sel: bv16) {
    sel & TABLE_SELECTOR_BIT == TABLE_SELECTOR_BIT
  }

  /** A selector of the GDT; indices of 8192 and above lose their top bits. */
  function NewGdt(rpl: PrivLvl, index: bv16): (sel: bv16)
    ensures GetRpl(sel) == rpl && !GetTi(sel)
    ensures index < 0x2000 ==> GetIndex(sel) == index
  {
    ((ToBits(rpl) as bv16) & RPL_MASK) | (index << 3)
  }

  /** A selector of the LDT. */
  function NewLdt(rpl: PrivLvl, index: bv16): (sel: bv16)
    ensures GetRpl(sel) == rpl && GetTi(sel)
    ensures index < 0x2000 ==> GetIndex(sel) == index
  {
    ((ToBits(rpl) as bv16) & RPL_MASK) | (index << 3) | TABLE_SELECTOR_BIT
  }

  /** A selector is determined by its three fields. */
  lemma SelectorFields(sel: bv16)
    ensures sel == (ToBits(GetRpl(sel)) as bv16) | (if GetTi(sel) then TABLE_SELECTOR_BIT else 0) | (GetIndex(sel) << 3)
  {
  }

  /**
   * The selector with its RPL bits replaced: the new level is ORed in
   * unmasked, so a value above 3 spills into the TI and index bits.
   */
  function WithRpl(sel: bv16, rpl: bv8): (s: bv16)
    ensures rpl <= 3 ==> GetRpl(s) == FromBits(rpl).value
    ensures rpl <= 3 ==> GetIndex(s) == GetIndex(sel) && GetTi(s) == GetTi(sel)
  {
    RplBits(sel, rpl);
    (sel & !RPL_MASK) | (rpl as bv16)
  }

  lemma RplBits(sel: bv16, rpl: bv8)
    ensures var s := (sel & !RPL_MASK) | (rpl as bv16);
      rpl <= 3 ==>
        && (s & RPL_MASK) as bv8 == rpl
        && s >> 3 == sel >> 3
        && s & TABLE_SELECTOR_BIT == sel & TABLE_SELECTOR_BIT
  {
    var w := rpl as bv16;
    if rpl <= 3 {
      assert w <= 3;
      assert w as bv8 == rpl;
      assert w & !RPL_MASK == 0;
    }
  }

  /** A selector held in place (`SegSel`), whose setters rewrite its bits. */
  class SegSel {
    var bits: bv16

    /** `from_bits`: the selector holds exactly the word given; `to_bits` is reading `bits` back. */
    constructor FromBits(bits: bv16)
      ensures this.bits == bits
    {
      this.bits := bits;
    }

    /** `set_rpl`. */
    method SetRpl(rpl: bv8)
      modifies this
      ensures bits == WithRpl(old(bits), rpl)
      ensures rpl <= 3 ==> GetRpl(bits) == Amd64.FromBits(rpl).value
      ensures rpl <= 3 ==> GetIndex(bits) == GetIndex(old(bits)) && GetTi(bits) == GetTi(old(bits))
    {
      bits := WithRpl(bits, rpl);
    }

    /** Keeps the RPL and TI bits; the index fills bits 3..15. */
    method SetIndex(index: bv16)
      modifies this
      ensures bits & (RPL_MASK | TABLE_SELECTOR_BIT) == old(bits) & (RPL_MASK | TABLE_SELECTOR_BIT)
      ensures index < 0x2000 ==> GetIndex(bits) == index
    {
      bits := (bits & (RPL_MASK | TABLE_SELECTOR_BIT)) | (index << 3);
    }

    /** Changes bit 2 only. */
    method SetTi(ti: bool)
      modifies this
      ensures GetTi(bits) == ti && bits & !TABLE_SELECTOR_BIT == old(bits) & !TABLE_SELECTOR_BIT
    {
      if ti {
        bits := bits | TABLE_SELECTOR_BIT;
      } else {
        bits := bits & !TABLE_SELECTOR_BIT;
      }
    }
  }

  // ----- Inserting descriptors into the GDT -----

  /** Bit 47 of a descriptor: present. */
  const DESC_PRESENT: bv64 := 0x8000_0000_0000
  /** Bit 44 of a descriptor: set for code and data, clear for a system descriptor. */
  const DESC_TYPE: bv64 := 0x1000_0000_0000

  predicate Present(desc: bv64) {
    desc & DESC_PRESENT != 0
  }

  /** A code or data descriptor takes one slot; a system descriptor takes two. */
  predicate IsUserDesc(desc: bv64) {
    desc & DESC_TYPE != 0
  }

  /** A descriptor to insert: a code/data word, or a system descriptor's two words. */
  datatype SegDesc = UserSeg(seg: bv64) | SysSeg(lo: bv64, hi: bv64)

  /**
   * The slot a code or data descriptor goes to, scanning from `index`: the
   * first slot not present, skipping the second word of each system descriptor.
   */
  function UserSlot(gdt: seq<bv64>, index: nat): Option<nat>
    decreases |gdt| - index
  {
    if index >= |gdt| then None
    else if !Present(gdt[index]) then Some(index)
    else if !IsUserDesc(gdt[index]) then UserSlot(gdt, index + 2)
    else UserSlot(gdt, index + 1)
  }

  /** The slot found is in the table, at or after `index`, and not present. */
  lemma {:induction false} UserSlotFree(gdt: seq<bv64>, index: nat)
    ensures UserSlot(gdt, index).Some? ==>
      index <= UserSlot(gdt, index).value < |gdt| && !Present(gdt[UserSlot(gdt, index).value])
    decreases |gdt| - index
  {
    if index < |gdt| && Present(gdt[index]) {
      UserSlotFree(gdt, if IsUserDesc(gdt[index]) then index + 1 else index + 2);
    }
  }

  /**
   * In a table of code and data descriptors only, the slot chosen is exactly
   * the first slot not present, and there is none exactly when every slot
   * from `index` on is present.
   */
  lemma {:induction false} UserSlotFirstFree(gdt: seq<bv64>, index: nat)
    requires forall j :: index <= j < |gdt| && Present(gdt[j]) ==> IsUserDesc(gdt[j])
    ensures forall i :: UserSlot(gdt, index) == Some(i) <==>
      index <= i < |gdt| && !Present(gdt[i]) && forall j :: index <= j < i ==> Present(gdt[j])
    ensures UserSlot(gdt, index).None? <==> forall j :: index <= j < |gdt| ==> Present(gdt[j])
    decreases |gdt| - index
  {
    if index < |gdt| && Present(gdt[index]) {
      UserSlotFirstFree(gdt, index + 1);
    }
  }

  /**
   * `try_insert_into_gdt` for a system descriptor, as the source writes it:
   * on the first free slot it only notes `prev_avl` without moving on, so the
   * next round sees the same slot again and writes at `index - 1` and `index`.
   */
  function SysSlotAsWritten(gdt: seq<bv64>, index: nat, prevAvl: bool): Option<nat>
    requires index >= 1
    decreases |gdt| - index, if prevAvl then 0 else 1
  {
    if index >= |gdt| then None
    else if !Present(gdt[index]) then
      if prevAvl then Some(index - 1) else SysSlotAsWritten(gdt, index, true)
    else if !IsUserDesc(gdt[index]) then SysSlotAsWritten(gdt, index + 2, false)
    else SysSlotAsWritten(gdt, index + 1, false)
  }

  /** With slot 1 free, the as-written search hands out slot 0, the null descriptor. */
  lemma SysSlotAsWrittenTakesNull()
    ensures SysSlotAsWritten([0, 0, 0], 1, false) == Some(0)
  {
  }

  /** After a present code descriptor at slot 1, the as-written search overwrites it. */
  lemma SysSlotAsWrittenOverwritesPresent()
    ensures var gdt := [0, DESC_PRESENT | DESC_TYPE, 0];
      Present(gdt[1]) && SysSlotAsWritten(gdt, 1, false) == Some(1)
  {
    var gdt: seq<bv64> := [0, DESC_PRESENT | DESC_TYPE, 0];
    assert SysSlotAsWritten(gdt, 2, false) == SysSlotAsWritten(gdt, 2, true) == Some(1);
  }

  /**
   * The search as intended: a free slot is remembered and the scan moves on,
   * so two consecutive free slots are taken.
   */
  function SysSlot(gdt: seq<bv64>, index: nat, prevAvl: bool): Option<nat>
    requires index >= 1 && (prevAvl ==> index >= 2)
    decreases |gdt| - index
  {
    if index >= |gdt| then None
    else if !Present(gdt[index]) then
      if prevAvl then Some(index - 1) else SysSlot(gdt, index + 1, true)
    else if !IsUserDesc(gdt[index]) then SysSlot(gdt, index + 2, false)
    else SysSlot(gdt, index + 1, false)
  }

  /** The intended search returns two consecutive free slots, neither of them slot 0. */
  lemma {:induction false} SysSlotFree(gdt: seq<bv64>, index: nat, prevAvl: bool)
    requires index >= 1 && (prevAvl ==> index >= 2 && index - 1 < |gdt| && !Present(gdt[index - 1]))
    ensures var r := SysSlot(gdt, index, prevAvl);
      r.Some? ==> 1 <= r.value && r.value + 1 < |gdt| && !Present(gdt[r.value]) && !Present(gdt[r.value + 1])
    decreases |gdt| - index
  {
    if index < |gdt| {
      if !Present(gdt[index]) {
        if !prevAvl {
          SysSlotFree(gdt, index + 1, true);
        }
      } else {
        SysSlotFree(gdt, if IsUserDesc(gdt[index]) then index + 1 else index + 2, false);
      }
    }
  }

  /**
   * `SegDesc::try_insert_into_gdt`: writes the descriptor into the slot(s)
   * chosen and returns the first slot's index, or `None` (`Err(())`) when the
   * table has no room, leaving it unchanged. The system-descriptor search is
   * the corrected one.
   */
  method TryInsertIntoGdt(desc: SegDesc, gdt: array<bv64>) returns (r: Option<nat>)
    modifies gdt
    ensures desc.UserSeg? ==> r == UserSlot(old(gdt[..]), 1)
    ensures desc.UserSeg? && r.Some? ==> r.value < gdt.Length
    ensures desc.UserSeg? ==> gdt[..] == if r.Some? then old(gdt[..])[r.value := desc.seg] else old(gdt[..])
    ensures desc.SysSeg? ==> r == SysSlot(old(gdt[..]), 1, false)
    ensures desc.SysSeg? && r.Some? ==>
      r.value + 1 < gdt.Length && gdt[..] == old(gdt[..])[r.value := desc.lo][r.value + 1 := desc.hi]
    ensures r.None? ==> gdt[..] == old(gdt[..])
  {
    ghost var g := gdt[..];
    match desc {
      case UserSeg(seg) =>
        var index := 1;
        while index < gdt.Length
          invariant index >= 1
          invariant gdt[..] == g
          invariant UserSlot(g, index) == UserSlot(g, 1)
          decreases gdt.Length - index
        {
          if gdt[index] & DESC_PRESENT == 0 {
            gdt[index] := seg;
            return Some(index);
          } else if gdt[index] & DESC_TYPE == 0 {
            index := index + 2;
          } else {
            index := index + 1;
          }
        }
        return None;
      case SysSeg(lo, hi) =>
        var index := 1;
        var prevAvl := false;
        while index < gdt.Length
          invariant index >= 1 && (prevAvl ==> 2 <= index <= |g| && !Present(g[index - 1]))
          invariant gdt[..] == g
          invariant SysSlot(g, index, prevAvl) == SysSlot(g, 1, false)
          decreases gdt.Length - index
        {
          if gdt[index] & DESC_PRESENT == 0 {
            if prevAvl {
              gdt[index - 1] := lo;
              gdt[index] := hi;
              return Some(index - 1);
            } else {
              prevAvl := true;
              index := index + 1;
            }
          } else if gdt[index] & DESC_TYPE == 0 {
            prevAvl := false;
            index := index + 2;
          } else {
            prevAvl := false;
            index := index + 1;
          }
        }
        return None;
    }
  }
}

/** System-segment descriptors (`SysSegDesc`), such as the descriptor of a task state segment. */
module SystemSegments {
  import opened Wrappers
  import opened Amd64
  import opened Interrupts
  import opened Segmentation

  const SYS_GRANULARITY: bv8 := 0x80
  const SYS_LIMIT_MASK: bv8 := 0x0F

  /** The 20-bit limit held in the low limit field and the low nibble of `g_limit_hi`. */
  function LimitOf(limitLo: bv16, gLimitHi: bv8): bv32 {
    (limitLo as bv32) | (((gLimitHi & SYS_LIMIT_MASK) as bv32) << 16)
  }

  /** `g_limit_hi` as `SysSegDesc::new` computes it: only three of the four high limit bits are kept. */
  function NewLimitHiAsWritten(limit: bv32, pageGranularity: bool): bv8 {
    (((limit >> 16) & 0x7) as bv8) | (if pageGranularity then SYS_GRANULARITY else 0)
  }

  /** A limit with bit 19 set comes back without it. */
  lemma NewLimitHiAsWrittenDropsBit19()
    ensures LimitOf(0, NewLimitHiAsWritten(0x8_0000, false)) == 0
  {
  }

  /** `g_limit_hi` as intended: all four high limit bits and the granularity flag. */
  function NewLimitHi(limit: bv32, pageGranularity: bool): (r: bv8)
    ensures limit < 0x10_0000 ==> LimitOf((limit & 0xFFFF) as bv16, r) == limit
    ensures (r & SYS_GRANULARITY == SYS_GRANULARITY) == pageGranularity
  {
    (((limit >> 16) & 0xF) as bv8) | (if pageGranularity then SYS_GRANULARITY else 0)
  }

  /** The 64-bit base spread over four fields. */
  function BaseOf(baseLo: bv16, baseMid0: bv8, baseMid1: bv8, baseHi: bv32): bv64 {
    (baseLo as bv64) | ((baseMid0 as bv64) << 16) | ((baseMid1 as bv64) << 24) | ((baseHi as bv64) << 32)
  }

  /** Splitting a base into the four fields and joining them again gives it back. */
  lemma {:induction false} BaseRoundTrip(base: bv64)
    ensures BaseOf((base & 0xFFFF) as bv16, ((base >> 16) & 0xFF) as bv8, ((base >> 24) & 0xFF) as bv8, (base >> 32) as bv32) == base
  {
    assert (base & 0xFFFF) as bv16 as bv64 == base & 0xFFFF;
    assert (((base >> 16) & 0xFF) as bv8 as bv64) << 16 == base & 0xFF_0000;
    assert (((base >> 24) & 0xFF) as bv8 as bv64) << 24 == base & 0xFF00_0000;
  }

  /** The two words of a descriptor, low then high. */
  datatype Words = Words(lo: bv64, hi: bv64)

  class SysSegDesc {
    var limitLo: bv16
    var baseLo: bv16
    var baseMid0: bv8
    var flags: bv8
    var gLimitHi: bv8
    var baseMid1: bv8
    var baseHi: bv32
    var reserved: bv32

    /**
     * `SysSegDesc::new`, with the limit's bit 19 kept. The type is not
     * checked: any system-segment type is accepted.
     */
    constructor New(base: bv64, limit: bv32, ssdt: Ssdt, privilege: PrivLvl, pageGranularity: bool)
      ensures GetBase() == base
      ensures limit < 0x10_0000 ==> GetLimit() == limit
      ensures GetPageGranularity() == pageGranularity
      ensures GetSsdt() == Ok(ssdt) && GetDpl() == privilege && IsPresent()
      ensures !IsUserDesc(ToBits().lo) && reserved == 0
    {
      limitLo := (limit & 0xFFFF) as bv16;
      baseLo := (base & 0xFFFF) as bv16;
      baseMid0 := ((base >> 16) & 0xFF) as bv8;
      flags := GateFlags(ssdt, privilege);
      gLimitHi := NewLimitHi(limit, pageGranularity);
      baseMid1 := ((base >> 24) & 0xFF) as bv8;
      baseHi := (base >> 32) as bv32;
      reserved := 0;
      new;
      BaseRoundTrip(base);
      FlagsInLowWord(this);
    }

    /** `from_bits_unchecked`: reads the fields back out of the two words. */
    constructor FromBitsUnchecked(w: Words)
      ensures ToBits() == w
    {
      limitLo := (w.lo & 0xFFFF) as bv16;
      baseLo := ((w.lo >> 16) & 0xFFFF) as bv16;
      baseMid0 := ((w.lo >> 32) & 0xFF) as bv8;
      flags := ((w.lo >> 40) & 0xFF) as bv8;
      gLimitHi := ((w.lo >> 48) & 0xFF) as bv8;
      baseMid1 := (w.lo >> 56) as bv8;
      baseHi := (w.hi & 0xFFFF_FFFF) as bv32;
      reserved := (w.hi >> 32) as bv32;
    }

    /** The descriptor as the two words the GDT holds (fields laid out in declaration order, little-endian). */
    function ToBits(): Words
      reads this
    {
      Words((limitLo as bv64) | ((baseLo as bv64) << 16) | ((baseMid0 as bv64) << 32)
          | ((flags as bv64) << 40) | ((gLimitHi as bv64) << 48) | ((baseMid1 as bv64) << 56),
        (baseHi as bv64) | ((reserved as bv64) << 32))
    }

    function GetBase(): bv64
      reads this
    {
      BaseOf(baseLo, baseMid0, baseMid1, baseHi)
    }

    method SetBase(base: bv64)
      modifies this
      ensures GetBase() == base
      ensures limitLo == old(limitLo) && flags == old(flags) && gLimitHi == old(gLimitHi) && reserved == old(reserved)
    {
      baseLo := (base & 0xFFFF) as bv16;
      baseMid0 := ((base >> 16) & 0xFF) as bv8;
      baseMid1 := ((base >> 24) & 0xFF) as bv8;
      baseHi := (base >> 32) as bv32;
      BaseRoundTrip(base);
    }

    function GetLimit(): bv32
      reads this
    {
      LimitOf(limitLo, gLimitHi)
    }

    /**
     * `set_limit` ORs in the limit's bits 16..23 unmasked: a limit of 2^20
     * or more spills into the granularity flag.
     */
    method SetLimit(limit: bv32)
      modifies this
      ensures limitLo == (limit & 0xFFFF) as bv16
      ensures gLimitHi == (old(gLimitHi) & !SYS_LIMIT_MASK) | ((limit >> 16) & 0xFF) as bv8
      ensures limit < 0x10_0000 ==> GetLimit() == limit && GetPageGranularity() == old(GetPageGranularity())
      ensures GetBase() == old(GetBase()) && flags == old(flags) && reserved == old(reserved)
    {
      limitLo := (limit & 0xFFFF) as bv16;
      gLimitHi := (gLimitHi & !SYS_LIMIT_MASK) | ((limit >> 16) & 0xFF) as bv8;
    }

    /** The type in the low nibble of the flags; a nibble naming no type panics. */
    function GetSsdt(): Result<Ssdt>
      reads this
    {
      SsdtFromBits(flags & GATE_SSDT_MASK)
    }

    /** Panics unless the type is an interrupt or trap gate. */
    method SetSsdt(ssdt: Ssdt) returns (r: Result<()>)
      modifies this
      ensures r.Ok? <==> IsIntTrapType(ssdt)
      ensures r.Ok? ==> GetSsdt() == Ok(ssdt) && flags & !GATE_SSDT_MASK == old(flags) & !GATE_SSDT_MASK
      ensures r.Panic? ==> flags == old(flags)
      ensures GetBase() == old(GetBase()) && GetLimit() == old(GetLimit()) && gLimitHi == old(gLimitHi)
    {
      if !IsIntTrapType(ssdt) {
        return Panic;
      }
      flags := (flags & !GATE_SSDT_MASK) | SsdtToBits(ssdt);
      return Ok(());
    }

    function GetDpl(): PrivLvl
      reads this
    {
      DplOfFlags(flags)
    }

    /** Writes the level into bits 5..6 of the flags (the source omits the shift). */
    method SetDpl(dpl: PrivLvl)
      modifies this
      ensures GetDpl() == dpl && flags & !GATE_DPL_MASK == old(flags) & !GATE_DPL_MASK
      ensures GetBase() == old(GetBase()) && GetLimit() == old(GetLimit()) && gLimitHi == old(gLimitHi)
    {
      flags := FlagsWithDpl(flags, dpl);
    }

    predicate IsPresent()
      reads this
    {
      flags & GATE_FLAG_PRESENT == GATE_FLAG_PRESENT
    }

    method SetPresent(present: bool)
      modifies this
      ensures IsPresent() == present && flags & !GATE_FLAG_PRESENT == old(flags) & !GATE_FLAG_PRESENT
      ensures GetBase() == old(GetBase()) && GetLimit() == old(GetLimit()) && gLimitHi == old(gLimitHi)
    {
      if present {
        flags := flags | GATE_FLAG_PRESENT;
      } else {
        flags := flags & !GATE_FLAG_PRESENT;
      }
    }

    predicate GetPageGranularity()
      reads this
    {
      gLimitHi & SYS_GRANULARITY == SYS_GRANULARITY
    }

    method SetPageGranularity(pageGranularity: bool)
      modifies this
      ensures GetPageGranularity() == pageGranularity
      ensures gLimitHi & !SYS_GRANULARITY == old(gLimitHi) & !SYS_GRANULARITY
      ensures GetBase() == old(GetBase()) && GetLimit() == old(GetLimit()) && flags == old(flags)
    {
      if pageGranularity {
        gLimitHi := gLimitHi | SYS_GRANULARITY;
      } else {
        gLimitHi := gLimitHi & !SYS_GRANULARITY;
      }
    }
  }

  /**
   * In the low word, the descriptor's present flag is bit 47 and its
   * system/user bit is bit 44: what the GDT search reads.
   */
  lemma FlagsInLowWord(d: SysSegDesc)
    ensures Present(d.ToBits().lo) == d.IsPresent()
    ensures IsUserDesc(d.ToBits().lo) == (d.flags & 0x10 != 0)
  {
  }
}
