# A verified model of the kernel's core logic

This project models, in Dafny, the sequential logic of a small x86-64 kernel
that is booted through the BOOTBOOT protocol, and proves properties of that
model. It covers these parts:

- the two buddy allocators: the current `Talloc` of `kernel/src/memm/talloc.rs`
  (module `TallocNew`) and the earlier one of `kernel/src/memman/talloc.rs`
  (module `TallocOld`). Each keeps power-of-two free lists per granularity,
  the `avails` bitmask of non-empty lists and a parity bit per buddy pair;
- the intrusive circular list both allocators thread through free memory
  (`Llist`), modelled as `next`/`prev` maps;
- the bit-range copy `copy_slice_bits` (`CopyBits`);
- the physical-memory free list kept in descending order of size (`PhysMem`);
- the encoders and decoders of x86-64 structures: page-table indices,
  entries and recursive addresses (`Paging`); privilege levels (`Amd64`);
  segment selectors, GDT slot insertion and system-segment descriptors
  (`Segmentation`, `SystemSegments`); IDT gates and call gates
  (`Interrupts`); and CPUID register decoding (`CpuId`);
- the page-table mapper's address macros, PAT encoding, span rounding and
  the table walk of `map_offset` (`Memm`);
- the PSF font header and glyph lookup (`Psf`), the `key=hex` boot
  configuration (`BootCfg`), and the BOOTBOOT memory map and environment
  string (`BootBoot`);
- the framebuffer's pixel, rectangle, bitmap and block-transfer writes
  (`FrameBuffer`) and the text terminal on top of it (`Terminal`).

Pure code is modelled as functions over datatypes, with lemmas relating
them. Code that updates state in place is modelled as classes whose methods
change their fields or an `array` in loops. Each such method is proved
against a specification function, and the properties are proved about
those functions. `Wrappers` holds `Option` and `Result`. A Rust panic,
whether from an `assert!`, a `debug_assert!`, an `unwrap` or integer
overflow in a debug build, is a `Panic` result. The exceptions are named
under "Left out": `CopyBits.CopySliceBits` and the two `RemoveBlockSpec`s
require inputs that the source rejects with a panic or leaves undefined,
and `PhysMem` computes its `u64` sums without bounds.
`Powers` holds the power-of-two helpers and `Arith` small arithmetic facts.

## Model

| member | source | states |
|---|---|---|
| Amd64.ToBits | amd64/src/lib.rs:26-50 | the encoding of a level is at most 3 and decodes back to the same level |
| Amd64.FromBits | amd64/src/lib.rs:37-45 | decoding succeeds exactly for the codes 0..3; any other byte panics |
| Amd64.FromBitsToBits | amd64/src/lib.rs:37-50 | encoding the level decoded from a valid code gives the code back |
| Amd64.IsUserlandBits | amd64/src/lib.rs:52-54 | a level is userland exactly when its encoding is 3 (ring 3) |
| Powers.LeadingZeros | kernel/src/memman/talloc.rs:21-35 | `leading_zeros` of a `u64` is at most 64 and, for a nonzero value, 63 minus the position of its highest set bit |
| Powers.FastLog2Bounds | kernel/src/memman/talloc.rs:19-22 | `fast_non0_log2` is the base-2 logarithm: 2 to it is at most the value and 2 to it plus one is above it |
| Powers.PrevPow2Bounds | kernel/src/memman/talloc.rs:26-29 | `fast_non0_prev_pow2(v)` is a power of two with result ≤ v < 2·result |
| Powers.PrevPow2OfPow2 | kernel/src/memman/talloc.rs:26-29 | `fast_non0_prev_pow2` leaves a power of two unchanged |
| Powers.PrevPow2AtLeast | kernel/src/memman/talloc.rs:26-29 | `fast_non0_prev_pow2(v)` is at least every power of two up to v, so it is the largest one |
| Powers.NextPow2Bounds | kernel/src/memman/talloc.rs:33-36 | `fast_non0_next_pow2(v)` is a power of two with v ≤ result < 2·v |
| Powers.NextPow2Log | kernel/src/memman/talloc.rs:33-36 | for v ≥ 2, `fast_non0_next_pow2(v)` is 2 to the logarithm of v − 1, plus one |
| Powers.NextPow2Least | kernel/src/memman/talloc.rs:33-36 | `fast_non0_next_pow2(v)` is at most every power of two that is at least v, so it is the smallest one |
| Powers.OrBounds | kernel/src/memman/talloc.rs:513-517 | the bitwise or of two values is at least each and stays below any power of two both are below |
| Powers.OrOfPowers | kernel/src/memman/talloc.rs:513-517 | the highest set bit of the or of three powers of two is the largest of them, which is what `fast_non0_prev_pow2` of the or picks |
| Powers.TrailingZerosDivides | kernel/src/memman/talloc.rs:370-371 | `1 << trailing_zeros(x)` divides x and leaves an odd quotient |
| Powers.TrailingZerosOf | kernel/src/memman/talloc.rs:370-371 | 2^k times an odd number has exactly k trailing zeros |
| Powers.TrailingZerosLeast | kernel/src/memman/talloc.rs:370-371 | a nonzero multiple of 2^k has at least k trailing zeros |
| Paging.PtIndex | amd64/src/paging.rs:13-25 | the page-table index of an address is below 512 |
| Paging.PdtIndex | amd64/src/paging.rs:14-30 | the page-directory index of an address is below 512 |
| Paging.PdptIndex | amd64/src/paging.rs:15-35 | the directory-pointer index of an address is below 512 |
| Paging.Pml4tIndex | amd64/src/paging.rs:16-40 | the PML4 index of an address is below 512 |
| Paging.ComposeIndices | amd64/src/paging.rs:13-40 | the four extractors read back each index, and the page offset, of an address built from them, which is canonical |
| Paging.DecomposeCanonical | amd64/src/paging.rs:13-40 | a canonical address is the address built from its four indices and its page offset |
| Paging.FromPaddr | amd64/src/paging.rs:101-127 | `from_paddr` succeeds exactly for page-aligned addresses below 2^52 and panics otherwise |
| Paging.GetPaddr | amd64/src/paging.rs:101-132 | `get_paddr` gives a page-aligned address below 2^52 |
| Paging.PaddrRoundTrip | amd64/src/paging.rs:120-132 | `get_paddr(from_paddr(p)) == p` for every valid p |
| Paging.RecurToPteHigh | amd64/src/paging.rs:138-146 | `recur_to_pte` gives a canonical, 8-byte-aligned address whose PML4 index is the recursive index |
| Paging.RecurToPteMiddle | amd64/src/paging.rs:138-146 | `recur_to_pte` moves the PML4 and directory-pointer indices of its input down to the directory-pointer and directory indices |
| Paging.RecurToPteLow | amd64/src/paging.rs:138-146 | `recur_to_pte` moves the directory index down to the page-table index and makes the page-table index the byte offset of an 8-byte entry |
| Paging.RecurToPteIndices | amd64/src/paging.rs:138-146 | every index moves one level down, the recursive index enters at the top, and the result addresses an 8-byte entry |
| Paging.RecurChainIndices | amd64/src/paging.rs:148-201 | `recur_to_pde`, `recur_to_pdpe` and `recur_to_pml4e`, two to four steps of `recur_to_pte`, move the indices down two to four levels with the recursive index filling the top levels |
| Paging.RecurToHpdeHigh | amd64/src/paging.rs:154-160 | `recur_to_hpde` is canonical with the recursive index in its two top levels |
| Paging.RecurToHpdeLow0 | amd64/src/paging.rs:154-160 | `recur_to_hpde` puts the input's PML4 index in the directory index |
| Paging.RecurToHpdeLow1 | amd64/src/paging.rs:154-160 | `recur_to_hpde` puts the input's directory-pointer index in the page-table index |
| Paging.RecurToHpdeLow2 | amd64/src/paging.rs:154-160 | `recur_to_hpde` makes the input's directory index the byte offset of an 8-byte entry |
| Paging.RecurToHpdpeHigh | amd64/src/paging.rs:182-188 | `recur_to_hpdpe` is canonical with the recursive index in its two top levels |
| Paging.RecurToHpdpeLow0 | amd64/src/paging.rs:182-188 | `recur_to_hpdpe` has the recursive index as its directory index too |
| Paging.RecurToHpdpeLow1 | amd64/src/paging.rs:182-188 | `recur_to_hpdpe` puts the input's PML4 index in the page-table index |
| Paging.RecurToHpdpeLow2 | amd64/src/paging.rs:182-188 | `recur_to_hpdpe` makes the input's directory-pointer index the byte offset of an 8-byte entry |
| Paging.SameIndicesSameAddress | amd64/src/paging.rs:13-40 | two canonical addresses with the same four indices and page offset are equal |
| Paging.HugeFormsAgree | amd64/src/paging.rs:148-221 | the one-step huge-page forms `recur_to_hpde` and `recur_to_hpdpe`, and the forms built on them, give the same addresses as the step-by-step `recur_to_pde`, `recur_to_pdpe` and `recur_to_pml4e` |
| Interrupts.SsdtToBits | amd64/src/interrupts.rs:90-99 | each descriptor type's four-bit code decodes back to the same type |
| Interrupts.SsdtFromBits | amd64/src/interrupts.rs:101-112 | `Ssdt::from_bits` succeeds exactly for the six listed codes and panics on every other byte |
| Interrupts.SsdtBitsRoundTrip | amd64/src/interrupts.rs:90-112 | encoding the type decoded from a valid code gives the code back |
| Interrupts.GateFlags | amd64/src/interrupts.rs:83-85 | the flag byte `new` builds decodes to the given type and DPL, has the present bit set and bit 4 clear |
| Interrupts.DplOfFlags | amd64/src/interrupts.rs:233-236 | `get_dpl` reads bits 5..6: the level's encoding shifted to bit 5 is the flags masked by the DPL mask |
| Interrupts.SetDplAsWrittenLosesLevel | amd64/src/interrupts.rs:237-240 | `set_dpl` as written, applied with ring 1 to a present ring-0 interrupt gate, leaves the DPL at ring 0 and turns the gate into a trap gate |
| Interrupts.FlagsWithDpl | amd64/src/interrupts.rs:237-240 | the intended `set_dpl` makes the DPL field the given level and keeps every other bit |
| Interrupts.TargetRoundTrip | amd64/src/interrupts.rs:181-201 | splitting a handler address into the low, middle and high fields and joining them (`get_target`) gives the address back |
| Interrupts.IntTrapGate.Init | amd64/src/interrupts.rs:180-189 | the `IntTrapGate { .. }` literal that `missing` and `new` build: the gate holds exactly the fields given, with `reserved` 0 |
| Interrupts.IntTrapGate.Missing | amd64/src/interrupts.rs:146-165 | `missing` panics unless the type is an interrupt or trap gate; otherwise the gate is absent, of that type, with target 0, selector 0, ring 0, IST 0 and `reserved` 0 |
| Interrupts.IntTrapGate.New | amd64/src/interrupts.rs:167-190 | `new` panics unless the type is an interrupt or trap gate and the IST is at most 7; otherwise the gate is present with the given target, selector, type, DPL and IST, and `reserved` 0 |
| Interrupts.IntTrapGate.SetTarget | amd64/src/interrupts.rs:192-201 | after `set_target`, `get_target` is the new address and selector, IST, flags and `reserved` are unchanged |
| Interrupts.IntTrapGate.SetIst | amd64/src/interrupts.rs:203-215 | `set_ist` panics exactly for an index above 7 and leaves the gate unchanged then; otherwise `ist` is the new index; target, selector, flags and `reserved` are unchanged |
| Interrupts.IntTrapGate.SetSsdt | amd64/src/interrupts.rs:217-231 | `set_ssdt` panics exactly for a type that is no gate and leaves the flags then; otherwise `get_ssdt` is the new type and only the type bits changed; target, selector, IST and `reserved` are unchanged |
| Interrupts.IntTrapGate.SetDpl | amd64/src/interrupts.rs:233-240 | the corrected `set_dpl` makes `get_dpl` the new level and changes only the DPL bits; target, selector, IST and `reserved` are unchanged |
| Interrupts.IntTrapGate.SetPresent | amd64/src/interrupts.rs:242-253 | `set_present` makes `is_present` the given value and changes only bit 7 of the flags; target, selector, IST and `reserved` are unchanged |
| Interrupts.CallGateDesc.Missing | amd64/src/interrupts.rs:305-316 | `missing` is an absent call gate with target 0, selector 0, ring 0 and both reserved fields 0 |
| Interrupts.CallGateDesc.New | amd64/src/interrupts.rs:318-329 | `new` is a present call gate with the given target, selector and DPL, and both reserved fields 0 |
| Interrupts.CallGateDesc.SetTarget | amd64/src/interrupts.rs:331-340 | after `set_target`, `get_target` is the new address; selector, flags and both reserved fields unchanged |
| Interrupts.CallGateDesc.SetDpl | amd64/src/interrupts.rs:342-349 | the corrected `set_dpl` makes `get_dpl` the new level and changes only the DPL bits; target, selector and both reserved fields unchanged |
| Interrupts.CallGateDesc.SetPresent | amd64/src/interrupts.rs:351-362 | `set_present` makes `is_present` the given value and changes only bit 7 of the flags; target, selector and both reserved fields unchanged |
| Segmentation.GetRpl | amd64/src/segmentation.rs:41-44 | `get_rpl` decodes the two RPL bits, and the level it returns encodes back to exactly those bits |
| Segmentation.NewGdt | amd64/src/segmentation.rs:27-29 | `new_gdt` gives a selector with the requested RPL and the TI bit clear, whose index is the one given when it fits in 13 bits |
| Segmentation.NewLdt | amd64/src/segmentation.rs:30-32 | `new_ldt` gives a selector with the requested RPL and the TI bit set, whose index is the one given when it fits in 13 bits |
| Segmentation.SelectorFields | amd64/src/segmentation.rs:18-63 | a selector is exactly its RPL, TI bit and index put back together, so the three getters lose nothing |
| Segmentation.WithRpl | amd64/src/segmentation.rs:45-48 | replacing the RPL with a level of at most 3 gives that level and keeps the index and TI bit |
| Segmentation.RplBits | amd64/src/segmentation.rs:45-48 | the bit-level fact behind `set_rpl`: the new low two bits are the level and bits 2..15 are unchanged |
| Segmentation.SegSel.FromBits | amd64/src/segmentation.rs:34-39 | `SegSel::from_bits` holds exactly the word given, so `to_bits` gives it back |
| Segmentation.SegSel.SetRpl | amd64/src/segmentation.rs:45-48 | the selector is rewritten in place to the RPL-replaced word; a valid level is read back and the index and TI bit are kept |
| Segmentation.SegSel.SetIndex | amd64/src/segmentation.rs:54-57 | `set_index` keeps the RPL and TI bits and stores an index that fits in 13 bits |
| Segmentation.SegSel.SetTi | amd64/src/segmentation.rs:64-72 | `set_ti` sets or clears bit 2 as asked and changes no other bit |
| Segmentation.UserSlotFree | amd64/src/segmentation.rs:97-111 | a slot the code/data search returns lies in the table, at or after the start, and is not present |
| Segmentation.UserSlotFirstFree | amd64/src/segmentation.rs:97-111 | over a table of code and data descriptors, the search returns exactly the first slot not present, and nothing exactly when every slot is present |
| Segmentation.SysSlotAsWrittenTakesNull | amd64/src/segmentation.rs:113-127 | as written, a free slot 1 makes the system-descriptor search return slot 0 and overwrite the null descriptor |
| Segmentation.SysSlotAsWrittenOverwritesPresent | amd64/src/segmentation.rs:113-127 | as written, a free slot 2 after a present descriptor at slot 1 makes the search overwrite slot 1 |
| Segmentation.SysSlotFree | amd64/src/segmentation.rs:113-135 | the corrected search returns two consecutive free slots, neither of them slot 0 |
| Segmentation.TryInsertIntoGdt | amd64/src/segmentation.rs:95-139 | `try_insert_into_gdt` writes a code/data descriptor into the slot the search chooses, or a system descriptor into the two slots chosen, returns the first slot's index, and leaves the table unchanged on `Err(())` |
| SystemSegments.NewLimitHiAsWrittenDropsBit19 | amd64/src/segmentation.rs:254-282 | as written, `new` masks the limit's high bits with 0b111, so a limit with bit 19 set reads back without it |
| SystemSegments.NewLimitHi | amd64/src/segmentation.rs:254-282 | the corrected high-limit byte gives back every limit below 2^20 and holds the granularity flag asked for |
| SystemSegments.BaseRoundTrip | amd64/src/segmentation.rs:268-278 | splitting a base over the four fields (`set_base`) and joining them (`get_base`) gives it back |
| SystemSegments.SysSegDesc.New | amd64/src/segmentation.rs:248-259 | the new descriptor reads back its base, limit, granularity, type and DPL, is present, is a system descriptor and has a zero reserved word |
| SystemSegments.SysSegDesc.FromBitsUnchecked | amd64/src/segmentation.rs:261-266 | reading the fields out of two words and laying them out again gives the same two words |
| SystemSegments.SysSegDesc.SetBase | amd64/src/segmentation.rs:272-278 | `set_base` stores the base and leaves the limit, flags and reserved word alone |
| SystemSegments.SysSegDesc.SetLimit | amd64/src/segmentation.rs:283-287 | `set_limit` stores the limit's low half and ORs its bits 16..23 into `g_limit_hi` unmasked; a limit below 2^20 reads back with the granularity flag kept |
| SystemSegments.SysSegDesc.SetSsdt | amd64/src/segmentation.rs:293-303 | `set_ssdt` panics unless the type is an interrupt or trap gate and otherwise stores it, changing no other flag bit |
| SystemSegments.SysSegDesc.SetDpl | amd64/src/segmentation.rs:309-312 | the corrected `set_dpl` stores the level in bits 5..6 and changes no other flag bit |
| SystemSegments.SysSegDesc.SetPresent | amd64/src/segmentation.rs:318-325 | `set_present` sets or clears the present flag and changes no other flag bit |
| SystemSegments.SysSegDesc.SetPageGranularity | amd64/src/segmentation.rs:331-338 | `set_page_granularity` sets or clears bit 7 of `g_limit_hi` and keeps the limit, base and flags |
| SystemSegments.FlagsInLowWord | amd64/src/segmentation.rs:103-106 | in the descriptor's low word the present flag is bit 47 and the system/user bit is bit 44, the bits the GDT search tests |
| CpuId.ExtractFamilyModelStepping | old/cpuid.rs:128-140 | the stepping is the low nibble; below base family 0xF the base family and model are returned as they are; at 0xF the extended fields are added, and the `u8` family sum overflows (panics) exactly when the extended family exceeds 0xF0 |
| CpuId.SignatureRoundTrip | old/cpuid.rs:128-140 | decoding the EAX word that reports any valid signature gives that signature back |
| CpuId.Truncate | old/cpuid.rs:145 | `from_bits_truncate` keeps exactly the named flags of the word and clears every other bit |
| CpuId.LogicalProcessorCount | old/cpuid.rs:233-278 | the logical processor count is present exactly when HTT is set, and is then EBX bits 16..23 |
| CpuId.FeatureInfoOf | old/cpuid.rs:264-287 | each `FeatureInfo` field is the register byte or truncated flag word the source reads, and the signature fields are the decoded ones |
| CpuId.ReadFeatureInfo | old/cpuid.rs:262-288 | `FeatureInfo::read` is `None` when function 1 is unsupported, panics exactly when the signature decoding does, and otherwise holds the decoded fields |
| CpuId.TopologyTestsAsWrittenNeverHold | old/cpuid.rs:456-465 | as written, the test compares the byte `ecx & 0xff` with `0` or-ed with `1 << 8`, that is with 0x100 (and 0x201), so neither level is ever reported, even for the sub-leaves that describe the SMT and core levels |
| CpuId.IsThreadLevel | old/cpuid.rs:456 | the intended thread-level test: level number 0 and level type 1 (SMT) |
| CpuId.IsCoreLevel | old/cpuid.rs:465 | the intended core-level test: level number 1 and level type 2 (core) |
| CpuId.ReadTopologyInfo | old/cpuid.rs:449-477 | `TopologyInfo::read` needs both sub-leaves; each level is present exactly when its test holds and then holds the x2APIC id, the mask width and the count the source reads |
| CpuId.NameFromRegs | old/cpuid.rs:676-692 | the processor name is the twelve registers of functions 0x8000_0002..4 laid out as little-endian bytes, in order |
| CpuId.NameLen | old/cpuid.rs:695-705 | `len` is the index of the first zero byte, or 48 when there is none: every byte before it is non-zero |
| CpuId.L1FromBits | old/cpuid.rs:728-739 | `from_bits` gives an n-way associativity exactly for the codes other than 0, 1 and 0xFF, and `as_bits` of the result gives the code back |
| CpuId.L1AssocRoundTrip | old/cpuid.rs:726-749 | every L1 associativity whose way count is not one of the special codes encodes and decodes back to itself |
| CpuId.L1TlbCacheInfoOf | old/cpuid.rs:791-825 | each L1 TLB and cache field is the register byte the source reads, and each associativity encodes back to its byte |
| CpuId.ReadL1TlbCacheInfo | old/cpuid.rs:789-826 | `L1TlbCacheInfo::read` is present exactly when function 0x8000_0005 is supported |
| CpuId.WaysOfCode | old/cpuid.rs:846-866 | a way count exists exactly for the codes 2..0xE other than 7 and 9 |
| CpuId.AssocFromBits | old/cpuid.rs:841-867 | `from_bits` defers (`None`) exactly for code 9, panics exactly for code 7 and codes above 0xF, and what it returns encodes back to the code |
| CpuId.AssocAsBits | old/cpuid.rs:870-898 | `as_bits` gives 9 for a deferred associativity and otherwise a 4-bit code other than 7; it panics on a way count no code stands for |
| CpuId.AssocRoundTrip | old/cpuid.rs:841-898 | every associativity that encodes decodes back to itself |
| CpuId.Nibble | old/cpuid.rs:933-944 | `as u8 & 0xf` gives a 4-bit code |
| CpuId.TlbField | old/cpuid.rs:933-940 | an L2 TLB field panics exactly on codes 7 and above 0xF, defers exactly on code 9, and otherwise pairs the entry count with the decoded associativity |
| CpuId.CacheField | old/cpuid.rs:942-945 | an L2/L3 cache field panics exactly on codes 7 and above 0xF, defers exactly on code 9, and otherwise holds the line size, lines per tag, size and decoded associativity |
| CpuId.L2TlbL3CacheInfoOf | old/cpuid.rs:927-947 | decoding function 0x8000_0006 panics exactly when one of the six associativity nibbles is 7, and otherwise each field is decoded from the bits the source reads |
| CpuId.ReadL2TlbL3CacheInfo | old/cpuid.rs:925-948 | `L2TlbL3CacheInfo::read` is `None` when the function is unsupported and otherwise panics or decodes as above |
| Memm.AsIsize | kernel/src/memm/mod.rs:28-34 | `usize as isize` is the two's-complement reading: the value itself or the value less 2^64 |
| Memm.AsUsize | kernel/src/memm/mod.rs:28-34 | `isize as usize` is congruent to its input modulo 2^64 |
| Memm.FromPhysAddr | kernel/src/memm/mod.rs:25-30 | `from_phys_addr!` adds the offset in `isize`; it overflows (panics) exactly for physical addresses in [2^63, 2^63 + 2^47), and otherwise gives the address plus the offset modulo 2^64 |
| Memm.ToPhysAddr | kernel/src/memm/mod.rs:31-36 | `to_phys_addr!` subtracts the offset in `isize`; it overflows exactly for linear addresses in [2^63 - 2^47, 2^63), and otherwise gives the address less the offset modulo 2^64 |
| Memm.PhysRoundTrip | kernel/src/memm/mod.rs:25-36 | a physical address converted to a linear one and back is the same address |
| Memm.LinearRoundTrip | kernel/src/memm/mod.rs:25-36 | a linear address converted to a physical one and back is the same address |
| Memm.PatIndex | kernel/src/memm/mod.rs:59-96 | `pat_type_to_pte` selects a slot of the default PAT that holds the type asked for, and the first such slot |
| Memm.PageDown | kernel/src/memm/mod.rs:435 | masking with `!(PTE_SIZE-1)` gives the largest multiple of 4 KiB not above the address |
| Memm.MapSpanAsWritten | kernel/src/memm/mod.rs:431-436 | as written, `map` asserts a non-zero size and panics exactly when the size is zero or `size + 0xfff` overflows |
| Memm.MapSpanAsWrittenMissesEnd | kernel/src/memm/mod.rs:435-436 | as written, a request of 2 bytes at 0xfff gets the span [0, 0x1000), which leaves its last byte unmapped |
| Memm.MapSpan | kernel/src/memm/mod.rs:431-436 | the corrected span starts at the base rounded down and covers every byte of the request with whole 4 KiB pages, less than one page past its end; it panics exactly on a zero size or an overflowing end |
| Memm.MapSpanAligned | kernel/src/memm/mod.rs:435-436 | for a page-aligned base the corrected and as-written spans agree |
| Memm.PageSize | kernel/src/memm/mod.rs:127 | each level's entry maps 512 times the span of the level below, starting from 4 KiB |
| Memm.TableIndex | kernel/src/memm/mod.rs:125-126 | a table index is below 512, so `get_unchecked_mut` stays inside the table |
| Memm.Wrap | kernel/src/memm/mod.rs:174 | `wrapping_add` is the identity inside the `isize` range and is always congruent modulo 2^64 |
| Memm.Remaining | kernel/src/memm/mod.rs:129 | `remaining` is the bytes left plus 0xfff; the `isize` subtraction overflows exactly when the span is 2^63 bytes or more |
| Memm.Then | kernel/src/memm/mod.rs:124-177 | the leaves of one step followed by the rest of the walk, failing exactly when the rest does |
| Memm.IndexAfter | kernel/src/memm/mod.rs:125-174 | an address a whole number of entries further on has an index that many entries further on, within the same table |
| Memm.SameIndex | kernel/src/memm/mod.rs:125-174 | addresses that differ by a multiple of 2^64 have the same index at every level |
| Memm.NextIndex | kernel/src/memm/mod.rs:125-176 | the next entry of a table, below entry 511, translates the page right after this one |
| Memm.NextIndexAsWritten | kernel/src/memm/mod.rs:174-176 | stepping by a whole page from an address below entry 511 reaches the next entry |
| Memm.MapOffsetAsWritten | kernel/src/memm/mod.rs:116-178 | `map_offset` as written panics on a level outside 1..4 |
| Memm.MapOffsetAsWrittenSkipsPages | kernel/src/memm/mod.rs:164-176 | as written, mapping [0x1ff000, 0x202000) writes only the page at 0x1ff000: back in the page directory the pointer steps by 2 MiB from inside the entry and lands past the acme |
| Memm.MapOffsetSpec | kernel/src/memm/mod.rs:116-178 | `map_offset` with the corrected advance panics on a level outside 1..4 |
| Memm.TilesAppend | kernel/src/memm/mod.rs:124-177 | two runs of leaves with no gap, one ending where the other starts, join into one |
| Memm.EntryBounds | kernel/src/memm/mod.rs:125-127 | an address lies in its entry's page, that page lies inside its table's span, entry 511 ends the table, and one level down the table ends where the entry does |
| Memm.NextEntrySameTable | kernel/src/memm/mod.rs:174-176 | below entry 511, the next entry lies in the same table |
| Memm.MapLoopTiles | kernel/src/memm/mod.rs:116-178 | with the corrected advance, the walk of one table from a 4 KiB-aligned base maps page after page with no gap up to the acme or the end of the table, whichever comes first, and does not panic |
| Memm.NextEntryStart | kernel/src/memm/mod.rs:174 | the next entry starts on a 4 KiB boundary past the base, at most one page size on |
| Memm.MapLoopTilesLast | kernel/src/memm/mod.rs:134-176 | the last entry of a table, or the one that reaches the acme, maps with no gap to the end of the walk |
| Memm.MapLoopTilesStep | kernel/src/memm/mod.rs:124-177 | an entry followed by a gap-free rest of the table maps the whole range with no gap |
| Memm.MapLoopStep | kernel/src/memm/mod.rs:124-177 | one round of the loop: a panic in `remaining` or in the entry is the walk's panic; entry 511 ends the walk; otherwise the rest follows from the next entry |
| Memm.MapLoopUnfold | kernel/src/memm/mod.rs:124-177 | the same round inside the range where no pointer step wraps |
| Memm.MapEntryTiles | kernel/src/memm/mod.rs:134-173 | an entry, a leaf or a table walked below it, maps with no gap from the base to the acme or the end of the entry |
| Memm.LeafFits | kernel/src/memm/mod.rs:128-134 | a leaf entry is aligned to its page size, lies in a PDPT or lower, and its page ends inside the span |
| Memm.PageMultiple | kernel/src/memm/mod.rs:129-134 | the `remaining >= page_size` test on a whole number of pages means the span really holds the page |
| Memm.MapOffset | kernel/src/memm/mod.rs:116-178 | `map_offset` returns the leaves it writes, which are those of the corrected walk, and panics where it does |
| Memm.LeafEntry | kernel/src/memm/mod.rs:134-145 | a leaf entry is written exactly when the page getter's address is page-aligned and below 2^52 (`PTE::from_paddr` panics otherwise) |
| Memm.LeafEntryPt | kernel/src/memm/mod.rs:134-136 | a page-table leaf is present, maps the page given, and holds exactly the flags given outside the address field, PAT included |
| Memm.LeafEntryHuge | kernel/src/memm/mod.rs:137-145 | a leaf above the page-table level is a present huge page holding the address, the flags and PS, and PAT_PS is set exactly when the flags hold PAT |
| Memm.HugePat | kernel/src/memm/mod.rs:139-141 | with PAT in the flags the huge-page entry gains PAT_PS |
| Memm.HugeNoPat | kernel/src/memm/mod.rs:141-143 | without PAT in the flags the huge-page entry gains PS and no PAT_PS |
| Psf.LeBytes | kernel/src/utils/psf.rs:33-40 | a `u32` encodes as four little-endian bytes |
| Psf.LeRoundTrip | kernel/src/utils/psf.rs:33-40 | `slice_to_u32` of the four bytes of a `u32`, wherever they sit in the data, gives the `u32` back |
| Psf.LeBytesOfDecoded | kernel/src/utils/psf.rs:33-40 | re-encoding the `u32` read at an offset gives the four bytes there back |
| Psf.New | kernel/src/utils/psf.rs:32-60 | `new` panics exactly when the data is too short for the magic number, the magic number is wrong, or the data is shorter than the 32-byte header; otherwise each header field is the little-endian word at its offset and the data is kept |
| Psf.HeaderBytes | kernel/src/utils/psf.rs:3-22 | a header is laid out in 32 bytes |
| Psf.NewRoundTrip | kernel/src/utils/psf.rs:3-60 | a file that starts with an encoded header carrying the magic number parses to exactly that header |
| Psf.FieldBytes | kernel/src/utils/psf.rs:3-53 | field k of the packed header occupies bytes 4k..4k+4 |
| Psf.GetGlyph | kernel/src/utils/psf.rs:62-65 | `get_glyph` panics exactly when the offset arithmetic overflows `usize`, is `None` exactly when the glyph runs past the end of the data, and otherwise returns the `glyph_size` bytes at `header_size + glyph_size * i` |
| Psf.GlyphsPresent | kernel/src/utils/psf.rs:14-65 | in a file that holds all `glyph_count` glyphs, every glyph below the count is found |
| BootCfg.Find | kernel/src/cfg.rs:30 | the index of the first occurrence of the character, or none exactly when it does not occur |
| BootCfg.Split | kernel/src/cfg.rs:28 | `split('\n')` gives at least one piece, none containing the separator, and joining them with it gives the text back |
| BootCfg.SplitJoin | kernel/src/cfg.rs:28 | splitting the join of separator-free pieces gives the pieces back |
| BootCfg.FindAfterPrefix | kernel/src/cfg.rs:30 | the first separator after a separator-free prefix is found at the prefix's length |
| BootCfg.TrimStart | kernel/src/cfg.rs:29-30 | the text with its leading whitespace, and only that, removed |
| BootCfg.TrimEnd | kernel/src/cfg.rs:29-30 | the text with its trailing whitespace, and only that, removed |
| BootCfg.Trim | kernel/src/cfg.rs:29-30 | `trim` is no longer than the text and has no whitespace at either end |
| BootCfg.TrimUnpadded | kernel/src/cfg.rs:29-30 | text without whitespace at either end is its own trim |
| BootCfg.DigitValue | kernel/src/cfg.rs:31 | a hex digit's value is below 16 |
| BootCfg.ParseHex | kernel/src/cfg.rs:31 | `from_str_radix(_, 16)` succeeds exactly when the text after an optional `+` is at least one hex digit, in either case, and its value is below 2^64, and then gives that value |
| BootCfg.HexLeadingZero | kernel/src/cfg.rs:31 | a leading zero digit does not change the value |
| BootCfg.PaddedValue | kernel/src/cfg.rs:31 | any number of leading zero digits leave the value unchanged |
| BootCfg.ParseHexPadded | kernel/src/cfg.rs:31 | a value written with leading zeros, with or without a `+`, parses back to the value |
| BootCfg.HexDigit | kernel/src/cfg.rs:31 | each digit value has a hex digit that reads back as it |
| BootCfg.ToHex | kernel/src/cfg.rs:31 | hex formatting gives a non-empty string of hex digits whose value is the number |
| BootCfg.HexRoundTrip | kernel/src/cfg.rs:31 | formatting a `usize` in hex and parsing it back gives the value |
| BootCfg.FindKeyLine | kernel/src/cfg.rs:29 | `find` returns the first line whose trimmed text starts with the key, and none exactly when no line does |
| BootCfg.FindKeyLineFrom | kernel/src/cfg.rs:29 | the same search from a given line on |
| BootCfg.SplitOnce | kernel/src/cfg.rs:30 | `split_once('=')` fails exactly when there is no `=`, and otherwise splits at the first one |
| BootCfg.Lookup | kernel/src/cfg.rs:28-32 | a configuration with no line for the key gives the default; a panic needs a line for the key; a value read from such a line means the line held an `=` |
| BootCfg.LookupNoEquals | kernel/src/cfg.rs:30 | a first key line with no `=` makes the `unwrap` of `split_once` panic, whatever the other lines hold |
| BootCfg.LookupInvalidHex | kernel/src/cfg.rs:31-32 | a first key line whose trimmed text after the `=` is not a hex `usize` makes the `expect` panic |
| BootCfg.LookupAbsent | kernel/src/cfg.rs:27-32 | a configuration in which no line starts with the key gives the key's default |
| BootCfg.LookupEntry | kernel/src/cfg.rs:27-32 | a configuration whose first line for the key is `key=<hex of v>` gives v, whatever the other lines say |
| BootCfg.LinesOfEntry | kernel/src/cfg.rs:28 | the lines of a configuration built from separator-free lines are separator-free |
| BootCfg.LookupAt | kernel/src/cfg.rs:27-32 | once the first line for the key is known to be an entry, the lookup gives its value |
| BootCfg.EntryFacts | kernel/src/cfg.rs:29-31 | an entry is one line that starts with the key, splits at its `=` into key and hex text, and whose text parses to the value |
| BootCfg.FirstKeyLine | kernel/src/cfg.rs:29 | a key line with no key line before it is the one `find` returns |
| BootCfg.SplitAtKey | kernel/src/cfg.rs:30 | a key without `=` followed by `=` splits at that `=` |
| BootCfg.BootCfg.constructor | kernel/src/cfg.rs:7-51 | the statics start in sync state 0 holding the three defaults |
| BootCfg.BootCfg.StackSize | kernel/src/cfg.rs:13-48 | `stack_size()` returns its slot exactly when the state is 2 and panics otherwise |
| BootCfg.BootCfg.HeapInitSize | kernel/src/cfg.rs:13-49 | `heap_init_size()` returns its slot exactly when the state is 2 and panics otherwise |
| BootCfg.BootCfg.HeapSmlstBlock | kernel/src/cfg.rs:13-50 | `heap_smlst_block()` returns its slot exactly when the state is 2 and panics otherwise |
| BootCfg.BootCfg.InitBootCfg | kernel/src/cfg.rs:22-43 | from state 0 the slots are filled in order from the configuration and the state becomes 2, and a panic part-way leaves state 1 with the earlier slots filled; state 2 does nothing; state 1 reports another initialiser at work; any other state panics; in every case but 0 nothing changes |
| BootCfg.BootCfg.ReadStackSize | kernel/src/cfg.rs:25-33 | the `stack_size` slot takes the value read unless the read panics, and nothing else changes |
| BootCfg.BootCfg.ReadHeapInitSize | kernel/src/cfg.rs:25-33 | the `heap_init_size` slot takes the value read unless the read panics, and nothing else changes |
| BootCfg.BootCfg.ReadHeapSmlstBlock | kernel/src/cfg.rs:25-33 | the `heap_smlst_block` slot takes the value read unless the read panics, and nothing else changes |
| BootBoot.ClearFree | kernel/src/bootboot.rs:100 | `data &= !MMAP_FREE` clears bit 0 and keeps every other bit |
| BootBoot.MmapLen | kernel/src/bootboot.rs:88-89 | the entry count is the largest number of whole 16-byte entries that fit in the reported size past the structure; a size smaller than the structure underflows and panics |
| BootBoot.Probed | kernel/src/bootboot.rs:93-101 | a probed entry keeps its address and all bits but the free flag, and stays free exactly when it was free and passed the probe |
| BootBoot.ProbeEntries | kernel/src/bootboot.rs:93-102 | the probe loop rewrites each of the first n entries to its probed form in place and leaves the rest of the map untouched |
| BootBoot.RegionOf | kernel/src/bootboot.rs:107-110 | a region is the entry's address and its size with the type bits masked off |
| BootBoot.Available | kernel/src/bootboot.rs:104-110 | the regions yielded are at most one per entry and each size is a multiple of 16 |
| BootBoot.AvailableMembers | kernel/src/bootboot.rs:104-110 | a region is yielded exactly when some free entry describes it |
| BootBoot.AvailableCount | kernel/src/bootboot.rs:104-110 | as many regions are yielded as there are free entries |
| BootBoot.MmapAvailableIter | kernel/src/bootboot.rs:85-111 | `mmap_available_iter` panics exactly when the reported size is smaller than the structure (leaving the map alone), and otherwise probes the entries in place and yields the regions of those still free, in map order |
| BootBoot.ProbedRegions | kernel/src/bootboot.rs:93-110 | after the probe the regions yielded are exactly those of the entries that were free and passed it |
| BootBoot.SizeIgnoresFree | kernel/src/bootboot.rs:100-109 | clearing the free flag does not change the size the entry reports |
| BootBoot.EnvCfgLen | kernel/src/bootboot.rs:118-122 | the length is that of the bytes before the first NUL of the 4096-byte area, or 4096 when it holds none |
| BootBoot.EnvCfgAsStr | kernel/src/bootboot.rs:118-125 | `env_cfg_as_str` gives exactly the bytes before that NUL, read as characters |
| FrameBuffer.ChannelOrder | kernel/src/out/framebuffer.rs:3-6 | each format's order table names four channels |
| FrameBuffer.ColorToPixel | kernel/src/out/framebuffer.rs:32-39 | `color_to_pixel` gives four bytes |
| FrameBuffer.ColorToPixelOrder | kernel/src/out/framebuffer.rs:3-39 | byte k of the pixel holds the channel the format's name puts in place k |
| FrameBuffer.PixelRoundTrip | kernel/src/out/framebuffer.rs:32-39 | converting a colour to a pixel loses nothing, and every four bytes are the pixel of some colour |
| FrameBuffer.PixelBytes | kernel/src/out/framebuffer.rs:65-119 | the four bytes at `x * 4 + y * stride` are exactly the bytes of row y and column x |
| FrameBuffer.PixelInBuffer | kernel/src/out/framebuffer.rs:56-65 | a pixel inside the visible width and height lies inside the `stride * height` bytes |
| FrameBuffer.PixelAt | kernel/src/out/framebuffer.rs:66-76 | reading a pixel gives four bytes |
| FrameBuffer.Paint | kernel/src/out/framebuffer.rs:62-121 | the buffer part-way through a row-major drawing loop keeps its size |
| FrameBuffer.Painted | kernel/src/out/framebuffer.rs:62-121 | the buffer after a drawing loop keeps its size |
| FrameBuffer.PaintStart | kernel/src/out/framebuffer.rs:62-117 | before the first store the buffer is unchanged |
| FrameBuffer.PaintNextCol | kernel/src/out/framebuffer.rs:63-120 | storing the next cell of a row extends the painted part by exactly that pixel |
| FrameBuffer.PaintNextRow | kernel/src/out/framebuffer.rs:62-121 | a finished row is where the next row starts |
| FrameBuffer.PaintedCell | kernel/src/out/framebuffer.rs:62-121 | after a drawing loop every byte of every cell of the rectangle holds that cell's pixel |
| FrameBuffer.PaintedOnlyCells | kernel/src/out/framebuffer.rs:62-121 | a byte that a drawing loop changes lies inside the rectangle |
| FrameBuffer.FillCells | kernel/src/out/framebuffer.rs:115-120 | `fill_rect` stores the same pixel in every cell |
| FrameBuffer.BitsInSrcBound | kernel/src/out/framebuffer.rs:89-102 | when the bitmap fits the source, every bit index it reads is inside the source |
| FrameBuffer.BitmapBitIsStreamBit | kernel/src/out/framebuffer.rs:82-102 | with whole-byte source rows, the bit tested for a cell is stream bit `col + offset + row * stride`, most significant bit first |
| FrameBuffer.BitmapCells | kernel/src/out/framebuffer.rs:93-106 | each cell of the bitmap gets the one-pixel when its tested bit is set and the zero-pixel otherwise |
| FrameBuffer.SourceCells | kernel/src/out/framebuffer.rs:63-66 | cell (col, row) of `blt` comes from the four source bytes at `col * 4 + row * stride` |
| FrameBuffer.SourceBound | kernel/src/out/framebuffer.rs:64 | every source read of `blt` lies inside the source the caller hands over |
| FrameBuffer.MovedCells | kernel/src/out/framebuffer.rs:73-76 | cell (col, row) of `internal_blt` comes from pixel (`src_x + col`, `src_y + row`) |
| FrameBuffer.MovedBound | kernel/src/out/framebuffer.rs:74 | every source read of `internal_blt` lies inside the buffer |
| FrameBuffer.SourceUnread | kernel/src/out/framebuffer.rs:70-79 | when the destination lies above the source, level with it and not to its right, or clear of it in rows or columns, a cell's source pixel has not yet been overwritten when it is read |
| FrameBuffer.StoreFrame | kernel/src/out/framebuffer.rs:66-119 | one pixel store changes only the bytes of the cell just stored |
| FrameBuffer.SrcCheck | kernel/src/out/framebuffer.rs:89 | when the first assertion of `write_bitmap` passes in `usize` arithmetic, the bitmap is no wider than its stride and every bit read lies inside the source |
| FrameBuffer.SrcCheckBound | kernel/src/out/framebuffer.rs:89 | the assertion's `offset + stride * height - (stride - width)` is the index one past the last bit read |
| FrameBuffer.BitmapFitsAsWrittenOverruns | kernel/src/out/framebuffer.rs:90 | as written, the width check divides a pixel width by eight, so an 8-pixel bitmap at column 7 of an 8-pixel-wide buffer passes and is stored past the row |
| FrameBuffer.BitmapFitsColumns | kernel/src/out/framebuffer.rs:90-101 | the corrected check holds exactly when every column of the bitmap lies inside the visible row |
| FrameBuffer.FrameBuffer.constructor | kernel/src/out/framebuffer.rs:55-57 | `new` over a buffer whose stride holds a row of pixels covers the `stride * height` bytes at the base, keeps the resolution, stride and format, and yields a valid buffer |
| FrameBuffer.FrameBuffer.WritePixel | kernel/src/out/framebuffer.rs:66-119 | a pixel write stores four bytes at the offset and changes nothing else |
| FrameBuffer.FrameBuffer.FillRect | kernel/src/out/framebuffer.rs:111-122 | `fill_rect` panics exactly when the rectangle leaves the visible area (changing nothing) and otherwise stores the colour's pixel in every cell and nowhere else |
| FrameBuffer.FrameBuffer.Blt | kernel/src/out/framebuffer.rs:60-69 | `blt` stores each source pixel in its cell of the destination rectangle and changes nothing else |
| FrameBuffer.FrameBuffer.InternalBlt | kernel/src/out/framebuffer.rs:70-79 | `internal_blt` changes no byte outside the destination, and when the destination lies above the source, level with it and not to its right, or does not overlap it, the destination ends up holding the source as it was |
| FrameBuffer.FrameBuffer.MoveRow | kernel/src/out/framebuffer.rs:73-78 | one row of `internal_blt` extends the copied part by that row |
| FrameBuffer.FrameBuffer.MoveCell | kernel/src/out/framebuffer.rs:74-76 | one pixel of `internal_blt` extends the copied part by that cell |
| FrameBuffer.FrameBuffer.MoveStep | kernel/src/out/framebuffer.rs:74-76 | the pixel read for the next cell is its source pixel from before the copy |
| FrameBuffer.FrameBuffer.WriteBitmap | kernel/src/out/framebuffer.rs:87-109 | `write_bitmap` with the width check corrected panics exactly when one of its three checks fails (changing nothing), and otherwise stores in each cell the one-colour where its bit is set and the zero-colour where it is clear |
| FrameBuffer.FrameBuffer.BitmapRow | kernel/src/out/framebuffer.rs:98-107 | one row of `write_bitmap` extends the painted part by that row |
| Terminal.RoundUp8 | kernel/src/out/terminal.rs:46 | `n + 7 & !7` is the smallest multiple of eight not below n |
| Terminal.GlyphIndexAsWrittenMissing | kernel/src/out/terminal.rs:61-65 | as written, `c > glyph_count` lets `c == glyph_count` through, and in a font file that ends after its glyphs that glyph is missing, so the `unwrap` panics |
| Terminal.GlyphIndex | kernel/src/out/terminal.rs:61-65 | the corrected choice is the code point itself when the font has that glyph and glyph 0 otherwise, always below the glyph count |
| Terminal.GlyphIndexFound | kernel/src/out/terminal.rs:43-65 | in a font file that holds all its glyphs, every code point finds a glyph |
| Terminal.GlyphBytes | kernel/src/out/terminal.rs:43 | the glyph's bytes are handed to `write_bitmap` unchanged |
| Terminal.Term1.constructor | kernel/src/out/terminal.rs:15-19 | a terminal over a framebuffer and a font starts at column 0 |
| Terminal.Term1.Scrolled | kernel/src/out/terminal.rs:22-28 | scrolling keeps the buffer's size |
| Terminal.Term1.ScrolledPixel | kernel/src/out/terminal.rs:24-25 | after `new_line` each visible pixel holds the pixel one glyph height below it, and the bottom band of that height is black |
| Terminal.Term1.NewLine | kernel/src/out/terminal.rs:22-28 | `new_line` panics exactly when the glyph is taller than the screen, and otherwise scrolls the screen and restarts the column |
| Terminal.Term1.DrawGlyph | kernel/src/out/terminal.rs:42-50 | drawing a glyph keeps the buffer's size |
| Terminal.Term1.WriteCharShape | kernel/src/out/terminal.rs:36-53 | a successful `write_char` of a code point other than newline scrolls first exactly when the next glyph would end past the right edge, then draws in the column it wraps to |
| Terminal.Term1.PutGlyphShape | kernel/src/out/terminal.rs:41-53 | a successful draw found the glyph, passed the three checks of `write_bitmap`, drew the glyph white on black in the bottom band and moved one column on |
| Terminal.Term1.WriteChar | kernel/src/out/terminal.rs:30-54 | `write_char` succeeds exactly when its specification does and leaves the screen and column it gives |
| Terminal.Term1.PutGlyph | kernel/src/out/terminal.rs:41-53 | the glyph lookup and `write_bitmap` call succeed exactly when their specification does and leave the screen and column it gives |
| Terminal.Term1.WriteCharColumn | kernel/src/out/terminal.rs:30-54 | after `write_char` a newline leaves column 0 and any other code point the column after the glyph drawn (1 after a wrap), and the glyph drawn ends inside the row |
| Terminal.Term1.WriteCharGlyph | kernel/src/out/terminal.rs:36-53 | the glyph of a code point is drawn in the cell its new column ends, each pixel white where its bit is set and black where it is clear |
| Terminal.Term1.DrawGlyphPixel | kernel/src/out/terminal.rs:42-50 | each pixel of a drawn glyph is white where its bit, read most significant first from rows of whole bytes, is set, and black where it is clear |
| Terminal.Term1.WriteCharElsewhere | kernel/src/out/terminal.rs:36-53 | without a wrap, `write_char` changes no byte outside the new glyph's cell |
| Terminal.Term1.DrawGlyphElsewhere | kernel/src/out/terminal.rs:42-50 | drawing a glyph changes no byte outside its cell |
| Terminal.Term1.WriteStrSpec | kernel/src/out/terminal.rs:58-68 | writing a string keeps the buffer's size |
| Terminal.Term1.WriteCharLength | kernel/src/out/terminal.rs:30-54 | `write_char` keeps the buffer's size |
| Terminal.Term1.WriteStrPanics | kernel/src/out/terminal.rs:58-68 | a panic part-way through the string is a panic of the whole |
| Terminal.Term1.WriteStrKeepsColumn | kernel/src/out/terminal.rs:58-68 | from a column whose glyphs end inside the screen's width, `write_str` ends at such a column |
| Terminal.Term1.WriteStr | kernel/src/out/terminal.rs:57-69 | `write_str` with the corrected glyph choice writes each character in turn and succeeds exactly when its specification does, leaving the screen and column it gives |
| CopyBits.AlignOffset | kernel/src/utils/mod.rs:48-50 | the alignment offset is a rotation amount below 64 |
| CopyBits.LoopAsWritten | kernel/src/utils/mod.rs:65-75 | the word loop as written keeps the destination's length whenever it stays inside both slices |
| CopyBits.CopyBitsAsWrittenRunsOff | kernel/src/utils/mod.rs:57-75 | as written, copying 2 bits from bit 5 to bit 0 of one-word slices pre-reads the only source word, so the loop never meets `src_index_acme` and reads past the slice |
| CopyBits.CopyBitsAsWrittenDropsBits | kernel/src/utils/mod.rs:45-86 | as written, copying a whole 64-bit word keeps only its bit 0: the last word's mask is built from `dst_bit_index_acme & 63`, one past the last bit copied |
| CopyBits.CopyBitsAsWrittenClobbersNext | kernel/src/utils/mod.rs:45-86 | as written, copying one bit clears the destination bit just past the run |
| CopyBits.WordSpans | kernel/src/utils/mod.rs:57-82 | the two runs' word spans differ by at most one word, in the direction the alignment offset wraps, which is what the append decision relies on |
| CopyBits.WordAndBit | kernel/src/utils/mod.rs:38-41 | `>> 6` and `& 63` split a bit position into its word and bit |
| CopyBits.LoopStep | kernel/src/utils/mod.rs:66-70 | one loop round writes a destination word whose run bits all hold their source bits, and leaves the right carry for the next |
| CopyBits.CarryWord | kernel/src/utils/mod.rs:77-82 | after the last source word the carry alone holds the run bits of the next destination word |
| CopyBits.AlignWords | kernel/src/utils/mod.rs:48-82 | the set-up, loop and append leave every destination word of the run holding its run bits and change no other word |
| CopyBits.CopyAligned | kernel/src/utils/mod.rs:65-82 | the loop and the append, from the first source word not yet read, leave every destination word of the run holding its run bits and change no other word |
| CopyBits.CopyLoop | kernel/src/utils/mod.rs:65-75 | the corrected loop ends just past the last source word of the run, having filled one destination word per source word with its run bits, and changes nothing else |
| CopyBits.FirstRestore | kernel/src/utils/mod.rs:44-85 | the first word's restore takes the bits below the run from the original word and the rest from the word written |
| CopyBits.LastRestore | kernel/src/utils/mod.rs:45-86 | the last word's corrected restore takes the bits up to the last bit copied from the word written and the rest from the original |
| CopyBits.CopySliceBits | kernel/src/utils/mod.rs:6-87 | corrected `copy_slice_bits`: afterwards the destination's bits in the run hold the source's bits in its run, and every other destination bit is as before |
| Llist.Links.NewLlist | kernel/src/utils/llist.rs:37-55 | `new_llist` writes a node linked only to itself, which is a one-node cycle, and keeps the cells consistent when the node was new or already isolated |
| Llist.Links.New | kernel/src/utils/llist.rs:57-79 | `new` writes the node between `prev` and `next` and points their cells at it; inserted after a list's sentinel, the node becomes the list's first member |
| Llist.Links.Remove | kernel/src/utils/llist.rs:95-107 | `remove` links the node's neighbours together and isolates it, is a no-op on an isolated node, and drops the node from its cycle |
| Llist.Links.MovAsWritten | kernel/src/utils/llist.rs:81-93 | `mov` as written copies the node, repoints its neighbours at the copy and isolates the source; on an isolated source the copy is left pointing at the source |
| Llist.Links.Mov | kernel/src/utils/llist.rs:81-93 | corrected `mov`: the destination takes the source's place in its cycle, the source is isolated, and an isolated source gives an isolated destination |
| Llist.Links.Relink | kernel/src/utils/llist.rs:110-134 | `relink` takes the chain out of its list, closing the gap, and splices it in right after the other list's head |
| Llist.InsertAfterRing | kernel/src/utils/llist.rs:70-79 | inserting a fresh node after a sentinel puts it first in the sentinel's cycle |
| Llist.RemoveRing | kernel/src/utils/llist.rs:99-107 | removing a member drops exactly it from the cycle |
| Llist.MovRing | kernel/src/utils/llist.rs:85-93 | moving a node of a cycle to a fresh address gives the same cycle with the new address in its place |
| Llist.MovAsWrittenKeepsSource | kernel/src/utils/llist.rs:85-93 | as written, moving the isolated node 8 to 16 leaves 16 pointing at 8, so the destination is not the one-node list the source was |
| Llist.RingPieces | kernel/src/utils/llist.rs:30-34 | the links of a cycle split into two pieces, which hold distinct nodes |
| Llist.RelinkClosesGap | kernel/src/utils/llist.rs:123-127 | relinking leaves the rest of the chain's old cycle closed |
| Llist.RelinkSplicesChain | kernel/src/utils/llist.rs:129-133 | relinking makes the other cycle hold the chain right after its head |
| Llist.PrevIsNextIffShort | kernel/src/utils/llist.rs:30-34 | a node's `prev` and `next` coincide exactly when its cycle has at most two nodes |
| Llist.RingSegment | kernel/src/utils/llist.rs:110-122 | any stretch of a cycle is a chain |
| Llist.IterMut.New | kernel/src/utils/llist.rs:162-177 | `IterMut::new` starts ongoing with its cursors at the chain's two ends, and has the chain still to yield |
| Llist.IterMut.IterOf | kernel/src/utils/llist.rs:137-147 | `iter_mut` yields the list without its sentinel; over an empty list it yields the sentinel itself |
| Llist.IterMut.ListOf | kernel/src/utils/llist.rs:135-147 | the corrected `iter_mut` yields exactly the list without its sentinel, nothing over an empty list, and never the sentinel |
| Llist.EmptyIterAsWrittenYieldsSentinel | kernel/src/utils/llist.rs:142-147 | `iter_mut` as written over an empty list yields the sentinel as its first item |
| Llist.EmptyListIterYieldsNothing | kernel/src/utils/llist.rs:135-136 | the corrected iterator over an empty list yields nothing |
| Llist.IterMut.Next | kernel/src/utils/llist.rs:183-194 | `next` yields the front of what remains and moves the front cursor on, stopping after the cursors meet |
| Llist.IterMut.NextBack | kernel/src/utils/llist.rs:198-209 | `next_back` yields the back of what remains and moves the back cursor back, stopping after the cursors meet |
| PhysMem.FirstAvailable | kernel/src/mem/pmemm.rs:33-44 | the first loop of `AvlMemAcc::next` stops at the first descriptor whose type is available and skips only unavailable ones; it reaches the end of the map when none is left |
| PhysMem.RunEnd | kernel/src/mem/pmemm.rs:46-55 | the accumulation loop (corrected) covers exactly the run of available descriptors after the first one that each start where the one before ends, and stops at the first descriptor that is unavailable or follows a hole in physical memory |
| PhysMem.Resume | kernel/src/mem/pmemm.rs:47-55 | the iterator resumes past the unavailable descriptor that ended a run, and at the available descriptor after a hole |
| PhysMem.RunSpan | kernel/src/mem/pmemm.rs:46-55 | a run of adjoining descriptors covers the physical memory from the first one's start to the last one's end, page for page |
| PhysMem.AccNext | kernel/src/mem/pmemm.rs:31-56 | one step of the iterator never moves past the end of the map and always makes progress when it yields a region |
| PhysMem.AccAllStep | kernel/src/mem/pmemm.rs:28-56 | the regions yielded from a position are the next region followed by those yielded after it, and nothing once `next` returns `None` |
| PhysMem.AccNextEnds | kernel/src/mem/pmemm.rs:40-43 | `next` returns `None` exactly when no available descriptor is left, in both directions |
| PhysMem.AccNextRun | kernel/src/mem/pmemm.rs:33-55 | a yielded region takes its physical and virtual base from the first available descriptor, holds exactly the pages of the run of available descriptors that follows it, each starting where the one before ends |
| PhysMem.AccNextSpan | kernel/src/mem/pmemm.rs:46-55 | a yielded region ends in physical memory exactly where the last descriptor of its run ends |
| PhysMem.AccNextStopsAtHole | kernel/src/mem/pmemm.rs:46-55 | two available descriptors with the legacy video hole between them are yielded as two regions, the first ending below the hole |
| PhysMem.AvailableSplit | kernel/src/mem/pmemm.rs:47-55 | the available pages of a suffix of the map are those before any later point plus those after it |
| PhysMem.SkipPages | kernel/src/mem/pmemm.rs:33-39 | skipping unavailable descriptors skips no available page |
| PhysMem.RunPages | kernel/src/mem/pmemm.rs:47-55 | the available pages from an available descriptor on are the pages of its run plus the available pages after the unavailable descriptor that ends the run |
| PhysMem.AccNextPages | kernel/src/mem/pmemm.rs:31-56 | one step of the iterator accounts for every available page: those of the region yielded and those still ahead |
| PhysMem.AccAllPages | kernel/src/mem/pmemm.rs:28-56 | over the whole iteration the regions yielded hold every available page of the map and no other |
| PhysMem.AccNextAsWrittenSpansReserved | kernel/src/mem/pmemm.rs:47-55 | as written the accumulation adds the pages of a later available descriptor across a reserved one, so the region yielded spans reserved memory; the corrected step yields only the first page |
| PhysMem.AvlMemAcc.constructor | kernel/src/mem/pmemm.rs:24-26 | `AvlMemAcc::iter` starts at the first descriptor of the map |
| PhysMem.AvlMemAcc.Next | kernel/src/mem/pmemm.rs:31-56 | the two loops of `next`, with the corrected accumulation, yield the region `AccNext` describes and leave the iterator where `AccNext` says |
| PhysMem.AvlMemAcc.AccumulateRun | kernel/src/mem/pmemm.rs:46-55 | the corrected accumulating loop adds up exactly the pages of the contiguous available run and stops where `RunEnd` says |
| PhysMem.InsertAt | kernel/src/mem/pmemm.rs:133-147 | the insertion walk passes only nodes larger than the new one and stops before the first node that is not larger, or at the end |
| PhysMem.InsertDescending | kernel/src/mem/pmemm.rs:117-149 | inserting a region at its place keeps the list in descending order, the head being the largest |
| PhysMem.InsertContents | kernel/src/mem/pmemm.rs:145 | inserting adds the new node to the nodes already listed and changes no other |
| PhysMem.InsertPages | kernel/src/mem/pmemm.rs:145 | inserting adds exactly the new node's pages to the list |
| PhysMem.InsertAtAsWritten | kernel/src/mem/pmemm.rs:133-147 | the walk as written never compares the last node and never moves the head pointer; it stays within the list |
| PhysMem.InsertAsWrittenBreaksOrder | kernel/src/mem/pmemm.rs:133-147 | as written, inserting 5 pages into the list 10, 3 puts the new node last and breaks the descending order; the corrected insertion puts it between the two |
| PhysMem.RemoveDescending | kernel/src/mem/pmemm.rs:238 | removing a node keeps the order |
| PhysMem.RemoveContents | kernel/src/mem/pmemm.rs:266 | removing takes out that node and no other |
| PhysMem.RemovePages | kernel/src/mem/pmemm.rs:280 | removing a node takes exactly its pages out of the list |
| PhysMem.RemoveKeeps | kernel/src/mem/pmemm.rs:238-243 | a removal keeps the order and moves exactly the removed node's pages out of the list |
| PhysMem.RemoveAsWrittenLosesList | kernel/src/mem/pmemm.rs:238 | as written, removing the head of a two-node list (a case `claim` on an ordered list does not reach) leaves the removed node as the whole list and loses the other; the corrected removal makes the successor the head |
| PhysMem.Stop | kernel/src/mem/pmemm.rs:251-263 | `claim`'s walk passes only successors larger than the request and stops where the successor is not larger, or at the last node |
| PhysMem.ChompTail | kernel/src/mem/pmemm.rs:201-208 | the block chomped off the head is the last `page_count` pages of the head region, right after the pages the head keeps, with virtual and physical bases at the same offset into the region |
| PhysMem.ChompKeeps | kernel/src/mem/pmemm.rs:201-218 | chomping keeps the list in descending order (the smaller head moves to its place) and moves exactly `page_count` pages from the list to the handle |
| PhysMem.ChompBaseAsWrittenOverlaps | kernel/src/mem/pmemm.rs:205-206 | as written the chomped block of 16 pages off a 256-page region starts 240 bytes in, off a page boundary and inside the pages the region keeps; the corrected base is 240 pages in |
| PhysMem.SwapAsWrittenBreaksRing | kernel/src/mem/pmemm.rs:211-218 | the four pointer stores of the head-and-next swap, on the ring 0, 1, 2, leave `next` and `prev` disagreeing, so walking forward from the head no longer returns to it |
| PhysMem.ChompInPlaceAsWritten | kernel/src/mem/pmemm.rs:201-212 | without the swap, the list keeps its nodes in place with only the head's page count reduced |
| PhysMem.SwapGuardAsWrittenInverted | kernel/src/mem/pmemm.rs:210-212 | the guard `largest_page_count > next.page_count` is inverted: chomping 5 off 10, 8 skips the swap and leaves 5, 8 out of order, while the corrected `Chomp` gives 8, 5; chomping 5 off 10, 3 needs no swap, yet the guard fires |
| PhysMem.ClaimPanics | kernel/src/mem/pmemm.rs:226-291 | on an ordered list `claim` panics exactly for a zero request, an empty list or a largest region smaller than the request, in both directions |
| PhysMem.ClaimFits | kernel/src/mem/pmemm.rs:225-285 | a successful claim gets at least the pages asked for and at most a quarter more (`MAX_SUITABILITY_FACTOR` 2) |
| PhysMem.ClaimExact | kernel/src/mem/pmemm.rs:264-272 | when a region of exactly the requested size is listed, the claim succeeds with exactly that many pages |
| PhysMem.ClaimKeeps | kernel/src/mem/pmemm.rs:190-295 | a claim keeps the list ordered and moves exactly the handle's pages out of it |
| PhysMem.ClaimSmallestAsWrittenTooSmall | kernel/src/mem/pmemm.rs:235-243 | as written the first test hands out a 4-page region for an 8-page request; the corrected claim panics there |
| PhysMem.ReclaimKeeps | kernel/src/mem/pmemm.rs:301-335 | reclaiming keeps the list ordered and gives exactly the handle's pages back to it |
| PhysMem.ChompThenReclaim | kernel/src/mem/pmemm.rs:301-310 | a block chomped off a head that stays the head merges back into it on reclaim, restoring the list as it was before the claim |
| PhysMem.ReclaimAsWrittenCountsTwice | kernel/src/mem/pmemm.rs:308-334 | as written a block that merges into the head is also inserted as a node of its own, so reclaiming one page after a two-page head leaves four pages listed instead of three |
| PhysMem.Relocated | kernel/src/mem/pmemm.rs:112-113 | every descriptor's virtual start becomes its physical start plus the offset, modulo 2^64, and nothing else changes |
| PhysMem.Shifted | kernel/src/mem/pmemm.rs:170-172 | every descriptor's virtual start moves by the offset, modulo 2^64, and nothing else changes |
| PhysMem.Moved | kernel/src/mem/pmemm.rs:175-186 | every node's address moves by the offset, modulo 2^64, and its data stays |
| PhysMem.MovedKeeps | kernel/src/mem/pmemm.rs:175-186 | moving the list keeps its order and its page total |
| PhysMem.MovedBack | kernel/src/mem/pmemm.rs:175-186 | moving by an offset and back by its negation restores every address below 2^64 |
| PhysMem.HandleFixed | kernel/src/mem/pmemm.rs:86-89 | `PhysMemHandle::fix` sets the virtual base to the physical base plus the offset, modulo 2^64, and keeps the rest |
| PhysMem.BuildListStep | kernel/src/mem/pmemm.rs:121-149 | the list built from one more region is the earlier list with that region's node inserted at its place |
| PhysMem.BuildListKeeps | kernel/src/mem/pmemm.rs:117-149 | the list `new` builds is in descending order and holds the pages of every region yielded |
| PhysMem.RelocatedPages | kernel/src/mem/pmemm.rs:112-115 | relocating the map changes no type and no page count |
| PhysMem.NewList | kernel/src/mem/pmemm.rs:108-156 | the list `new` starts with is in descending order and holds exactly the available pages of the memory map |
| PhysMem.AvailableRun | kernel/src/mem/pmemm.rs:49-50 | a run of available descriptors holds only available pages |
| PhysMem.UnavailableRun | kernel/src/mem/pmemm.rs:35-38 | a run of unavailable descriptors holds no available page |
| PhysMem.Relocate | kernel/src/mem/pmemm.rs:110-115 | the first loop of `new` relocates every descriptor and totals the page counts of all of them |
| PhysMem.PhysMemManager.constructor | kernel/src/mem/pmemm.rs:108-156 | `new` relocates the map, sets `phys_mem_size` to the total of all page counts and builds the list from every region the iterator yields, using the corrected accumulation and the corrected insertion |
| PhysMem.PhysMemManager.BuildRegions | kernel/src/mem/pmemm.rs:120-149 | the second loop of `new` inserts every yielded region at its place and changes nothing else |
| PhysMem.PhysMemManager.InsertNode | kernel/src/mem/pmemm.rs:132-147 | the insertion walk (corrected) puts the node before the first node that is not larger and changes nothing else |
| PhysMem.PhysMemManager.Fix | kernel/src/mem/pmemm.rs:163-187 | `fix` moves every descriptor's virtual start and every node's address by the offset; an empty list is a null dereference and reports failure |
| PhysMem.PhysMemManager.ChompOnLargest | kernel/src/mem/pmemm.rs:197-221 | `chomp_on_largest` returns the block and leaves the list `Chomp` describes, and on an underflow panics leaving the list as it was |
| PhysMem.PhysMemManager.Claim | kernel/src/mem/pmemm.rs:190-295 | `claim` succeeds exactly when `ClaimSpec` does, returning its handle and its list, and on a panic leaves the list as it was |
| PhysMem.PhysMemManager.Reclaim | kernel/src/mem/pmemm.rs:301-335 | `reclaim` leaves the list `ReclaimSpec` describes, and on a null head panics leaving it as it was |
| PhysMem.ClaimWalkAsWrittenMissesHead | kernel/src/mem/pmemm.rs:274-290 | as written, the walk panics on 8 pages from the ordered list 8, 4 although the head fits exactly, and the corrected claim takes the head whole; the flaw is latent, as the first test answers this input first with the 4-page region |
| PhysMem.ClaimAsWrittenHangs | kernel/src/mem/pmemm.rs:234-263 | as written, a request smaller than every listed region passes the first test, and every round of the walk moves on round the ring, so `claim` never returns; the corrected claim answers it |
| PhysMem.RemoveAsWrittenKeepsClaimed | kernel/src/mem/pmemm.rs:238 | as written, claiming 8 pages from the one-node list 4 removes the head, which stays the head, so the claimed node stays listed; the corrected removal empties the list |
| TallocNew.RoundDown | kernel/src/memm/talloc.rs:375 | `x & !(m - 1)` is the multiple of `m` at or just below `x` |
| TallocNew.RoundUp | kernel/src/memm/talloc.rs:374 | `x + m - 1 & !(m - 1)` is the multiple of `m` at or just above `x` |
| TallocNew.LayoutToSize | kernel/src/memm/talloc.rs:434-454 | `layout_to_size` gives a power of two no smaller than the layout's size, its alignment or the smallest block |
| TallocNew.LayoutToSizeBitwise | kernel/src/memm/talloc.rs:449-453 | the size is the previous power of two of the bitwise or of `next_pow2(size)`, `align` and `smlst_block`, whose operand is a nonzero `u64` |
| TallocNew.LayoutToSizeLeast | kernel/src/memm/talloc.rs:434-454 | no smaller power of two serves the size, the alignment and the smallest block |
| TallocNew.BlockSizeAt | kernel/src/memm/talloc.rs:493-509 | the block size of every granularity is a power of two between the smallest block and the arena's power of two, and halves from one granularity to the next |
| TallocNew.Granularity | kernel/src/memm/talloc.rs:99-102 | the difference of leading-zero counts is the arena's exponent less the size's |
| TallocNew.GranularityOfSize | kernel/src/memm/talloc.rs:95-102 | a power-of-two size from the smallest block to the arena's power of two has a granularity that has a list, whose block size is that size and whose halves are the next granularity's |
| TallocNew.ToggleFlipsOne | kernel/src/memm/talloc.rs:122-137 | `toggle_bitflag` flips the bit `read_bitflag` reads at the offset and no other bit |
| TallocNew.ToggleTwice | kernel/src/memm/talloc.rs:132-137 | toggling a bit twice restores the bitmap |
| TallocNew.AddBlockNextSpec | kernel/src/memm/talloc.rs:144-156 | `add_block_next` sets the avails bit of its granularity and keeps the books in shape |
| TallocNew.RemoveBlockNextSpec | kernel/src/memm/talloc.rs:164-180 | `remove_block_next` returns the first block of the list, which loses it, and the avails bit stays set exactly when more blocks remain |
| TallocNew.RemoveBlockSpec | kernel/src/memm/talloc.rs:189-202 | `remove_block` takes the node off its list, which becomes one shorter, and the avails bit stays set exactly when more blocks remain |
| TallocNew.HighestBelow | kernel/src/memm/talloc.rs:482-492 | the masked avails word picks the highest available granularity below g, and is zero exactly when no granularity below g is available |
| TallocNew.AllocSpec | kernel/src/memm/talloc.rs:465-513 | `alloc` keeps the books in shape |
| TallocNew.AllocLargerSpec | kernel/src/memm/talloc.rs:480-512 | `alloc` from a larger block fails exactly when no granularity below the wanted one has a free block |
| TallocNew.TakeAndSplitSpec | kernel/src/memm/talloc.rs:492-512 | the block `alloc` returns from a larger list is that list's first block |
| TallocNew.AllocNoneIff | kernel/src/memm/talloc.rs:465-490 | `alloc` finds no block exactly when the block size exceeds the arena or no list of blocks at least that large has a block |
| TallocNew.AllocSplits | kernel/src/memm/talloc.rs:492-510 | splitting a larger block returns the head of its list, removes it there, and pushes one upper buddy onto every granularity between it and the wanted one, leaving the other lists alone |
| TallocNew.SplitLists | kernel/src/memm/talloc.rs:497-510 | the splitting loop pushes the upper half of the block onto the list of each granularity it visits and leaves the other lists alone |
| TallocNew.MergeSpec | kernel/src/memm/talloc.rs:522-547 | the merging loop of `dealloc` keeps the books in shape when it does not panic |
| TallocNew.MergeStop | kernel/src/memm/talloc.rs:529-546 | at a clear parity bit the merging loop stops and frees the block at its granularity |
| TallocNew.MergeSetBit | kernel/src/memm/talloc.rs:529-543 | at a set parity bit the merging loop takes the buddy round |
| TallocNew.MergeStepPanics | kernel/src/memm/talloc.rs:529-542 | a set parity bit whose buddy is missing from its list, or a merge at granularity 0, panics |
| TallocNew.MergeStep | kernel/src/memm/talloc.rs:529-543 | a set parity bit unlinks the buddy (the block on the other side of the bit of weight `size`) and goes on one granularity up from the lower of the two |
| TallocNew.DeallocSpec | kernel/src/memm/talloc.rs:522-547 | `dealloc` keeps the books in shape when it does not panic |
| TallocNew.ShrinkSpec | kernel/src/memm/talloc.rs:553-576 | `shrink` keeps the books in shape when it does not panic |
| TallocNew.ShrinkFrees | kernel/src/memm/talloc.rs:553-576 | `shrink` to a block size no larger changes nothing when the sizes agree, and otherwise pushes one upper half onto every granularity below the old one down to the new one, leaving the other lists alone |
| TallocNew.LowBit | kernel/src/memm/talloc.rs:403 | `1 << trailing_zeros` is a power of two dividing the address; at 0 it is the masked shift's 1, which `release` meets only at the end of its walk (see Findings) |
| TallocNew.ReleaseAsWrittenShiftsAtNull | kernel/src/memm/talloc.rs:400-407 | as written, with overflow checks, the ascending walk from any base at or below 0 lands exactly on 0 still ascending, where `1 << 0.trailing_zeros()` panics |
| TallocNew.ReleaseAtAcme | kernel/src/memm/talloc.rs:400-420 | corrected: once the walk of `release` reaches `acme`, ascending or not, the loop ends and deallocates nothing |
| TallocNew.LowBitLeast | kernel/src/memm/talloc.rs:403 | every power of two dividing a nonzero address divides its lowest set bit |
| TallocNew.ReleaseFromBlocks | kernel/src/memm/talloc.rs:399-430 | the loop of `release` deallocates exactly the blocks `ReleaseBlocks` lists, in order, and stops at the first panic |
| TallocNew.ReleaseBlocksTile | kernel/src/memm/talloc.rs:399-430 | the blocks of the loop over a span aligned to the smallest block and not around address 0 lie end to end across the span, each a power of two aligned to its size, at least the smallest block and not at address 0 |
| TallocNew.DescendingTile | kernel/src/memm/talloc.rs:411-419 | the descending blocks tile what is left of the span with such blocks |
| TallocNew.ReleaseEnd | kernel/src/memm/talloc.rs:412-418 | the loop ends, changing nothing, once less than a smallest block is left |
| TallocNew.ReleaseSwitch | kernel/src/memm/talloc.rs:402-410 | the loop turns to descending blocks once the ascending block would pass `acme` |
| TallocNew.ReleaseFromStep | kernel/src/memm/talloc.rs:402-429 | a round of the loop deallocates its block and goes on from the block's end |
| TallocNew.ReleaseSpec | kernel/src/memm/talloc.rs:372-431 | `release` keeps the books in shape when it does not panic; a walk that reaches 0 ends there, as corrected (ReleaseAtAcme) |
| TallocNew.ReleaseAroundNullSpec | kernel/src/memm/talloc.rs:386-390 | the release around address 0 keeps the books in shape when it does not panic; its part below 0 ends at 0 without the debug shift's panic (ReleaseAtAcme) |
| TallocNew.NullSplitPieces | kernel/src/memm/talloc.rs:386-389 | neither part of the split around address 0 straddles it again |
| TallocNew.NullSplitPanics | kernel/src/memm/talloc.rs:386-387 | a panic releasing the part below address 0 is a panic of the whole release |
| TallocNew.NullSplitThen | kernel/src/memm/talloc.rs:386-390 | once the part below address 0 is released, the whole is the release of the part from the smallest block up |
| TallocNew.ReleaseCovers | kernel/src/memm/talloc.rs:372-431 | `release` of a span inside the arena with a whole smallest block in it, not around address 0, deallocates exactly the blocks that tile the span rounded inward |
| TallocNew.NullSplitCovers | kernel/src/memm/talloc.rs:386-390 | around address 0 the two parts, with the first one's end corrected to address 0, round to the span's part below 0 and to its part from the smallest block up |
| TallocNew.NullSplitAsWrittenSkips | kernel/src/memm/talloc.rs:387-388 | as written, releasing [-100, 1000) with 32-byte smallest blocks releases [-96, -32) and then from 32 up, so [-32, 0) is never released |
| TallocNew.ReleaseNothing | kernel/src/memm/talloc.rs:380-383 | `release` of a span with no whole smallest block inside leaves the books as they are |
| TallocNew.ReleaseAsWrittenPastSpan | kernel/src/memm/talloc.rs:373-415 | as written, releasing [17, 18) with 16-byte smallest blocks rounds to base 32 and acme 16, and the loop deallocates 2^63 bytes at 32 |
| TallocNew.SliceBytesOk | kernel/src/memm/talloc.rs:210-231 | `slice_bytes` succeeds exactly when the arena is between 2^6 and 2^48 bytes, the smallest block is a power of two of at least a node, and it is no larger than the arena's power of two |
| TallocNew.SliceBytesValid | kernel/src/memm/talloc.rs:219-231 | on success `slice_bytes` gives one sentinel per granularity and a bitmap of at least one byte with a bit for every slot |
| TallocNew.SliceLevels | kernel/src/memm/talloc.rs:224-230 | the number of lists is `(arena_size - 1).log2() + 1 - smallest_block.log2() + 1`, the number of granularities of the arena |
| TallocNew.SliceBytesOf4096 | kernel/src/memm/talloc.rs:219-231 | an arena of 4096 bytes with 16-byte smallest blocks needs 144 bytes of sentinels and 64 of bitmap |
| TallocNew.LlAlignOffset | kernel/src/memm/talloc.rs:291-292 | the padding before the sentinels is 1 to 16 bytes and brings the address to a multiple of the node size |
| TallocNew.EmptyBooksOk | kernel/src/memm/talloc.rs:304-327 | fresh books with a list per granularity and a zeroed bitmap of enough bytes are in shape |
| TallocNew.ExtendSpec | kernel/src/memm/talloc.rs:277-363 | `extend` of an allocator without books leaves a valid arena and books in shape when it does not panic |
| TallocNew.ExtendSlicedPanics | kernel/src/memm/talloc.rs:281-296 | `extend` panics on `free_mem` outside the arena or too small for the padding, sentinels and bitmap |
| TallocNew.ExtendSlicedRelease | kernel/src/memm/talloc.rs:290-362 | with `free_mem` inside the arena and room for the books, `extend` installs fresh books and releases the rest of `free_mem` |
| TallocNew.ExtendRelease | kernel/src/memm/talloc.rs:299-327 | the arena `extend` installs is the one asked for, and its books stay in shape |
| TallocNew.ReqFreeMemExact | kernel/src/memm/talloc.rs:270-294 | with the padding `extend` takes, less `free_mem` than `req_free_mem` at `arena_base` makes `extend` panic, and that much or more inside the arena is accepted and the rest released |
| TallocNew.ReqFreeMemAsWrittenShort | kernel/src/memm/talloc.rs:273-292 | as written, `req_free_mem` for 4096 bytes at address 0 with 16-byte blocks asks for 208 bytes, and `extend` given 208 bytes there panics |
| TallocNew.LayoutSize | kernel/src/memm/talloc.rs:525-556 | the block size of a layout is a power of two no smaller than its size, its alignment or the smallest block |
| TallocNew.BlockSizeOrder | kernel/src/memm/talloc.rs:99-101 | one block size is at least another exactly when its granularity is not higher |
| TallocNew.Talloc.NewInvalid | kernel/src/memm/talloc.rs:251-262 | `new_invalid` has no arena, no lists, a clear `avails`, an empty bitmap and the smallest block given |
| TallocNew.Talloc.AddBlockNext | kernel/src/memm/talloc.rs:144-156 | `add_block_next` keeps the allocator valid and updates its books as `AddBlockNextSpec` |
| TallocNew.Talloc.RemoveBlockNext | kernel/src/memm/talloc.rs:164-180 | `remove_block_next` keeps the allocator valid, returns the block and updates the books as `RemoveBlockNextSpec` |
| TallocNew.Talloc.RemoveBlock | kernel/src/memm/talloc.rs:189-202 | `remove_block` keeps the allocator valid and updates the books as `RemoveBlockSpec` |
| TallocNew.Talloc.SplitRound | kernel/src/memm/talloc.rs:499-510 | one round of the splitting loop leaves what the rest of the loop does equal to the whole loop |
| TallocNew.Talloc.Split | kernel/src/memm/talloc.rs:497-510 | the splitting loop keeps the allocator valid and updates the books as `SplitSpec` |
| TallocNew.Talloc.Alloc | kernel/src/memm/talloc.rs:465-513 | `alloc` keeps the allocator valid and returns the block and the books of `AllocSpec` |
| TallocNew.Talloc.AllocLarger | kernel/src/memm/talloc.rs:480-512 | `alloc`'s path through a larger block returns the block and books of `AllocLargerSpec` |
| TallocNew.Talloc.TakeAndSplit | kernel/src/memm/talloc.rs:492-512 | taking and splitting a larger block returns the block and books of `TakeAndSplitSpec` |
| TallocNew.Talloc.Merge | kernel/src/memm/talloc.rs:527-546 | the merging loop panics exactly when `MergeSpec` does, and otherwise keeps the allocator valid with the books `MergeSpec` gives |
| TallocNew.Talloc.Dealloc | kernel/src/memm/talloc.rs:522-547 | `dealloc` panics exactly when `DeallocSpec` does, and otherwise keeps the allocator valid with the books it gives |
| TallocNew.Talloc.Shrink | kernel/src/memm/talloc.rs:553-576 | `shrink` panics exactly when `ShrinkSpec` does, and otherwise keeps the allocator valid with the books it gives |
| TallocNew.Talloc.Release | kernel/src/memm/talloc.rs:372-431 | `release` panics exactly when `ReleaseSpec` does, and otherwise keeps the allocator valid with the books it gives |
| TallocNew.Talloc.ReleaseAroundNull | kernel/src/memm/talloc.rs:386-390 | the release around address 0 panics exactly when `ReleaseAroundNullSpec` does, and otherwise keeps the allocator valid with the books it gives |
| TallocNew.Talloc.ReleaseLoop | kernel/src/memm/talloc.rs:399-430 | the loop of `release` panics exactly when `ReleaseFrom` does, and otherwise keeps the allocator valid with the books it gives |
| TallocNew.Talloc.ReleaseAscending | kernel/src/memm/talloc.rs:402-429 | an ascending round of the loop moves forward inside the span and leaves what the rest of the loop does equal to the loop from where it was |
| TallocNew.Talloc.ReleaseDescending | kernel/src/memm/talloc.rs:411-429 | a descending round does the same, or ends the loop with the books unchanged |
| TallocNew.Talloc.ReleaseBlock | kernel/src/memm/talloc.rs:424-429 | the `dealloc` of a round's block moves the loop to the block's end, or is the loop's panic |
| TallocNew.Talloc.Extend | kernel/src/memm/talloc.rs:277-363 | `extend` of an allocator without books panics exactly when `ExtendSpec` does, and otherwise leaves a valid allocator with its arena and books |
| TallocNew.Talloc.ExtendWith | kernel/src/memm/talloc.rs:281-362 | `extend` past the slice sizes panics exactly when `ExtendSliced` does, and otherwise leaves its arena and books |
| TallocNew.Talloc.InstallRelease | kernel/src/memm/talloc.rs:299-327 | the arena and fresh books `extend` installs, then the release of its memory, as `ExtendRelease` |
| TallocNew.New | kernel/src/memm/talloc.rs:237-242 | `new` panics exactly when `extend` of a fresh allocator does, and otherwise yields a valid allocator with that arena and those books |
| TallocOld.Levels | kernel/src/memman/talloc.rs:260 | the number of lists is between 1 and 60 |
| TallocOld.BlockSizeAt | kernel/src/memman/talloc.rs:530-534 | the block size of every granularity is a power of two between the smallest block and the arena's power of two, and halves from one granularity to the next |
| TallocOld.Granularity | kernel/src/memman/talloc.rs:118-123 | the difference of leading-zero counts is the arena's exponent less the size's |
| TallocOld.GranularityOfSize | kernel/src/memman/talloc.rs:118-123 | a power-of-two size from the smallest block to the arena's power of two has a granularity that has a list, whose block size is that size |
| TallocOld.BlockSizeOrder | kernel/src/memman/talloc.rs:118-123 | one block size is at least another exactly when its granularity is not higher |
| TallocOld.ToggleBit | kernel/src/memman/talloc.rs:136-147 | `toggle_bitflag` flips the bit `read_bitflag` reads at the offset and no other |
| TallocOld.BuddiesShareBit | kernel/src/memman/talloc.rs:67-72 | with the arena base rounded down to twice the block size, the two buddies of a pair share their parity bit |
| TallocOld.BitmapOffsetAsWrittenSplitsBuddies | kernel/src/memman/talloc.rs:71 | as written, in the arena of 64 bytes at 16 with 16-byte blocks the buddies at 32 and 48 get bits 2 and 3, where the corrected offset gives both bit 3 |
| TallocOld.Without | kernel/src/memman/talloc.rs:205-217 | the list without the node is one shorter |
| TallocOld.WithoutCount | kernel/src/memman/talloc.rs:205-217 | taking the node out removes one occurrence of it and keeps every other block |
| TallocOld.AddBlockNextSpec | kernel/src/memman/talloc.rs:154-171 | `add_block_next` sets the avails bit of its granularity and keeps the books in shape |
| TallocOld.RemoveBlockNextSpec | kernel/src/memman/talloc.rs:177-196 | `remove_block_next` returns the first block of the list, which loses it, and the avails bit stays set exactly when more blocks remain |
| TallocOld.RemoveBlockSpec | kernel/src/memman/talloc.rs:205-217 | `remove_block` takes the node off its list and the avails bit stays set exactly when more blocks remain |
| TallocOld.RemoveBlockKeeps | kernel/src/memman/talloc.rs:205-217 | `remove_block` changes only the list of its own granularity |
| TallocOld.LayoutSize | kernel/src/memman/talloc.rs:513-564 | the block size of a layout is a power of two no smaller than its size, its alignment or the smallest block |
| TallocOld.AllocSpec | kernel/src/memman/talloc.rs:505-550 | `alloc` keeps the books in shape when it does not panic |
| TallocOld.AllocLargerSpec | kernel/src/memman/talloc.rs:525-549 | `alloc` from a larger block returns null exactly when no granularity below the wanted one has a free block |
| TallocOld.TakeAndSplitSpec | kernel/src/memman/talloc.rs:529-549 | the block `alloc` returns from a larger list is that list's first block |
| TallocOld.AllocNullIff | kernel/src/memman/talloc.rs:505-527 | `alloc` panics exactly when the block size exceeds the arena's power of two, and otherwise returns null exactly when no list of blocks at least that large has a block |
| TallocOld.AllocExact | kernel/src/memman/talloc.rs:520-523 | with a free block of its own granularity `alloc` takes the head of that list and leaves the other lists alone |
| TallocOld.SplitLists | kernel/src/memman/talloc.rs:533-547 | the splitting loop pushes the upper half of the block onto the list of each granularity it visits and leaves the other lists alone |
| TallocOld.AllocSplits | kernel/src/memman/talloc.rs:529-547 | splitting a larger block returns the head of its list, removes it there, and pushes one upper buddy onto every granularity between it and the wanted one |
| TallocOld.MergeSpec | kernel/src/memman/talloc.rs:555-588 | the merging loop of `dealloc` keeps the books in shape when it does not panic |
| TallocOld.MergeStop | kernel/src/memman/talloc.rs:569-587 | at a clear parity bit the merging loop stops and frees the block at its granularity |
| TallocOld.MergeSetBit | kernel/src/memman/talloc.rs:569-582 | at a set parity bit the merging loop takes the buddy round |
| TallocOld.MergeStepPanics | kernel/src/memman/talloc.rs:569-581 | a set parity bit whose buddy is missing from its list, or a merge at granularity 0, panics |
| TallocOld.MergeStep | kernel/src/memman/talloc.rs:569-582 | a set parity bit unlinks the buddy and goes on one granularity up from the lower of the two |
| TallocOld.DeallocSpec | kernel/src/memman/talloc.rs:555-588 | `dealloc` keeps the books in shape when it does not panic |
| TallocOld.ShrinkSpec | kernel/src/memman/talloc.rs:670-708 | `shrink` keeps the books in shape when it does not panic |
| TallocOld.ShrinkFrees | kernel/src/memman/talloc.rs:670-708 | `shrink` panics exactly when it shrinks from a size above the arena's power of two, changes nothing when the new size is no smaller, and otherwise pushes one upper half onto every granularity below the old one down to the new one |
| TallocOld.GrowTake | kernel/src/memman/talloc.rs:647-659 | the second loop of `grow` keeps the books in shape when it does not panic |
| TallocOld.GrowMove | kernel/src/memman/talloc.rs:631-637 | the moving path of `grow` keeps the books in shape when it does not panic |
| TallocOld.GrowSpec | kernel/src/memman/talloc.rs:599-663 | `grow` keeps the books in shape when it does not panic |
| TallocOld.GrowTakeStep | kernel/src/memman/talloc.rs:649-659 | a round of the second loop on a listed upper buddy takes it off its own list only and goes one granularity up |
| TallocOld.ListedAt | kernel/src/memman/talloc.rs:649-659 | the upper buddies the second loop takes are those at `p` plus each block size from the old granularity to just below the new one |
| TallocOld.GrowTakeOk | kernel/src/memman/talloc.rs:649-659 | the second loop of `grow` succeeds exactly when every one of those buddies is on its list |
| TallocOld.GrowTakeUnlinks | kernel/src/memman/talloc.rs:649-659 | the second loop takes each of those buddies off its list |
| TallocOld.GrowTakeKeeps | kernel/src/memman/talloc.rs:649-659 | the second loop leaves the lists of the other granularities alone |
| TallocOld.GrowTakeAll | kernel/src/memman/talloc.rs:649-659 | the books after the second loop, list by list |
| TallocOld.GrowKeeps | kernel/src/memman/talloc.rs:604-662 | `grow` panics on a block size above the arena's power of two, and to a block size no larger returns the same pointer with the books unchanged |
| TallocOld.GrowInPlace | kernel/src/memman/talloc.rs:618-662 | `grow` to a larger size whose upper buddies are all free returns the same pointer and takes exactly those buddies off their lists |
| TallocOld.GrowByTake | kernel/src/memman/talloc.rs:628-662 | once the first loop passes and the second succeeds, `grow` returns the same pointer with the books of the second loop |
| TallocOld.SaturatingAdd | kernel/src/memman/talloc.rs:460 | `saturating_add` on `u64` is the sum, or the largest `u64` when the sum does not fit |
| TallocOld.AscendingFitsAgrees | kernel/src/memman/talloc.rs:469-471 | the overflow-free ascending test panics only at address 0, holds exactly when the block fits below the end, and agrees with the test as written away from the top of the address space |
| TallocOld.AscendingFitsAsWrittenOverflows | kernel/src/memman/talloc.rs:471 | as written, releasing a span at 0xFFFF_8000_0000_0000 panics on the first test, as base plus its 2^47-byte block is 2^64, where the intended test turns to descending blocks |
| TallocOld.DeallocAll | kernel/src/memman/talloc.rs:467-496 | the `dealloc`s of the release loop keep the books in shape when they do not panic |
| TallocOld.ReleaseSpec | kernel/src/memman/talloc.rs:447-497 | `release` keeps the books in shape when it does not panic |
| TallocOld.ReleaseCovers | kernel/src/memman/talloc.rs:447-497 | `release` of an aligned nonzero span inside the arena hands `dealloc` blocks that tile the span exactly, each a power of two of at least the smallest block aligned to its size |
| TallocOld.LowBlocks | kernel/src/memman/talloc.rs:399-412 | each block the restore-low loop frees is nonempty and no larger than the distance left |
| TallocOld.HighBlocks | kernel/src/memman/talloc.rs:417-429 | each block the restore-high loop frees is nonempty and no larger than the distance left |
| TallocOld.LowBlocksTile | kernel/src/memman/talloc.rs:399-412 | the restore-low loop frees blocks that lie end to end from the block's base up to the span's start |
| TallocOld.HighBlocksTile | kernel/src/memman/talloc.rs:417-429 | the restore-high loop frees blocks that lie end to end from the block's end down to the span's end |
| TallocOld.LowBlocksAligned | kernel/src/memman/talloc.rs:399-412 | from a base aligned beyond the distance, every block the restore-low loop frees is at least the smallest block and aligned to its size |
| TallocOld.HighBlocksAligned | kernel/src/memman/talloc.rs:417-429 | the same for the restore-high loop |
| TallocOld.AddAll | kernel/src/memman/talloc.rs:401-429 | the `add_block_next`s of a restore loop keep the books in shape when they do not panic |
| TallocOld.AddAllOk | kernel/src/memman/talloc.rs:405-428 | adding aligned blocks whose sizes are granularities of the arena never panics |
| TallocOld.ReserveNode | kernel/src/memman/talloc.rs:377-435 | `reserve` meeting a free block keeps the books in shape when it does not panic |
| TallocOld.ReserveRestores | kernel/src/memman/talloc.rs:390-430 | on a block holding a bound the restore loops give back exactly the block's parts outside the span, in blocks of the arena |
| TallocOld.ReserveNodeOk | kernel/src/memman/talloc.rs:377-435 | `reserve` meeting an aligned free block of its list with aligned bounds never panics |
| TallocOld.RestorePartsOk | kernel/src/memman/talloc.rs:397-430 | the restore loops on an aligned block of the arena with aligned bounds never panic |
| TallocOld.ReserveRounds | kernel/src/memman/talloc.rs:374-438 | the rounds of `reserve` keep the books in shape when they do not panic |
| TallocOld.FinestGranularityAsWritten | kernel/src/memman/talloc.rs:370-372 | the granularities of the bounds' alignments are computed exactly when both bounds are nonzero and aligned within the arena's power of two |
| TallocOld.Min | kernel/src/memman/talloc.rs:372 | the minimum is one of the two and at most each |
| TallocOld.ReserveSpec | kernel/src/memman/talloc.rs:350-439 | the corrected `reserve` keeps the books in shape when it does not panic |
| TallocOld.FinestVisits | kernel/src/memman/talloc.rs:367-375 | for aligned nonzero bounds, the corrected rounds visit exactly the granularities whose blocks are at least the span's alignment capped at the arena |
| TallocOld.ReserveAsWrittenStopsShort | kernel/src/memman/talloc.rs:372-375 | as written, for bounds aligned within the arena the rounds stop just before the granularity whose blocks are the span's alignment |
| TallocOld.ReserveOneFree | kernel/src/memman/talloc.rs:374-386 | reserving the one free 16-byte block of a small arena: the rounds through its granularity take it off, the rounds that stop before it leave the books as they are |
| TallocOld.ReserveAsWrittenKeepsFreeBlock | kernel/src/memman/talloc.rs:370-375 | as written, reserving [80, 96) in the arena [64, 128) with 16-byte blocks leaves the free block at 80 on its list; the corrected rounds take it off |
| TallocOld.ReserveAsWrittenUnderflows | kernel/src/memman/talloc.rs:370-372 | as written, reserving [4096, 4112) in the arena [4096, 4160) panics, as the base's alignment exceeds the arena's power of two; the corrected granularity is capped and the block at 4096 is taken off |
| TallocOld.BoundAvailable | kernel/src/memman/talloc.rs:316-323 | `bound_available` panics exactly on a zero size or a sum that overflows a `u64` |
| TallocOld.BoundAvailableInside | kernel/src/memman/talloc.rs:316-323 | the span it gives has aligned ends inside [base, base + size), each less than a smallest block from its end, and holds exactly the aligned smallest blocks inside [base, base + size) |
| TallocOld.BoundReserved | kernel/src/memman/talloc.rs:332-338 | `bound_reserved` panics exactly on a zero size or an end that overflows a `u64` |
| TallocOld.BoundReservedCovers | kernel/src/memman/talloc.rs:332-338 | the span it gives has aligned ends covering [base, base + size), each less than a smallest block past it, and holds exactly the aligned smallest blocks that overlap [base, base + size) |
| TallocOld.SliceArgSizesOk | kernel/src/memman/talloc.rs:242-264 | `slice_arg_sizes` succeeds exactly on valid arguments whose smallest block fits the arena's power of two, and then counts the arena's granularities and gives a bitmap of at least one word with a bit for every slot |
| TallocOld.NewReservesAll | kernel/src/memman/talloc.rs:272-303 | `new` succeeds exactly on valid arguments, an arena that does not overflow and slices of the right lengths, and then leaves the whole arena reserved: every list empty and no parity bit set |
| TallocOld.Talloc.NewInvalid | kernel/src/memman/talloc.rs:223-234 | `new_invalid` has every field zero and the slices empty |
| TallocOld.Talloc.Make | kernel/src/memman/talloc.rs:282-302 | the body of `new` past its asserts yields a valid allocator with the arena and books of `NewSpec` |
| TallocOld.Talloc.BlockGranularity | kernel/src/memman/talloc.rs:118-123 | `block_granularity` is the granularity of the size |
| TallocOld.Talloc.AddBlockNext | kernel/src/memman/talloc.rs:154-171 | `add_block_next` keeps the allocator valid and updates its books as `AddBlockNextSpec` |
| TallocOld.Talloc.RemoveBlockNext | kernel/src/memman/talloc.rs:177-196 | `remove_block_next` keeps the allocator valid, returns the block and updates the books as `RemoveBlockNextSpec` |
| TallocOld.Talloc.RemoveBlock | kernel/src/memman/talloc.rs:205-217 | `remove_block` keeps the allocator valid and updates the books as `RemoveBlockSpec` |
| TallocOld.Talloc.SplitRound | kernel/src/memman/talloc.rs:535-547 | one round of the splitting loop leaves what the rest of the loop does equal to the whole loop |
| TallocOld.Talloc.Split | kernel/src/memman/talloc.rs:533-547 | the splitting loop keeps the allocator valid and updates the books as `SplitSpec` |
| TallocOld.Talloc.Alloc | kernel/src/memman/talloc.rs:505-550 | `alloc` panics exactly when `AllocSpec` does, and otherwise keeps the allocator valid and returns its block and books |
| TallocOld.Talloc.AllocLarger | kernel/src/memman/talloc.rs:525-549 | `alloc`'s path through a larger block returns the block and books of `AllocLargerSpec` |
| TallocOld.Talloc.TakeAndSplit | kernel/src/memman/talloc.rs:529-549 | taking and splitting a larger block returns the block and books of `TakeAndSplitSpec` |
| TallocOld.Talloc.Merge | kernel/src/memman/talloc.rs:565-587 | the merging loop panics exactly when `MergeSpec` does, and otherwise keeps the allocator valid with its books |
| TallocOld.Talloc.Dealloc | kernel/src/memman/talloc.rs:555-588 | `dealloc` panics exactly when `DeallocSpec` does, and otherwise keeps the allocator valid with its books |
| TallocOld.Talloc.Shrink | kernel/src/memman/talloc.rs:670-708 | `shrink` panics exactly when `ShrinkSpec` does, and otherwise keeps the allocator valid with its books |
| TallocOld.Talloc.GrowFitsLoop | kernel/src/memman/talloc.rs:622-643 | the first loop of `grow` passes exactly when every upper buddy is free and the block is the lower one at each granularity |
| TallocOld.Talloc.GrowTakeLoop | kernel/src/memman/talloc.rs:647-659 | the second loop of `grow` panics exactly when `GrowTake` does, and otherwise keeps the allocator valid with its books |
| TallocOld.Talloc.GrowTakeBuddy | kernel/src/memman/talloc.rs:650-658 | one round of the second loop leaves what the rest of the loop does equal to the whole loop |
| TallocOld.Talloc.Grow | kernel/src/memman/talloc.rs:599-663 | `grow` panics exactly when `GrowSpec` does, and otherwise keeps the allocator valid and returns its pointer and books |
| TallocOld.Talloc.Release | kernel/src/memman/talloc.rs:447-497 | `release` panics exactly when `ReleaseSpec` does, and otherwise keeps the allocator valid with its books |
| TallocOld.Talloc.ReleaseLoop | kernel/src/memman/talloc.rs:465-496 | the loop of `release` deallocates the blocks `ReleaseBlocks` lists, panicking exactly when that does |
| TallocOld.Talloc.ReleaseRound | kernel/src/memman/talloc.rs:467-496 | one round of the loop leaves what the rest of the loop does equal to the loop from where it was |
| TallocOld.Talloc.ReleaseAscRound | kernel/src/memman/talloc.rs:468-495 | an ascending round does the same |
| TallocOld.Talloc.ReleaseDescRound | kernel/src/memman/talloc.rs:477-495 | a descending round does the same, or ends the loop |
| TallocOld.Talloc.ReleaseBlock | kernel/src/memman/talloc.rs:488-495 | the `dealloc` of a round's block moves the loop to the block's end, or is the loop's panic |
| TallocOld.Talloc.AddRestored | kernel/src/memman/talloc.rs:405-428 | adding one block of a restore loop leaves what the rest adds equal to the whole |
| TallocOld.Talloc.RestoreLowRound | kernel/src/memman/talloc.rs:401-412 | one round of the restore-low loop frees the previous power of two of the distance left |
| TallocOld.Talloc.RestoreLowLoop | kernel/src/memman/talloc.rs:399-412 | the restore-low loop frees the blocks of `LowBlocks`, panicking exactly when that does |
| TallocOld.Talloc.RestoreHighRound | kernel/src/memman/talloc.rs:419-429 | one round of the restore-high loop frees the previous power of two of the distance left, just below the end |
| TallocOld.Talloc.RestoreHighLoop | kernel/src/memman/talloc.rs:417-429 | the restore-high loop frees the blocks of `HighBlocks`, panicking exactly when that does |
| TallocOld.Talloc.ReserveAt | kernel/src/memman/talloc.rs:377-435 | `reserve` meeting one free block does what `ReserveBlock` says |
| TallocOld.Talloc.ReserveList | kernel/src/memman/talloc.rs:376-436 | the inner loop of `reserve` over the blocks list g held when it began, taking the iterator to yield only listed blocks, does what `ReserveNodes` says |
| TallocOld.Talloc.Reserve | kernel/src/memman/talloc.rs:350-439 | `reserve` with the corrected rounds panics exactly when `ReserveSpec` does, and otherwise keeps the allocator valid with its books |
| TallocOld.Talloc.ReserveLoop | kernel/src/memman/talloc.rs:374-438 | the rounds of `reserve` through granularity `fin` do what `ReserveRounds` says |
| TallocOld.New | kernel/src/memman/talloc.rs:272-303 | `new` fails exactly when `NewSpec` panics, and otherwise yields a valid allocator with its arena and books |
| TallocOld.ReserveBlock | kernel/src/memman/talloc.rs:377-435 | `reserve` meeting a free block [b, b + bs) keeps the books in shape when it does not panic |
| TallocOld.RestoreParts | kernel/src/memman/talloc.rs:397-434 | the restore loops on a just-unlinked block keep the books in shape when they do not panic |
| TallocOld.RestoreLow | kernel/src/memman/talloc.rs:397-413 | the restore-low loop keeps the books in shape when it does not panic |
| TallocOld.RestoreHigh | kernel/src/memman/talloc.rs:415-430 | the restore-high loop keeps the books in shape when it does not panic |
| TallocOld.ReserveNodes | kernel/src/memman/talloc.rs:376-436 | the inner loop of `reserve` over the listed blocks, never a sentinel, keeps the books in shape when it does not panic |
| TallocOld.ReserveNodesStep | kernel/src/memman/talloc.rs:376-436 | the inner loop meets the first node, then goes on unless that was a panic or ended the reserve |
| TallocOld.RestoreLowAligned | kernel/src/memman/talloc.rs:397-413 | on a block holding the span's start the restore-low loop frees aligned blocks of at least the smallest block and at most the block's size |
| TallocOld.RestoreHighAligned | kernel/src/memman/talloc.rs:415-430 | on a block holding the span's end the restore-high loop frees aligned blocks of at least the smallest block and at most the block's size |
| TallocOld.ReserveBlockOk | kernel/src/memman/talloc.rs:377-435 | `reserve` meeting an aligned listed block of an arena granularity with aligned bounds never panics |
| TallocOld.LowBlocksStep | kernel/src/memman/talloc.rs:401-411 | the restore-low loop frees the previous power of two of the distance left first, at the bottom |
| TallocOld.HighBlocksStep | kernel/src/memman/talloc.rs:419-428 | the restore-high loop frees the previous power of two of the distance left first, at the top |
| TallocOld.AddAllStep | kernel/src/memman/talloc.rs:405-428 | a restored block of no granularity's size panics; otherwise it is added at its granularity and the rest follow |
| TallocOld.SplitStep | kernel/src/memman/talloc.rs:535-547 | a round of the splitting loop pushes the upper half at granularity hg and the rest of the loop follows |
| TallocOld.SizesFromGranularity | kernel/src/memman/talloc.rs:118-123 | the block sizes at least that of granularity g are exactly those of the granularities up to g |
| TallocOld.ListedKeeps | kernel/src/memman/talloc.rs:649-659 | whether the buddies below granularity g are listed does not depend on list g |

## Left out

- Hardware and I/O: the CPUID instruction, the memory probe's volatile write and read-back, port and register access, and the serial console. Their results are parameters: `CpuId` decodes the registers it is given and `BootBoot.Probed` takes the probe's verdict per entry.
- Concurrency: the spin-mutex `Tallock` wrappers, the `GlobalAlloc` and `Allocator` implementations, and the atomic state of the boot configuration, which is a plain field because the model is sequential.
- Memory behind raw pointers. It is a map or a sequence: the allocators' free lists are sequences of block bases read from their sentinels, the physical-memory list is the sequence of its nodes from the head, and the page tables `map_offset` writes are the leaves it returns. The page getter and the table memory itself are not modelled.
- Integer overflow and underflow follow a build with debug assertions: an overflowing `usize` or `u64` operation panics, where a release build wraps. This holds wherever the source uses plain arithmetic: `CpuId`, `Psf.GetGlyph`, `BootBoot.MmapLen`, `Memm`, `FrameBuffer.SrcCheck`, `Terminal.Term1.WriteCharSpec`, `TallocNew` and `TallocOld`. Explicit `wrapping_*` operations are written out modulo 2^64. One shift is the exception: `TallocNew.LowBit` is next.
- TallocNew.LowBit: `1 << trailing_zeros` at address 0 takes the masked result of a build without overflow checks, which is 1. `release` computes it only once its walk has landed on `acme`, so the masked value ends the walk with nothing released (`TallocNew.ReleaseAtAcme`). A build with overflow checks panics there instead (kernel/src/memm/talloc.rs:403). That panic is recorded under Findings with `TallocNew.ReleaseAsWrittenShiftsAtNull`. `TallocNew.ReleaseSpec`, `TallocNew.ReleaseAroundNullSpec`, `TallocNew.Talloc.Release` and `TallocNew.Talloc.ReleaseAroundNull` follow the masked result.
- PhysMem: its `u64` arithmetic is unbounded, so it drops the overflow panics a debug build would raise. These are the page total of `new` (kernel/src/mem/pmemm.rs:114), the run total of the iterator (pmemm.rs:50), and the chomped block's addresses (pmemm.rs:205-206). They also include the margin `page_count + (page_count >> 2)` of `claim` (pmemm.rs:228), which overflows for a request above four fifths of 2^64. The last two are the head's end address and grown page count in `reclaim` (pmemm.rs:308-309). Only the underflow at pmemm.rs:201 is modelled, as the panic of `PhysMem.Chomp`. Apart from the margin, which depends on the request alone, these overflows need a memory map that does not fit the 64-bit address space.
- TallocNew.Talloc.Extend: only the first `extend`, onto an allocator with no books yet, is modelled. `Extend` and `ExtendWith` require empty books. The growth path over an allocator that already has books (kernel/src/memm/talloc.rs:285-287, 310-358) is not modelled. As written, that path hands the allocator's `u8` bitmap slices to `copy_slice_bits`, whose parameters are `u64` word slices, so it does not type-check as it stands. This also leaves out the kernel's out-of-memory handler that doubles the arena through it.
- TallocNew.Talloc.Alloc: the out-of-memory handler is taken to fail, as the mapper's handler `mapper_oom_handler` does (kernel/src/memm/mod.rs:101-104). Where `alloc` calls the handler and retries (kernel/src/memm/talloc.rs:471, 484), the model returns no block. The same holds for `TallocNew.AllocSpec` and `TallocNew.AllocNoneIff`. A handler that grows the arena is not modelled.
- TallocNew.BooksOk and TallocOld.BooksOk: the allocators' invariant is the books' shape (64 `avails` bits, one list per granularity, enough parity bits) together with `avails` agreeing with the lists. The model does not prove that the free blocks are disjoint, that they lie in the arena, or that each parity bit tracks exactly one free buddy. Those depend on callers passing only blocks they were given.
- Arenas whose base is not aligned to twice the arena's power of two are allowed, as in the source, but nothing is proved about their parity bits beyond `TallocOld.BuddiesShareBit` and `TallocOld.PairBit`.
- TallocOld.GrowKeeps: it states the panic on a block size above the arena's power of two in one direction only, not as an if-and-only-if, because the other paths of `grow` can panic as well, through `TallocOld.GrowTake` and `TallocOld.GrowMove`.
- TallocOld.ReserveSpec: a bound of 0 still panics in the corrected `reserve`, as `1 << trailing_zeros(0)` shifts by 64.
- TallocNew.RemoveBlockSpec and TallocOld.RemoveBlockSpec: `remove_block` of a node that is not on its list is undefined behaviour in the source. The functions require the node to be listed, and the callers that can meet an unlisted node (the merging loop, the second loop of `grow`, `reserve`) model that case as a panic.
- TallocOld.ReserveNodes: the inner loop of `reserve` is taken to meet only the blocks listed at granularity g, as the corrected `Llist.IterMut.ListOf` yields them. memman/talloc.rs:376 calls a method `iter_mut()` on the pinned sentinel, and the list revision that declares that method is not part of this model. With the llist.rs iterator, `Llist.IterMut.IterOf`, an empty list would yield its sentinel, which `reserve` would then take as a block base (see the Findings row for llist.rs:135-147). `TallocOld.Talloc.ReserveList` and `TallocOld.ReserveSpec` rest on the same assumption.
- TallocOld.GrowMove: the copy of a block's contents when `grow` moves it is not modelled; only the books are.
- CopyBits.CopySliceBits: a `bit_len` of 0 is required away. As written, the last-word index `dst_bit_index + bit_len - 1` underflows for `bit_len == 0` at bit 0.
- CopyBits.CopySliceBits: the source's debug asserts on the slice lengths (kernel/src/utils/mod.rs:9-10) are replaced by the requirement that both runs lie inside their slices.
- `PhysMemManager::barf` and `PhysMemManager::feed` (kernel/src/mem/pmemm.rs:344-414) are not modelled: `feed` is `todo!()`, and `barf`'s iterator only feeds it.
- The pmemm source refers to field names its types do not declare. The model reads them as the two fields of the node's data, the virtual and the physical base.
- BootBoot.EnvCfgAsStr: the environment text is modelled as one character per byte. `from_utf8_unchecked` (kernel/src/bootboot.rs:123) keeps the bytes as UTF-8, so a multi-byte character there is several characters here. The length, the first NUL within 4096 bytes, is exact.
- Terminal.Term1.PutGlyph: glyphs are drawn through the corrected width check `FrameBuffer.BitmapFits`. Where the check as written passes a glyph wider than what remains of the row, the source draws past the row, but the model panics.
- FrameBuffer.FrameBuffer.InternalBlt: its new contents are stated exactly under `FrameBuffer.CopyExact`: copies that move up, or left within the same rows, and copies whose rectangles share no pixel. An overlapping copy that moves down, or right within the same rows, reads pixels it has already overwritten. For such a copy only the frame is stated, that is, which bytes may change.
- kernel/src/init.rs, kernel/src/kernel.rs, the entry points, interrupt handlers, the UEFI bootloader and the superseded list, mapping and allocator files are not part of this model.

## Findings

| source | as written | input that shows it | evidently intended | confidence | as-written member | corrected member |
|---|---|---|---|---|---|---|
| amd64/src/interrupts.rs:237-240 | `set_dpl` or-s the level into the flag byte unshifted, into the type bits | ring 1 on a present ring-0 interrupt gate leaves DPL 0 and makes it a trap gate | the level shifted into bits 5..6, every other bit kept | high, not executed | Interrupts.FlagsWithDplAsWritten, Interrupts.SetDplAsWrittenLosesLevel | Interrupts.FlagsWithDpl, Interrupts.IntTrapGate.SetDpl |
| amd64/src/segmentation.rs:309-312 | `SysSegDesc::set_dpl` has the same unshifted or | as for the gate: ring 1 lands in the type bits | the level in bits 5..6 | high, not executed | Interrupts.FlagsWithDplAsWritten, Interrupts.SetDplAsWrittenLosesLevel | SystemSegments.SysSegDesc.SetDpl |
| amd64/src/segmentation.rs:113-127 | the search for two free slots for a system descriptor never advances its index past the first test | a free slot 1 gives slot 0, the null descriptor; a free slot 2 after a present slot 1 overwrites slot 1 | two consecutive free slots, neither of them slot 0 | high, not executed | Segmentation.SysSlotAsWritten, Segmentation.SysSlotAsWrittenTakesNull, Segmentation.SysSlotAsWrittenOverwritesPresent | Segmentation.SysSlot, Segmentation.SysSlotFree |
| amd64/src/segmentation.rs:254-282 | `SysSegDesc::new` masks the limit's high nibble with 0b111 | a limit with bit 19 set reads back without it | mask 0b1111, so every limit below 2^20 reads back | high, not executed | SystemSegments.NewLimitHiAsWritten, SystemSegments.NewLimitHiAsWrittenDropsBit19 | SystemSegments.NewLimitHi |
| old/cpuid.rs:456-465 | the thread-level test compares the byte `ecx & 0xff` with `0` or-ed with `1 << 8`, that is with 0x100, since `==` binds more loosely than `&` and the or; the core-level test likewise compares with 0x201 | any `ecx`, including the SMT and core sub-leaves | level number and level type compared separately | high, not executed | CpuId.IsThreadLevelAsWritten, CpuId.IsCoreLevelAsWritten, CpuId.TopologyTestsAsWrittenNeverHold | CpuId.IsThreadLevel, CpuId.IsCoreLevel, CpuId.ReadTopologyInfo |
| kernel/src/utils/mod.rs:45-86 | the last word's mask is built from `dst_bit_index_acme & 63`, one past the last bit copied | copying a whole 64-bit word keeps only bit 0; copying one bit clears the bit after it | the mask from the last bit copied, `(acme - 1) & 63` | high, not executed | CopyBits.LastMaskAsWritten, CopyBits.CopyBitsAsWrittenDropsBits, CopyBits.CopyBitsAsWrittenClobbersNext | CopyBits.LastRestore, CopyBits.CopySliceBits |
| kernel/src/utils/mod.rs:57-75 | when the rotation wraps, the pre-read moves the source index past `src_index_acme` when both are the same word, so the loop's exit test never holds | 2 bits from bit 5 to bit 0 of one-word slices | the loop runs while the source index is at most the last word | medium, not executed | CopyBits.CopyWordsAsWritten, CopyBits.CopyBitsAsWrittenRunsOff | CopyBits.CopyLoop, CopyBits.CopySliceBits |
| kernel/src/utils/llist.rs:85-93 | `mov` copies the links before isolating the source, so an isolated source leaves the copy pointing at the source | moving the isolated node 8 to 16 | the destination isolated when the source was | high, not executed | Llist.Links.MovAsWritten, Llist.MovAsWrittenKeepsSource | Llist.Links.Mov, Llist.MovRing |
| kernel/src/memm/mod.rs:164-176 | after a lower-level walk the pointer steps a whole entry from inside the entry | mapping [0x1ff000, 0x202000) writes only the page at 0x1ff000 | step to the start of the next entry | high, not executed | Memm.MapLoopAsWritten, Memm.MapOffsetAsWritten, Memm.MapOffsetAsWrittenSkipsPages | Memm.MapLoop, Memm.MapLoopTiles, Memm.MapOffset |
| kernel/src/memm/mod.rs:435-436 | `map` rounds the base down and the size up separately | 2 bytes at 0xfff give [0, 0x1000), leaving the byte at 0x1000 unmapped | round the end, base plus size, up | high, not executed | Memm.MapSpanAsWritten, Memm.MapSpanAsWrittenMissesEnd | Memm.MapSpan |
| kernel/src/out/framebuffer.rs:90 | the width check divides a pixel width by eight | an 8-pixel bitmap at column 7 of an 8-pixel-wide buffer passes | compare the bitmap's pixel width with the columns left | high, not executed | FrameBuffer.BitmapFitsAsWritten, FrameBuffer.BitmapFitsAsWrittenOverruns | FrameBuffer.BitmapFits, FrameBuffer.BitmapFitsColumns |
| kernel/src/out/terminal.rs:61-65 | `c > glyph_count` lets `c == glyph_count` through | code point `glyph_count` in a font file that ends after its glyphs | `c >= glyph_count` | high, not executed | Terminal.GlyphIndexAsWritten, Terminal.GlyphIndexAsWrittenMissing | Terminal.GlyphIndex, Terminal.GlyphIndexFound |
| kernel/src/mem/pmemm.rs:46-55 | the accumulating loop adds later available descriptors across a reserved one | available, reserved, available | a region is one run of available descriptors, adjacent in the map and contiguous in physical memory, so that a hole between two available descriptors also ends it | high, not executed | PhysMem.AccNextAsWritten, PhysMem.AccNextAsWrittenSpansReserved | PhysMem.AccNext, PhysMem.AccNextRun, PhysMem.AccNextStopsAtHole |
| kernel/src/mem/pmemm.rs:133-147 | the insertion walk never compares the last node and never moves the head | inserting 5 pages into the list 10, 3 | insert before the first node that is not larger | high, not executed | PhysMem.InsertAtAsWritten, PhysMem.InsertAsWritten, PhysMem.InsertAsWrittenBreaksOrder | PhysMem.Insert, PhysMem.InsertDescending |
| kernel/src/mem/pmemm.rs:235-243 | the first test takes the smallest region when it is smaller than the request | 8 pages from a list holding one 4-page region | take it when it is larger and within a quarter | high, not executed | PhysMem.ClaimSmallestAsWritten, PhysMem.ClaimSmallestAsWrittenTooSmall | PhysMem.ClaimSpec, PhysMem.ClaimFits, PhysMem.ClaimPanics |
| kernel/src/mem/pmemm.rs:234-263 | the first test handles only a smallest region smaller than the request, so a request below every region reaches the walk, whose successors are all larger: it circles the ring for ever | 2 pages from the list 4 | a smallest region larger than the request is taken whole or chomped | high, not executed | PhysMem.ClaimAsWrittenHangs | PhysMem.ClaimSpec, PhysMem.ClaimFits |
| kernel/src/mem/pmemm.rs:274-290 | the node the walk stops at is taken whole only when strictly larger (`>` at 278); its comment says the equal case was handled before, which fails when the walk stops at the head; latent, as the first test answers first until line 234 is corrected | 8 pages from the list 8, 4, once line 234 is corrected | take the stopping node when it is at least the request | high, not executed | PhysMem.ClaimWalkAsWritten, PhysMem.ClaimWalkAsWrittenMissesHead | PhysMem.ClaimSpec, PhysMem.ClaimExact |
| kernel/src/mem/pmemm.rs:205-206 | the chomped block's address adds a page count, not a byte count | 16 pages off a 256-page region start 240 bytes in | add the page count times the page size | high, not executed | PhysMem.ChompBaseAsWritten, PhysMem.ChompBaseAsWrittenOverlaps | PhysMem.Chomp, PhysMem.ChompTail |
| kernel/src/mem/pmemm.rs:210-218 | the guard `largest_page_count > next.page_count` swaps exactly when the shrunk head is still the largest, and the four stores of the swap leave `next` and `prev` disagreeing | 5 pages chomped off the list 10, 8 (no swap, list left 5, 8); the ring 0, 1, 2 for the stores | the shrunk head goes back to its place in the order, with the ring kept a ring; the corrected `Chomp` re-inserts it | high, not executed | PhysMem.SwapGuardAsWritten, PhysMem.ChompInPlaceAsWritten, PhysMem.SwapGuardAsWrittenInverted, PhysMem.SwapAsWritten, PhysMem.SwapAsWrittenBreaksRing | PhysMem.Chomp, PhysMem.ChompKeeps |
| kernel/src/mem/pmemm.rs:238 | removing the head leaves the head pointing at the removed node | 8 pages from the one-node list 4 | the successor becomes the head, or the list empties | high, not executed | PhysMem.RemoveAsWritten, PhysMem.RemoveAsWrittenKeepsClaimed | PhysMem.Remove, PhysMem.RemoveKeeps |
| kernel/src/mem/pmemm.rs:308-334 | a block that merges into the head is also inserted as a node of its own | reclaiming one page right after a two-page head | merge or insert, not both | high, not executed | PhysMem.ReclaimAsWritten, PhysMem.ReclaimAsWrittenCountsTwice | PhysMem.ReclaimSpec, PhysMem.ReclaimKeeps |
| kernel/src/memm/talloc.rs:387-388 | the part below address 0 is `mem[..(0 - base)]`, a length measured from the span's start rather than from the rounded base, so it ends short of address 0 | [-100, 1000) with 32-byte blocks skips [-32, 0) | the first part ends at address 0 | high, not executed | TallocNew.NullSplitFirstAsWritten, TallocNew.NullSplitAsWrittenSkips | TallocNew.NullSplitCovers, TallocNew.ReleaseCovers |
| kernel/src/memm/talloc.rs:273-292 | `req_free_mem` pads by `arena_base % 16` bytes where `extend` pads by 16 minus `free_mem`'s address modulo 16, which is 16 when the free memory starts on a 16-byte boundary | 4096 bytes at address 0 with 16-byte blocks | `req_free_mem` asks for what `extend` checks | high, not executed | TallocNew.ReqFreeMemAsWritten, TallocNew.ReqFreeMemAsWrittenShort | TallocNew.ReqFreeMem, TallocNew.ReqFreeMemExact |
| kernel/src/memm/talloc.rs:373-415 | only `base == acme` returns early, so a span inside one smallest block rounds to a base above its acme and the loop runs | [17, 18) with 16-byte blocks deallocates 2^63 bytes at 32 | return when the rounded base is not below the rounded acme | high, not executed | TallocNew.ReleaseFirstBlockAsWritten, TallocNew.ReleaseAsWrittenPastSpan | TallocNew.ReleaseNothing, TallocNew.ReleaseCovers |
| kernel/src/memm/talloc.rs:403 | with overflow checks, `1 << block_base.trailing_zeros()` is a shift by 64 at block base 0 and panics; the ascending walk over rounded bounds base < 0 == acme always lands on 0 still ascending, and the part below 0 of every release split around address 0 is such a span | releasing [-100, 0) with 32-byte smallest blocks: blocks [-96, -64) and [-64, 0), then the shift at 0 | end the walk at `acme` without computing another block | medium, not executed | TallocNew.LowBitChecked, TallocNew.ReleaseAsWrittenShiftsAtNull | TallocNew.ReleaseAtAcme, TallocNew.ReleaseSpec |
| kernel/src/memman/talloc.rs:71 | `bitmap_offset` rounds the arena base down to the block size, not to a buddy pair | in the arena of 64 bytes at 16, the buddies at 32 and 48 get bits 2 and 3 | round down to twice the block size, so buddies share a bit | high, not executed | TallocOld.BitmapOffsetAsWritten, TallocOld.BitmapOffsetAsWrittenSplitsBuddies | TallocOld.BitmapOffset, TallocOld.BuddiesShareBit |
| kernel/src/memman/talloc.rs:471 | the ascending test adds base and block size, which overflows at the top of the address space | releasing a span at 0xFFFF_8000_0000_0000 | compare the block size with `mem_acme - base` | medium, not executed | TallocOld.AscendingFitsAsWritten, TallocOld.AscendingFitsAsWrittenOverflows | TallocOld.AscendingFits, TallocOld.AscendingFitsAgrees |
| kernel/src/memman/talloc.rs:370-375 | the rounds run over `0..finest_granularity`, leaving the finest out | reserving [80, 96) in the arena [64, 128) with 16-byte blocks keeps the free block at 80 | run through the finest granularity | high, not executed | TallocOld.ReserveAsWritten, TallocOld.ReserveAsWrittenStopsShort, TallocOld.ReserveAsWrittenKeepsFreeBlock | TallocOld.ReserveSpec, TallocOld.FinestVisits |
| kernel/src/memman/talloc.rs:370-372 | the granularity of a bound aligned beyond the arena's power of two underflows | reserving [4096, 4112) in the arena [4096, 4160) | cap the alignment at the arena's power of two | medium, not executed | TallocOld.FinestGranularityAsWritten, TallocOld.ReserveAsWrittenUnderflows | TallocOld.FinestGranularity, TallocOld.ReserveSpec |
| kernel/src/utils/llist.rs:135-147 | `iter_mut` is documented as exclusive of the sentinel, but starts an ongoing iterator from the sentinel's `next`, which on an empty list is the sentinel | an empty list, its sentinel linked to itself | an empty list yields nothing | medium, not executed | Llist.IterMut.IterOf, Llist.EmptyIterAsWrittenYieldsSentinel | Llist.IterMut.ListOf, Llist.EmptyListIterYieldsNothing |
