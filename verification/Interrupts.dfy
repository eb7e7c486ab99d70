/**
 * Long-mode gate descriptors of the interrupt descriptor table
 * (amd64/src/interrupts.rs): the system-segment descriptor type codes, the
 * flag byte shared by gates and system-segment descriptors, and the
 * interrupt/trap gate and call gate records with their accessors.
 */
module Interrupts {
  import opened Wrappers
  import opened Amd64

  const GATE_FLAG_PRESENT: bv8 := 0x80
  const GATE_DPL_MASK: bv8 := 0x60
  const GATE_SSDT_MASK: bv8 := 0x0F

  /** System-segment descriptor types of long mode. */
  datatype Ssdt = Ldt | AvlTss | BusyTss | CallGate | InterruptGate | TrapGate

  /** The four-bit type code of each descriptor type. */
  function SsdtToBits(s: Ssdt): (r: bv8)
    ensures r <= 0xF
    ensures SsdtFromBits(r) == Ok(s)
  {
    match s
    case Ldt => 0x2
    case AvlTss => 0x9
    case BusyTss => 0xB
    case CallGate => 0xC
    case InterruptGate => 0xE
    case TrapGate => 0xF
  }

  /** `Ssdt::from_bits`: the six codes above decode, every other byte panics. */
  function SsdtFromBits(b: bv8): (r: Result<Ssdt>)
    ensures r.Ok? <==> b == 0x2 || b == 0x9 || b == 0xB || b == 0xC || b == 0xE || b == 0xF
  {
    if b == 0x2 then Ok(Ldt)
    else if b == 0x9 then Ok(AvlTss)
    else if b == 0xB then Ok(BusyTss)
    else if b == 0xC then Ok(CallGate)
    else if b == 0xE then Ok(InterruptGate)
    else if b == 0xF then Ok(TrapGate)
    else Panic
  }

  /** Decoding a valid code and encoding it again gives the code back. */
  lemma SsdtBitsRoundTrip(b: bv8)
    requires SsdtFromBits(b).Ok?
    ensures SsdtToBits(SsdtFromBits(b).value) == b
  {
  }

  /** The descriptor types an interrupt or trap gate may carry. */
  predicate IsIntTrapType(s: Ssdt) {
    s.InterruptGate? || s.TrapGate?
  }

  /** A flag byte: type in bits 0..3, DPL in bits 5..6, present in bit 7. */
  function GateFlags(ssdt: Ssdt, dpl: PrivLvl): (r: bv8)
    ensures SsdtFromBits(r & GATE_SSDT_MASK) == Ok(ssdt)
    ensures DplOfFlags(r) == dpl
    ensures r & GATE_FLAG_PRESENT == GATE_FLAG_PRESENT
    ensures r & 0x10 == 0
  {
    SsdtToBits(ssdt) | (ToBits(dpl) << 5) | GATE_FLAG_PRESENT
  }

  /** The DPL field of a flag byte; two bits always decode, so this never panics. */
  function DplOfFlags(flags: bv8): (r: PrivLvl)
    ensures ToBits(r) << 5 == flags & GATE_DPL_MASK
  {
    var bits := (flags & GATE_DPL_MASK) >> 5;
    FromBitsToBits(bits);
    FromBits(bits).value
  }

  /**
   * `set_dpl` as the source writes it: the level's bits are ORed in without
   * the shift to bits 5..6, so they land in the type field instead.
   */
  function FlagsWithDplAsWritten(flags: bv8, dpl: PrivLvl): bv8 {
    (flags & !GATE_DPL_MASK) | ToBits(dpl)
  }

  /** The as-written `set_dpl` of ring 1 on a present interrupt gate clears its DPL and corrupts its type. */
  lemma SetDplAsWrittenLosesLevel()
    ensures var before := GateFlags(InterruptGate, Ring0);
      var after := FlagsWithDplAsWritten(before, Ring1);
      DplOfFlags(after) == Ring0 && SsdtFromBits(after & GATE_SSDT_MASK) == Ok(TrapGate)
  {
  }

  /** `set_dpl` as intended: the level goes to bits 5..6 and nothing else changes. */
  function FlagsWithDpl(flags: bv8, dpl: PrivLvl): (r: bv8)
    ensures DplOfFlags(r) == dpl
    ensures r & !GATE_DPL_MASK == flags & !GATE_DPL_MASK
  {
    (flags & !GATE_DPL_MASK) | (ToBits(dpl) << 5)
  }

  /** A 64-bit handler address split over the low, middle and high fields of a gate. */
  function JoinTarget(lo: bv16, mid: bv16, hi: bv32): bv64 {
    (lo as bv64) | ((mid as bv64) << 16) | ((hi as bv64) << 32)
  }

  /** Splitting an address into the three fields and joining them gives it back. */
  lemma {:induction false} TargetRoundTrip(t: bv64)
    ensures JoinTarget((t & 0xFFFF) as bv16, ((t >> 16) & 0xFFFF) as bv16, (t >> 32) as bv32) == t
  {
    var lo, mid, hi := (t & 0xFFFF) as bv16, ((t >> 16) & 0xFFFF) as bv16, (t >> 32) as bv32;
    assert lo as bv64 == t & 0xFFFF;
    assert (mid as bv64) << 16 == t & 0xFFFF_0000;
    assert (hi as bv64) << 32 == t & 0xFFFF_FFFF_0000_0000;
  }

  /** An interrupt gate or trap gate descriptor of the IDT. */
  class IntTrapGate {
    var isrPtrLo: bv16
    var selector: bv16
    var ist: bv8
    var flags: bv8
    var isrPtrMid: bv16
    var isrPtrHi: bv32
    var reserved: bv32

    /** The `IntTrapGate { .. }` literal of `missing` and `new`: the fields given, `reserved` 0. */
    constructor Init(isrPtrLo: bv16, selector: bv16, ist: bv8, flags: bv8, isrPtrMid: bv16, isrPtrHi: bv32)
      ensures this.isrPtrLo == isrPtrLo && this.selector == selector && this.ist == ist
      ensures this.flags == flags && this.isrPtrMid == isrPtrMid && this.isrPtrHi == isrPtrHi
      ensures reserved == 0
    {
      this.isrPtrLo, this.selector, this.ist, this.flags := isrPtrLo, selector, ist, flags;
      this.isrPtrMid, this.isrPtrHi, reserved := isrPtrMid, isrPtrHi, 0;
    }

    /** `missing`: an absent gate of the given type; any non-gate type panics. */
    static method Missing(ssdt: Ssdt) returns (r: Result<IntTrapGate>)
      ensures r.Ok? <==> IsIntTrapType(ssdt)
      ensures r.Ok? ==> fresh(r.value) && !r.value.IsPresent() && r.value.GetSsdt() == Ok(ssdt)
      ensures r.Ok? ==> r.value.GetTarget() == 0 && r.value.GetDpl() == Ring0 && r.value.ist == 0
      ensures r.Ok? ==> r.value.selector == 0 && r.value.reserved == 0
    {
      if !IsIntTrapType(ssdt) {
        return Panic;
      }
      var g := new IntTrapGate.Init(0, 0, 0, SsdtToBits(ssdt), 0, 0);
      return Ok(g);
    }

    /** `new`: a present gate; a non-gate type or a stack-table index above 7 panics. */
    static method New(target: bv64, selector: bv16, ist: bv8, ssdt: Ssdt, privilege: PrivLvl)
      returns (r: Result<IntTrapGate>)
      ensures r.Ok? <==> IsIntTrapType(ssdt) && ist <= 7
      ensures r.Ok? ==> fresh(r.value) && r.value.GetTarget() == target && r.value.selector == selector
      ensures r.Ok? ==> r.value.IsPresent() && r.value.GetSsdt() == Ok(ssdt)
      ensures r.Ok? ==> r.value.GetDpl() == privilege && r.value.GetIst() == ist && r.value.reserved == 0
    {
      if !IsIntTrapType(ssdt) || ist > 7 {
        return Panic;
      }
      TargetRoundTrip(target);
      var g := new IntTrapGate.Init((target & 0xFFFF) as bv16, selector, ist, GateFlags(ssdt, privilege),
        ((target >> 16) & 0xFFFF) as bv16, (target >> 32) as bv32);
      return Ok(g);
    }

    function GetTarget(): bv64
      reads this
    {
      JoinTarget(isrPtrLo, isrPtrMid, isrPtrHi)
    }

    method SetTarget(target: bv64)
      modifies this
      ensures GetTarget() == target
      ensures selector == old(selector) && ist == old(ist) && flags == old(flags) && reserved == old(reserved)
    {
      TargetRoundTrip(target);
      isrPtrLo := (target & 0xFFFF) as bv16;
      isrPtrMid := ((target >> 16) & 0xFFFF) as bv16;
      isrPtrHi := (target >> 32) as bv32;
    }

    function GetIst(): bv8
      reads this
    {
      ist
    }

    /** An index above 7 panics and leaves the gate as it was. */
    method SetIst(newIst: bv8) returns (r: Result<()>)
      modifies this
      ensures r.Ok? <==> newIst <= 7
      ensures ist == if r.Ok? then newIst else old(ist)
      ensures GetTarget() == old(GetTarget()) && selector == old(selector) && flags == old(flags)
      ensures reserved == old(reserved)
    {
      if newIst > 7 {
        return Panic;
      }
      ist := newIst;
      return Ok(());
    }

    function GetSsdt(): Result<Ssdt>
      reads this
    {
      SsdtFromBits(flags & GATE_SSDT_MASK)
    }

    /** A non-gate type panics; otherwise only the type bits change. */
    method SetSsdt(ssdt: Ssdt) returns (r: Result<()>)
      modifies this
      ensures r.Ok? <==> IsIntTrapType(ssdt)
      ensures r.Ok? ==> GetSsdt() == Ok(ssdt) && flags & !GATE_SSDT_MASK == old(flags) & !GATE_SSDT_MASK
      ensures r.Panic? ==> flags == old(flags)
      ensures GetTarget() == old(GetTarget()) && selector == old(selector) && ist == old(ist)
      ensures reserved == old(reserved)
    {
      if !IsIntTrapType(ssdt) {
        return Panic;
      }
      flags := (flags & !GATE_SSDT_MASK) | SsdtToBits(ssdt);
      return Ok(());
    }

    function GetDpl(): PrivLvl
      reads this
    {
      DplOfFlags(flags)
    }

    /** Sets the DPL field only (the corrected form of the source's `set_dpl`). */
    method SetDpl(dpl: PrivLvl)
      modifies this
      ensures GetDpl() == dpl && flags & !GATE_DPL_MASK == old(flags) & !GATE_DPL_MASK
      ensures GetTarget() == old(GetTarget()) && selector == old(selector) && ist == old(ist)
      ensures reserved == old(reserved)
    {
      flags := FlagsWithDpl(flags, dpl);
    }

    predicate IsPresent()
      reads this
    {
      flags & GATE_FLAG_PRESENT == GATE_FLAG_PRESENT
    }

    /** Changes bit 7 of the flags and nothing else. */
    method SetPresent(present: bool)
      modifies this
      ensures IsPresent() == present && flags & !GATE_FLAG_PRESENT == old(flags) & !GATE_FLAG_PRESENT
      ensures GetTarget() == old(GetTarget()) && selector == old(selector) && ist == old(ist)
      ensures reserved == old(reserved)
    {
      if present {
        flags := flags | GATE_FLAG_PRESENT;
      } else {
        flags := flags & !GATE_FLAG_PRESENT;
      }
    }
  }

  /** A call gate descriptor. */
  class CallGateDesc {
    var isrPtrLo: bv16
    var selector: bv16
    var reserved0: bv8
    var flags: bv8
    var isrPtrMid: bv16
    var isrPtrHi: bv32
    var reserved1: bv32

    /** `missing`: an absent call gate. */
    constructor Missing()
      ensures !IsPresent() && GetTarget() == 0 && selector == 0
      ensures SsdtFromBits(flags & GATE_SSDT_MASK) == Ok(CallGate) && GetDpl() == Ring0
      ensures reserved0 == 0 && reserved1 == 0
    {
      isrPtrLo, selector, reserved0, flags := 0, 0, 0, SsdtToBits(CallGate);
      isrPtrMid, isrPtrHi, reserved1 := 0, 0, 0;
    }

    /** `new`: a present call gate to `target` at the given privilege. */
    constructor New(target: bv64, selector: bv16, privilege: PrivLvl)
      ensures GetTarget() == target && this.selector == selector && IsPresent()
      ensures SsdtFromBits(flags & GATE_SSDT_MASK) == Ok(CallGate) && GetDpl() == privilege
      ensures reserved0 == 0 && reserved1 == 0
    {
      TargetRoundTrip(target);
      isrPtrLo := (target & 0xFFFF) as bv16;
      this.selector := selector;
      reserved0 := 0;
      flags := GateFlags(CallGate, privilege);
      isrPtrMid := ((target >> 16) & 0xFFFF) as bv16;
      isrPtrHi := (target >> 32) as bv32;
      reserved1 := 0;
    }

    function GetTarget(): bv64
      reads this
    {
      JoinTarget(isrPtrLo, isrPtrMid, isrPtrHi)
    }

    method SetTarget(target: bv64)
      modifies this
      ensures GetTarget() == target && selector == old(selector) && flags == old(flags)
      ensures reserved0 == old(reserved0) && reserved1 == old(reserved1)
    {
      TargetRoundTrip(target);
      isrPtrLo := (target & 0xFFFF) as bv16;
      isrPtrMid := ((target >> 16) & 0xFFFF) as bv16;
      isrPtrHi := (target >> 32) as bv32;
    }

    function GetDpl(): PrivLvl
      reads this
    {
      DplOfFlags(flags)
    }

    /** Sets the DPL field only (the corrected form of the source's `set_dpl`). */
    method SetDpl(dpl: PrivLvl)
      modifies this
      ensures GetDpl() == dpl && flags & !GATE_DPL_MASK == old(flags) & !GATE_DPL_MASK
      ensures GetTarget() == old(GetTarget()) && selector == old(selector)
      ensures reserved0 == old(reserved0) && reserved1 == old(reserved1)
    {
      flags := FlagsWithDpl(flags, dpl);
    }

    predicate IsPresent()
      reads this
    {
      flags & GATE_FLAG_PRESENT == GATE_FLAG_PRESENT
    }

    /** Changes bit 7 of the flags and nothing else. */
    method SetPresent(present: bool)
      modifies this
      ensures IsPresent() == present && flags & !GATE_FLAG_PRESENT == old(flags) & !GATE_FLAG_PRESENT
      ensures GetTarget() == old(GetTarget()) && selector == old(selector)
      ensures reserved0 == old(reserved0) && reserved1 == old(reserved1)
    {
      if present {
        flags := flags | GATE_FLAG_PRESENT;
      } else {
        flags := flags & !GATE_FLAG_PRESENT;
      }
    }
  }
}
