/**
 * Decoding of CPUID register words (old/cpuid.rs). The CPUID instruction
 * itself is an oracle: each `Read...` takes what `cpuid(function, sub)`
 * returned, `None` when the processor does not support the function.
 */
module CpuId {
  import opened Wrappers

  /** The four registers one CPUID function returns. */
  datatype Regs = Regs(eax: bv32, ebx: bv32, ecx: bv32, edx: bv32)

  /** Rust's `as u8` on a `u32`: the low byte. */
  function Byte(x: bv32): bv8 {
    (x & 0xff) as bv8
  }

  /** Rust's `as u16` on a `u32`: the low half. */
  function Half(x: bv32): bv16 {
    (x & 0xffff) as bv16
  }

  // ----- Function 1: family, model and stepping -----

  datatype Signature = Signature(family: bv8, model: bv8, stepping: bv8)

  /**
   * `extract_family_model_stepping`. The extended family and model count
   * only when the base family is 0xF; the `u8` sum of the base and extended
   * families overflows, and panics, when the extended family exceeds 0xF0.
   */
  function ExtractFamilyModelStepping(eax: bv32): (r: Result<Signature>)
    ensures r.Ok? ==> r.value.stepping == Byte(eax) & 0xf
    ensures Byte(eax >> 8) & 0xf != 0xf ==> r == Ok(Signature(Byte(eax >> 8) & 0xf, Byte(eax >> 4) & 0xf, Byte(eax) & 0xf))
    ensures Byte(eax >> 8) & 0xf == 0xf ==> (r.Ok? <==> Byte(eax >> 20) <= 0xf0)
  {
    var familyLo := Byte(eax >> 8) & 0xf;
    var modelLo := Byte(eax >> 4) & 0xf;
    var stepping := Byte(eax >> 0) & 0xf;
    if familyLo == 0xf then
      var ext := Byte(eax >> 20);
      if ext > 0xf0 then Panic
      else Ok(Signature(familyLo + ext, modelLo | (Byte(eax >> 12) & 0xf0), stepping))
    else
      Ok(Signature(familyLo, modelLo, stepping))
  }

  /** A signature CPUID can report: a 4-bit stepping, and a 4-bit model below family 0xF. */
  predicate ValidSignature(s: Signature) {
    s.stepping < 0x10 && (s.family < 0xf ==> s.model < 0x10)
  }

  /**
   * The EAX word that reports a signature: base fields in bits 0..11, the
   * extended model in bits 16..19 and the extended family in bits 20..27.
   */
  function SignatureEax(s: Signature): bv32 {
    if s.family < 0xf then
      (s.stepping as bv32) | ((s.model as bv32) << 4) | ((s.family as bv32) << 8)
    else
      (s.stepping as bv32) | (((s.model & 0xf) as bv32) << 4) | (0xf << 8)
        | (((s.model >> 4) as bv32) << 16) | (((s.family - 0xf) as bv32) << 20)
  }

  /** Decoding the EAX word of any valid signature gives that signature back. */
  lemma SignatureRoundTrip(s: Signature)
    requires ValidSignature(s)
    ensures ExtractFamilyModelStepping(SignatureEax(s)) == Ok(s)
  {
    if s.family < 0xf {
      BaseRoundTrip(s);
    } else {
      ExtendedRoundTrip(s);
    }
  }

  lemma BaseRoundTrip(s: Signature)
    requires ValidSignature(s) && s.family < 0xf
    ensures ExtractFamilyModelStepping(SignatureEax(s)) == Ok(s)
  {
    SteppingField(s);
    BaseFields(s);
    BaseDecode(SignatureEax(s), s);
  }

  lemma ExtendedRoundTrip(s: Signature)
    requires ValidSignature(s) && s.family >= 0xf
    ensures ExtractFamilyModelStepping(SignatureEax(s)) == Ok(s)
  {
    ExtendedEncode(s);
    ExtendedDecode(SignatureEax(s), s);
  }

  /** The fields the decoder reads from a word whose base family is 0xF. */
  predicate ExtendedFieldsOf(eax: bv32, s: Signature) {
    && Byte(eax >> 8) & 0xf == 0xf && Byte(eax >> 20) == s.family - 0xf
    && (Byte(eax >> 4) & 0xf) | (Byte(eax >> 12) & 0xf0) == s.model && Byte(eax) & 0xf == s.stepping
  }

  lemma ExtendedEncode(s: Signature)
    requires ValidSignature(s) && s.family >= 0xf
    ensures ExtendedFieldsOf(SignatureEax(s), s)
  {
    SteppingField(s);
    ExtendedFamilyFields(s);
    ExtendedModelField(s);
  }

  lemma SteppingField(s: Signature)
    requires ValidSignature(s)
    ensures Byte(SignatureEax(s)) & 0xf == s.stepping
  {
  }

  lemma BaseFields(s: Signature)
    requires ValidSignature(s) && s.family < 0xf
    ensures Byte(SignatureEax(s) >> 8) & 0xf == s.family
    ensures Byte(SignatureEax(s) >> 4) & 0xf == s.model
  {
  }

  lemma ExtendedFamilyFields(s: Signature)
    requires ValidSignature(s) && s.family >= 0xf
    ensures Byte(SignatureEax(s) >> 8) & 0xf == 0xf
    ensures Byte(SignatureEax(s) >> 20) == s.family - 0xf
  {
  }

  lemma ExtendedModelField(s: Signature)
    requires ValidSignature(s) && s.family >= 0xf
    ensures (Byte(SignatureEax(s) >> 4) & 0xf) | (Byte(SignatureEax(s) >> 12) & 0xf0) == s.model
  {
    ExtendedModelLo(s);
    ExtendedModelHi(s);
    NibblesJoin(s.model);
  }

  lemma ExtendedModelLo(s: Signature)
    requires ValidSignature(s) && s.family >= 0xf
    ensures Byte(SignatureEax(s) >> 4) & 0xf == s.model & 0xf
  {
  }

  lemma ExtendedModelHi(s: Signature)
    requires ValidSignature(s) && s.family >= 0xf
    ensures Byte(SignatureEax(s) >> 12) & 0xf0 == s.model & 0xf0
  {
  }

  lemma NibblesJoin(b: bv8)
    ensures (b & 0xf) | (b & 0xf0) == b
  {
  }

  /** The decoder, read off the fields of a word whose base family is below 0xF. */
  lemma BaseDecode(eax: bv32, s: Signature)
    requires s.family < 0xf
    requires Byte(eax >> 8) & 0xf == s.family && Byte(eax >> 4) & 0xf == s.model && Byte(eax) & 0xf == s.stepping
    ensures ExtractFamilyModelStepping(eax) == Ok(s)
  {
  }

  /** The decoder, read off the fields of a word whose base family is 0xF. */
  lemma ExtendedDecode(eax: bv32, s: Signature)
    requires s.family >= 0xf && ExtendedFieldsOf(eax, s)
    ensures ExtractFamilyModelStepping(eax) == Ok(s)
  {
    var ext := Byte(eax >> 20);
    assert ext <= 0xf0;
    assert 0xf + ext == s.family;
  }

  // ----- Function 1: feature information -----

  /**
   * The flags `StdFn1ECX` names (bits 0, 1, 3, 9, 12, 13, 19..23 and 25..31);
   * `from_bits_truncate` keeps only these.
   */
  const STD_FN1_ECX_ALL: bv32 := 0xfef8_320b

  /** The flags `StdFn1EDX` names (bits 0..9, 11..17, 19, 23..26 and 28). */
  const STD_FN1_EDX_ALL: bv32 := 0x178b_fbff

  /** Hyper-threading technology: the logical processor count is reported. */
  const HTT: bv32 := 1 << 28

  datatype FeatureInfo = FeatureInfo(
    family: bv8, model: bv8, stepping: bv8,
    brandId8bit: bv8, clflushSize: bv8, logicalProcessorCount: Option<bv8>, localApicId: bv8,
    ecxMiscFeatures: bv32, edxMiscFeatures: bv32)

  /** `from_bits_truncate`: every named flag of `x` and no other bit. */
  function Truncate(x: bv32, all: bv32): (t: bv32)
    ensures t & !all == 0 && t & all == x & all
  {
    x & all
  }

  /** The logical processor count, reported exactly when HTT is set. */
  function LogicalProcessorCount(regs: Regs): (c: Option<bv8>)
    ensures c.Some? <==> regs.edx & HTT != 0
    ensures c.Some? ==> c.value == Byte(regs.ebx >> 16)
  {
    assert STD_FN1_EDX_ALL & HTT == HTT;
    if Truncate(regs.edx, STD_FN1_EDX_ALL) & HTT == HTT then Some(Byte(regs.ebx >> 16)) else None
  }

  /** The fields `FeatureInfo::read` fills in from the registers of function 1 and their signature. */
  function FeatureInfoOf(regs: Regs, sig: Signature): (i: FeatureInfo)
    ensures i.family == sig.family && i.model == sig.model && i.stepping == sig.stepping
    ensures i.logicalProcessorCount == LogicalProcessorCount(regs)
    ensures i.ecxMiscFeatures == Truncate(regs.ecx, STD_FN1_ECX_ALL)
    ensures i.edxMiscFeatures == Truncate(regs.edx, STD_FN1_EDX_ALL)
    ensures i.brandId8bit == Byte(regs.ebx) && i.clflushSize == Byte(regs.ebx >> 8)
    ensures i.localApicId == Byte(regs.ebx >> 24)
  {
    FeatureInfo(
      sig.family, sig.model, sig.stepping,
      Byte(regs.ebx >> 0), Byte(regs.ebx >> 8), LogicalProcessorCount(regs),
      Byte(regs.ebx >> 24), Truncate(regs.ecx, STD_FN1_ECX_ALL), Truncate(regs.edx, STD_FN1_EDX_ALL))
  }

  /**
   * `FeatureInfo::read`, given what CPUID function 1 returned: `None` when
   * the function is unsupported, a panic when the signature decoding does.
   */
  function ReadFeatureInfo(f1: Option<Regs>): (r: Result<Option<FeatureInfo>>)
    ensures f1.None? ==> r == Ok(None)
    ensures f1.Some? ==> (r.Ok? <==> ExtractFamilyModelStepping(f1.value.eax).Ok?)
    ensures f1.Some? && r.Ok? ==> r.value == Some(FeatureInfoOf(f1.value, ExtractFamilyModelStepping(f1.value.eax).value))
  {
    match f1
    case None => Ok(None)
    case Some(regs) =>
      match ExtractFamilyModelStepping(regs.eax)
      case Panic => Panic
      case Ok(sig) => Ok(Some(FeatureInfoOf(regs, sig)))
  }

  // ----- Function 0xB: extended topology -----

  datatype ThreadTopologyInfo = ThreadTopologyInfo(x2ApicId: bv32, threadMaskWidth: bv8, threadsPerCore: bv16)
  datatype CoreTopologyInfo = CoreTopologyInfo(x2ApicId: bv32, coreMaskWidth: bv8, logicalCoreCount: bv16)
  datatype TopologyInfo = TopologyInfo(threadLevel: Option<ThreadTopologyInfo>, coreLevel: Option<CoreTopologyInfo>)

  /**
   * The thread-level test as written, `ecx_0 & 0xff == 0 | 1 << 8`: Rust
   * binds `==` looser than `|`, so this compares the low byte with 0x100.
   */
  predicate IsThreadLevelAsWritten(ecx: bv32) {
    ecx & 0xff == 0 | (1 << 8)
  }

  /** The core-level test as written, `ecx_1 & 0xff == 1 | 2 << 8`. */
  predicate IsCoreLevelAsWritten(ecx: bv32) {
    ecx & 0xff == 1 | (2 << 8)
  }

  /** As written, neither test can ever hold, so both levels always read as absent. */
  lemma {:induction false} TopologyTestsAsWrittenNeverHold(ecx: bv32)
    ensures !IsThreadLevelAsWritten(ecx) && !IsCoreLevelAsWritten(ecx)
    ensures ecx == 0x100 ==> ThreadLevelNumber(ecx) == 0 && ThreadLevelType(ecx) == 1
    ensures ecx == 0x201 ==> ThreadLevelNumber(ecx) == 1 && ThreadLevelType(ecx) == 2
  {
    assert ecx & 0xff <= 0xff;
  }

  /** ECX[7:0], the level number of a CPUID 0xB sub-leaf. */
  function ThreadLevelNumber(ecx: bv32): bv8 {
    Byte(ecx)
  }

  /** ECX[15:8], the level type: 1 for SMT (threads), 2 for cores. */
  function ThreadLevelType(ecx: bv32): bv8 {
    Byte(ecx >> 8)
  }

  /** The intended thread-level test: level number 0 of type SMT. */
  predicate IsThreadLevel(ecx: bv32)
    ensures IsThreadLevel(ecx) <==> ThreadLevelNumber(ecx) == 0 && ThreadLevelType(ecx) == 1
  {
    ecx & 0xffff == 0 | (1 << 8)
  }

  /** The intended core-level test: level number 1 of type core. */
  predicate IsCoreLevel(ecx: bv32)
    ensures IsCoreLevel(ecx) <==> ThreadLevelNumber(ecx) == 1 && ThreadLevelType(ecx) == 2
  {
    ecx & 0xffff == 1 | (2 << 8)
  }

  /** `TopologyInfo::read` with the intended level tests, given sub-leaves 0 and 1 of function 0xB. */
  function ReadTopologyInfo(sub0: Option<Regs>, sub1: Option<Regs>): (r: Option<TopologyInfo>)
    ensures r.Some? <==> sub0.Some? && sub1.Some?
    ensures r.Some? ==> (r.value.threadLevel.Some? <==> IsThreadLevel(sub0.value.ecx))
    ensures r.Some? ==> (r.value.coreLevel.Some? <==> IsCoreLevel(sub1.value.ecx))
    ensures r.Some? && r.value.threadLevel.Some? ==>
      r.value.threadLevel.value == ThreadTopologyInfo(sub0.value.edx, Byte(sub0.value.eax), Half(sub0.value.ebx))
    ensures r.Some? && r.value.coreLevel.Some? ==>
      r.value.coreLevel.value == CoreTopologyInfo(sub1.value.edx, Byte(sub1.value.eax), Half(sub1.value.ebx))
  {
    match (sub0, sub1)
    case (Some(l0), Some(l1)) =>
      Some(TopologyInfo(
        if IsThreadLevel(l0.ecx) then Some(ThreadTopologyInfo(l0.edx, Byte(l0.eax), Half(l0.ebx))) else None,
        if IsCoreLevel(l1.ecx) then Some(CoreTopologyInfo(l1.edx, Byte(l1.eax), Half(l1.ebx))) else None))
    case _ => None
  }

  // ----- Function 0x8000_0002..4: processor name -----

  type Name = s: seq<bv8> | |s| == 48 witness seq(48, k => 0)

  /** The `j`th little-endian byte of a register. */
  function LeByte(w: bv32, j: nat): bv8
    requires j < 4
  {
    if j == 0 then Byte(w) else if j == 1 then Byte(w >> 8) else if j == 2 then Byte(w >> 16) else Byte(w >> 24)
  }

  /** The twelve name registers, in the order `read` lays them out. */
  function NameWords(f2: Regs, f3: Regs, f4: Regs): seq<bv32> {
    [f2.eax, f2.ebx, f2.ecx, f2.edx, f3.eax, f3.ebx, f3.ecx, f3.edx, f4.eax, f4.ebx, f4.ecx, f4.edx]
  }

  /**
   * `ProcesssorName::read`: the twelve registers of functions 0x8000_0002,
   * 0x8000_0003 and 0x8000_0004 laid out as little-endian bytes.
   */
  function NameFromRegs(f2: Regs, f3: Regs, f4: Regs): (n: Name)
    ensures forall k :: 0 <= k < 48 ==> n[k] == LeByte(NameWords(f2, f3, f4)[k / 4], k % 4)
  {
    var words := NameWords(f2, f3, f4);
    seq(48, k requires 0 <= k < 48 => LeByte(words[k / 4], k % 4))
  }

  /** `ProcesssorName::len`: the index of the first zero byte, or 48 when there is none. */
  method NameLen(name: Name) returns (len: nat)
    ensures len <= 48
    ensures forall k :: 0 <= k < len ==> name[k] != 0
    ensures len < 48 ==> name[len] == 0
  {
    var i := 0;
    while i < 48
      invariant 0 <= i <= 48
      invariant forall k :: 0 <= k < i ==> name[k] != 0
    {
      if name[i] == 0 {
        return i;
      }
      i := i + 1;
    }
    return i;
  }

  // ----- Function 0x8000_0005: L1 associativity -----

  datatype CacheAssociativityL1 = Reserved | DirectMapped | NWayAssoc(n: bv8) | FullyAssoc

  function L1FromBits(bits: bv8): (a: CacheAssociativityL1)
    ensures a.NWayAssoc? <==> bits != 0 && bits != 1 && bits != 0xff
    ensures L1AsBits(a) == bits
  {
    if bits == 0 then Reserved
    else if bits == 1 then CacheAssociativityL1.DirectMapped
    else if bits == 0xff then FullyAssoc
    else NWayAssoc(bits)
  }

  function L1AsBits(a: CacheAssociativityL1): bv8 {
    match a
    case Reserved => 0
    case DirectMapped => 1
    case NWayAssoc(n) => n
    case FullyAssoc => 0xff
  }

  /** Every associativity whose way count is not one of the three special codes encodes and decodes back. */
  lemma L1AssocRoundTrip(a: CacheAssociativityL1)
    requires a.NWayAssoc? ==> a.n != 0 && a.n != 1 && a.n != 0xff
    ensures L1FromBits(L1AsBits(a)) == a
  {
  }

  datatype L1TlbCacheInfo = L1TlbCacheInfo(
    instTlbl12mbSize: bv8, instTlbl12mbAsso: CacheAssociativityL1,
    dataTlbl12mbSize: bv8, dataTlbl12mbAsso: CacheAssociativityL1,
    instTlbl14kbSize: bv8, instTlbl14kbAsso: CacheAssociativityL1,
    dataTlbl14kbSize: bv8, dataTlbl14kbAsso: CacheAssociativityL1,
    l1dcLineSize: bv8, l1dcLinesPerTag: bv8, l1dcAsso: CacheAssociativityL1, l1dcSize: bv8,
    l1icLineSize: bv8, l1icLinesPerTag: bv8, l1icAsso: CacheAssociativityL1, l1icSize: bv8)

  /** The fields `L1TlbCacheInfo::read` decodes: each register holds four byte fields. */
  function L1TlbCacheInfoOf(regs: Regs): (i: L1TlbCacheInfo)
    ensures L1AsBits(i.instTlbl12mbAsso) == Byte(regs.eax >> 8) && L1AsBits(i.dataTlbl12mbAsso) == Byte(regs.eax >> 24)
    ensures L1AsBits(i.instTlbl14kbAsso) == Byte(regs.ebx >> 8) && L1AsBits(i.dataTlbl14kbAsso) == Byte(regs.ebx >> 24)
    ensures L1AsBits(i.l1dcAsso) == Byte(regs.ecx >> 16) && L1AsBits(i.l1icAsso) == Byte(regs.edx >> 16)
    ensures i.instTlbl12mbSize == Byte(regs.eax) && i.dataTlbl12mbSize == Byte(regs.eax >> 16)
    ensures i.instTlbl14kbSize == Byte(regs.ebx) && i.dataTlbl14kbSize == Byte(regs.ebx >> 16)
    ensures i.l1dcLineSize == Byte(regs.ecx) && i.l1dcLinesPerTag == Byte(regs.ecx >> 8) && i.l1dcSize == Byte(regs.ecx >> 24)
    ensures i.l1icLineSize == Byte(regs.edx) && i.l1icLinesPerTag == Byte(regs.edx >> 8) && i.l1icSize == Byte(regs.edx >> 24)
  {
    L1TlbCacheInfo(
      Byte(regs.eax), L1FromBits(Byte(regs.eax >> 8)), Byte(regs.eax >> 16), L1FromBits(Byte(regs.eax >> 24)),
      Byte(regs.ebx), L1FromBits(Byte(regs.ebx >> 8)), Byte(regs.ebx >> 16), L1FromBits(Byte(regs.ebx >> 24)),
      Byte(regs.ecx), Byte(regs.ecx >> 8), L1FromBits(Byte(regs.ecx >> 16)), Byte(regs.ecx >> 24),
      Byte(regs.edx), Byte(regs.edx >> 8), L1FromBits(Byte(regs.edx >> 16)), Byte(regs.edx >> 24))
  }

  /** `L1TlbCacheInfo::read`, given what CPUID function 0x8000_0005 returned. */
  function ReadL1TlbCacheInfo(f: Option<Regs>): (r: Option<L1TlbCacheInfo>)
    ensures r.Some? <==> f.Some?
    ensures r.Some? ==> r.value == L1TlbCacheInfoOf(f.value)
  {
    if f.None? then None else Some(L1TlbCacheInfoOf(f.value))
  }

  // ----- Function 0x8000_0006: L2/L3 associativity -----

  datatype CacheAssociativity = Disabled | DirectMapped | NWayAssociative(n: bv8) | FullyAssociative

  /** The way counts the 4-bit codes 2..0xE stand for (codes 7 and 9 excepted). */
  function WaysOfCode(bits: bv8): (n: Option<bv8>)
    ensures n.Some? <==> 2 <= bits <= 0xe && bits != 7 && bits != 9
  {
    if bits == 0x2 then Some(2)
    else if bits == 0x3 then Some(3)
    else if bits == 0x4 then Some(4)
    else if bits == 0x5 then Some(6)
    else if bits == 0x6 then Some(8)
    else if bits == 0x8 then Some(16)
    else if bits == 0xa then Some(32)
    else if bits == 0xb then Some(48)
    else if bits == 0xc then Some(64)
    else if bits == 0xd then Some(96)
    else if bits == 0xe then Some(128)
    else None
  }

  /**
   * `CacheAssociativity::from_bits`: `None` (defer to function 0x8000_001D)
   * for code 9, a panic for code 7 and for codes above 0xF.
   */
  function AssocFromBits(bits: bv8): (r: Result<Option<CacheAssociativity>>)
    ensures r == Ok(None) <==> bits == 9
    ensures r.Panic? <==> bits == 7 || bits > 0xf
    ensures r.Ok? ==> AssocAsBits(r.value) == Ok(bits)
  {
    if bits == 0 then Ok(Some(Disabled))
    else if bits == 1 then Ok(Some(CacheAssociativity.DirectMapped))
    else if bits == 0xf then Ok(Some(FullyAssociative))
    else if bits == 9 then Ok(None)
    else match WaysOfCode(bits)
      case Some(n) => Ok(Some(NWayAssociative(n)))
      case None => Panic
  }

  /** `CacheAssociativity::as_bits`: panics on a way count no code stands for. */
  function AssocAsBits(assoc: Option<CacheAssociativity>): (r: Result<bv8>)
    ensures assoc.None? ==> r == Ok(9)
    ensures r.Ok? ==> r.value <= 0xf && r.value != 7
  {
    match assoc
    case None => Ok(9)
    case Some(Disabled) => Ok(0)
    case Some(DirectMapped) => Ok(0x1)
    case Some(FullyAssociative) => Ok(0xf)
    case Some(NWayAssociative(n)) =>
      if n == 2 then Ok(0x2)
      else if n == 3 then Ok(0x3)
      else if n == 4 then Ok(0x4)
      else if n == 6 then Ok(0x5)
      else if n == 8 then Ok(0x6)
      else if n == 16 then Ok(0x8)
      else if n == 32 then Ok(0xa)
      else if n == 48 then Ok(0xb)
      else if n == 64 then Ok(0xc)
      else if n == 96 then Ok(0xd)
      else if n == 128 then Ok(0xe)
      else Panic
  }

  /** Every associativity that encodes decodes back to itself. */
  lemma AssocRoundTrip(assoc: Option<CacheAssociativity>)
    requires AssocAsBits(assoc).Ok?
    ensures AssocFromBits(AssocAsBits(assoc).value) == Ok(assoc)
  {
  }

  datatype L2TlbL3CacheInfo = L2TlbL3CacheInfo(
    instTlbl22mbInfo: Option<(bv16, CacheAssociativity)>,
    dataTlbl22mbInfo: Option<(bv16, CacheAssociativity)>,
    instTlbl24kbInfo: Option<(bv16, CacheAssociativity)>,
    dataTlbl24kbInfo: Option<(bv16, CacheAssociativity)>,
    l2Info: Option<(bv8, bv8, bv16, CacheAssociativity)>,
    l3Info: Option<(bv8, bv8, bv16, CacheAssociativity)>)

  /** `(x >> k) as u8 & 0xf` with the shift done by the caller: a 4-bit code. */
  function Nibble(x: bv32): (n: bv8)
    ensures n <= 0xf
  {
    Byte(x) & 0xf
  }

  /**
   * A TLB field: the 12-bit entry count `count` beside the associativity
   * `code`; `None` when the code defers to function 0x8000_001D.
   */
  function TlbField(count: bv16, code: bv8): (r: Result<Option<(bv16, CacheAssociativity)>>)
    ensures r.Panic? <==> code == 7 || code > 0xf
    ensures r.Ok? ==> (r.value.None? <==> code == 9)
    ensures r.Ok? && r.value.Some? ==> r.value.value.0 == count && AssocAsBits(Some(r.value.value.1)) == Ok(code)
  {
    match AssocFromBits(code)
    case Panic => Panic
    case Ok(None) => Ok(None)
    case Ok(Some(c)) => Ok(Some((count, c)))
  }

  /** A cache field: line size, lines per tag and size beside the associativity `code`. */
  function CacheField(lineSize: bv8, linesPerTag: bv8, size: bv16, code: bv8): (r: Result<Option<(bv8, bv8, bv16, CacheAssociativity)>>)
    ensures r.Panic? <==> code == 7 || code > 0xf
    ensures r.Ok? ==> (r.value.None? <==> code == 9)
    ensures r.Ok? && r.value.Some? ==>
      var (l, t, z, c) := r.value.value;
      l == lineSize && t == linesPerTag && z == size && AssocAsBits(Some(c)) == Ok(code)
  {
    match AssocFromBits(code)
    case Panic => Panic
    case Ok(None) => Ok(None)
    case Ok(Some(c)) => Ok(Some((lineSize, linesPerTag, size, c)))
  }

  /**
   * The fields `L2TlbL3CacheInfo::read` decodes from the registers of
   * function 0x8000_0006; a panic when any associativity code is 7.
   */
  function L2TlbL3CacheInfoOf(regs: Regs): (r: Result<L2TlbL3CacheInfo>)
    ensures r.Panic? <==>
      || Nibble(regs.eax >> 12) == 7 || Nibble(regs.eax >> 28) == 7
      || Nibble(regs.ebx >> 12) == 7 || Nibble(regs.ebx >> 28) == 7
      || Nibble(regs.ecx >> 12) == 7 || Nibble(regs.edx >> 12) == 7
    ensures r.Ok? ==> TlbField(Half(regs.eax) & 0xfff, Nibble(regs.eax >> 12)) == Ok(r.value.instTlbl22mbInfo)
    ensures r.Ok? ==> TlbField(Half(regs.eax >> 16) & 0xfff, Nibble(regs.eax >> 28)) == Ok(r.value.dataTlbl22mbInfo)
    ensures r.Ok? ==> TlbField(Half(regs.ebx) & 0xfff, Nibble(regs.ebx >> 12)) == Ok(r.value.instTlbl24kbInfo)
    ensures r.Ok? ==> TlbField(Half(regs.ebx >> 16) & 0xfff, Nibble(regs.ebx >> 28)) == Ok(r.value.dataTlbl24kbInfo)
    ensures r.Ok? ==> CacheField(Byte(regs.ecx), Nibble(regs.ecx >> 8), Half(regs.ecx >> 16), Nibble(regs.ecx >> 12)) == Ok(r.value.l2Info)
    ensures r.Ok? ==> CacheField(Byte(regs.edx), Nibble(regs.edx >> 8), Half(regs.edx >> 18), Nibble(regs.edx >> 12)) == Ok(r.value.l3Info)
  {
    var i2 := TlbField(Half(regs.eax) & 0xfff, Nibble(regs.eax >> 12));
    var d2 := TlbField(Half(regs.eax >> 16) & 0xfff, Nibble(regs.eax >> 28));
    var i4 := TlbField(Half(regs.ebx) & 0xfff, Nibble(regs.ebx >> 12));
    var d4 := TlbField(Half(regs.ebx >> 16) & 0xfff, Nibble(regs.ebx >> 28));
    var l2 := CacheField(Byte(regs.ecx), Nibble(regs.ecx >> 8), Half(regs.ecx >> 16), Nibble(regs.ecx >> 12));
    var l3 := CacheField(Byte(regs.edx), Nibble(regs.edx >> 8), Half(regs.edx >> 18), Nibble(regs.edx >> 12));
    if i2.Panic? || d2.Panic? || i4.Panic? || d4.Panic? || l2.Panic? || l3.Panic? then Panic
    else Ok(L2TlbL3CacheInfo(i2.value, d2.value, i4.value, d4.value, l2.value, l3.value))
  }

  /** `L2TlbL3CacheInfo::read`, given what CPUID function 0x8000_0006 returned. */
  function ReadL2TlbL3CacheInfo(f: Option<Regs>): (r: Result<Option<L2TlbL3CacheInfo>>)
    ensures f.None? ==> r == Ok(None)
    ensures f.Some? ==> (r.Panic? <==> L2TlbL3CacheInfoOf(f.value).Panic?)
    ensures f.Some? && r.Ok? ==> r.value == Some(L2TlbL3CacheInfoOf(f.value).value)
  {
    if f.None? then Ok(None)
    else match L2TlbL3CacheInfoOf(f.value)
      case Panic => Panic
      case Ok(i) => Ok(Some(i))
  }
}
