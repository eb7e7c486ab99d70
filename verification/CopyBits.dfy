/**
 * `copy_slice_bits` (kernel/src/utils/mod.rs): copies a run of bits between
 * slices of 64-bit words, word by word, rotating each source word into the
 * destination alignment and carrying the bits that spill into the next word.
 *
 * A word is modelled as its 64 bits, bit 0 first, so that a bit position in a
 * slice is the integer 64 * word index + bit index. The word operations
 * below are the u64 operators the source uses.
 */
module CopyBits {
  import opened Wrappers

  type Word = w: seq<bool> | |w| == 64 witness seq(64, k => false)


  /** `u64::rotate_left`: bit k of the result is bit k - a (mod 64) of `w`. */
  function Rol(w: Word, a: nat): Word
    requires a < 64
  {
    seq(64, k requires 0 <= k < 64 => w[(k - a) % 64])
  }

  function And(x: Word, y: Word): Word {
    seq(64, k requires 0 <= k < 64 => x[k] && y[k])
  }

  function Or(x: Word, y: Word): Word {
    seq(64, k requires 0 <= k < 64 => x[k] || y[k])
  }

  function Xor(x: Word, y: Word): Word {
    seq(64, k requires 0 <= k < 64 => x[k] != y[k])
  }

  function Not(x: Word): Word {
    seq(64, k requires 0 <= k < 64 => !x[k])
  }

  /** `(1 << n) - 1` for n < 64: the n low bits. */
  function LowMask(n: nat): Word
    requires n < 64
  {
    seq(64, k requires 0 <= k < 64 => k < n)
  }

  /** `u64::MAX << n`. */
  function MaxShl(n: nat): Word
    requires n < 64
  {
    seq(64, k requires 0 <= k < 64 => k >= n)
  }

  /** `0` and `u64::MAX`. */
  const ZERO: Word := LowMask(0)
  const ONES: Word := MaxShl(0)

  /** `u64::MAX >> n`. */
  function MaxShr(n: nat): Word
    requires n < 64
  {
    seq(64, k requires 0 <= k < 64 => k < 64 - n)
  }

  /** Bit `p` of a slice of words. */
  function SliceBit(ws: seq<Word>, p: nat): bool
    requires p < 64 * |ws|
  {
    ws[p / 64][p % 64]
  }

  /**
   * What the caller may pass: a run of at least one bit, lying within both
   * slices. The source checks the word indices only in debug builds, and a
   * zero length underflows its last-index arithmetic.
   */
  predicate ValidArgs(dstLen: nat, src: seq<Word>, dstBit: nat, srcBit: nat, bitLen: nat) {
    bitLen > 0 && srcBit + bitLen <= 64 * |src| && dstBit + bitLen <= 64 * dstLen
  }

  /** The alignment offset: `(dst_bit & 63) - (src_bit & 63)`, wrapped, `& 63`. */
  function AlignOffset(dstBit: nat, srcBit: nat): (a: nat)
    ensures a < 64
  {
    (dstBit % 64 - srcBit % 64) % 64
  }

  // ----- As written -----

  /**
   * The word loop as written: a do-while that stops after the word at
   * `srcAcme`. `None` stands for an access past the end of either slice,
   * which the source performs through unchecked indexing.
   */
  function LoopAsWritten(dst: seq<Word>, src: seq<Word>, a: nat, srcIndex: nat, dstIndex: nat, srcAcme: nat, carry: Word)
    : (r: Option<(seq<Word>, nat, Word)>)
    requires a < 64
    ensures r.Some? ==> |r.value.0| == |dst|
    decreases |src| - srcIndex
  {
    if srcIndex >= |src| || dstIndex >= |dst| then None
    else
      var rol := Rol(src[srcIndex], a);
      var dst' := dst[dstIndex := Or(And(rol, Not(LowMask(a))), carry)];
      var carry' := And(rol, LowMask(a));
      if srcIndex == srcAcme then Some((dst', dstIndex + 1, carry'))
      else LoopAsWritten(dst', src, a, srcIndex + 1, dstIndex + 1, srcAcme, carry')
  }

  /** The last word's preserve-mask as written: from `dst_bit_index_acme & 63`, one past the last bit copied. */
  function LastMaskAsWritten(dstAcme: nat): Word {
    MaxShr(63 - dstAcme % 64)
  }

  /** Puts back the bits of the first and last words that lie outside the run. */
  function Restore(dst: seq<Word>, dstBase: nat, dstLast: nat, firstShift: nat, firstExt: Word, lastMask: Word, lastExt: Word): seq<Word>
    requires dstBase < |dst| && dstLast < |dst| && firstShift < 64
  {
    var dst1 := dst[dstBase := Xor(And(dst[dstBase], MaxShl(firstShift)), firstExt)];
    dst1[dstLast := Xor(And(dst1[dstLast], lastMask), lastExt)]
  }

  /** `copy_slice_bits` as written. */
  function CopyBitsAsWritten(dst: seq<Word>, src: seq<Word>, dstBit: nat, srcBit: nat, bitLen: nat): Option<seq<Word>>
    requires ValidArgs(|dst|, src, dstBit, srcBit, bitLen)
  {
    CopyWordsAsWritten(dst, src, dstBit, srcBit, bitLen, srcBit / 64, (srcBit + bitLen - 1) / 64,
      dstBit / 64, (dstBit + bitLen - 1) / 64, dstBit % 64 < srcBit % 64, AlignOffset(dstBit, srcBit))
  }

  /** The body of `copy_slice_bits` as written, given its derived word indices and alignment. */
  function CopyWordsAsWritten(dst: seq<Word>, src: seq<Word>, dstBit: nat, srcBit: nat, bitLen: nat,
                              srcBase: nat, srcAcme: nat, dstBase: nat, dstLast: nat, wraps: bool, a: nat): Option<seq<Word>>
    requires srcBase < |src| && dstBase < |dst| && dstLast < |dst| && a < 64
  {
    var res := LoopAsWritten(dst, src, a, if wraps then srcBase + 1 else srcBase, dstBase, srcAcme,
      if wraps then And(Rol(src[srcBase], a), LowMask(a)) else ZERO);
    if res.None? then None
    else AppendAndRestore(dst, res.value.0, res.value.1, res.value.2,
      wraps == (dstLast - dstBase == srcAcme - srcBase), dstBase, dstLast, dstBit % 64, LastMaskAsWritten(dstBit + bitLen))
  }

  /**
   * After the loop: stores the carry at `dstIndex` when `append`, then puts
   * back the bits of the original first and last words that `lastMask`
   * and the first word's offset mark as outside the run.
   */
  function AppendAndRestore(dst: seq<Word>, written: seq<Word>, dstIndex: nat, carry: Word, append: bool,
                            dstBase: nat, dstLast: nat, firstShift: nat, lastMask: Word): Option<seq<Word>>
    requires dstBase < |dst| && dstLast < |dst| && |written| == |dst| && firstShift < 64
  {
    if append && dstIndex >= |written| then None
    else
      var appended := if append then written[dstIndex := carry] else written;
      Some(Restore(appended, dstBase, dstLast, firstShift, And(dst[dstBase], LowMask(firstShift)),
        lastMask, And(dst[dstLast], Not(lastMask))))
  }

  /**
   * When the destination starts lower in its word than the source and the
   * source run lies in one word, the carry set-up already steps past the last
   * source word, so the loop never meets its exit and runs off the slice.
   */
  lemma CopyBitsAsWrittenRunsOff()
    ensures ValidArgs(1, [ZERO], 0, 5, 2) && CopyBitsAsWritten([ZERO], [ZERO], 0, 5, 2).None?
  {
  }

  /** Copying a whole word keeps only its bit 0. */
  lemma CopyBitsAsWrittenDropsBits()
    ensures ValidArgs(1, [ONES, ZERO], 0, 0, 64)
    ensures var r := CopyBitsAsWritten([ZERO], [ONES, ZERO], 0, 0, 64);
      r.Some? && |r.value| == 1 && r.value[0][0] && !r.value[0][1]
  {
    var r := CopyBitsAsWritten([ZERO], [ONES, ZERO], 0, 0, 64);
    var loop := LoopAsWritten([ZERO], [ONES, ZERO], 0, 0, 0, 0, ZERO);
    assert loop.Some? && loop.value.0[0] == ONES && loop.value.1 == 1;
  }

  /** Copying one bit clears the destination bit just past it. */
  lemma CopyBitsAsWrittenClobbersNext()
    ensures ValidArgs(1, [ZERO, ZERO], 0, 0, 1)
    ensures var r := CopyBitsAsWritten([ONES], [ZERO, ZERO], 0, 0, 1);
      r.Some? && |r.value| == 1 && !r.value[0][1]
  {
    var loop := LoopAsWritten([ONES], [ZERO, ZERO], 0, 0, 0, 0, ZERO);
    assert loop.Some? && loop.value.0[0] == ZERO && loop.value.1 == 1;
  }

  // ----- As intended -----

  /**
   * The word spans of the two runs differ by at most one word, in the
   * direction the alignment offset wraps: the fact the append decision relies on.
   */
  lemma WordSpans(dstBit: nat, srcBit: nat, bitLen: nat)
    requires bitLen > 0
    ensures var span := (dstBit + bitLen - 1) / 64 - dstBit / 64 - ((srcBit + bitLen - 1) / 64 - srcBit / 64);
      if dstBit % 64 < srcBit % 64 then -1 <= span <= 0 else 0 <= span <= 1
  {
    var t := srcBit % 64 + bitLen - 1;
    var c := dstBit % 64 - srcBit % 64;
    assert (srcBit + bitLen - 1) / 64 == srcBit / 64 + t / 64;
    assert (dstBit + bitLen - 1) / 64 == dstBit / 64 + (t + c) / 64;
  }

  /** `q` split into its word and bit. */
  lemma WordAndBit(q: int, i: int, r: int)
    requires 0 <= r < 64 && q == 64 * i + r
    ensures q / 64 == i && q % 64 == r
  {
  }

  /** Every bit of the run that falls in destination word `j` holds its source bit. */
  predicate WordHolds(word: Word, j: nat, src: seq<Word>, dstBit: nat, srcBit: nat, bitLen: nat)
    requires srcBit + bitLen <= 64 * |src|
  {
    forall k :: 0 <= k < 64 && dstBit <= 64 * j + k < dstBit + bitLen ==>
      word[k] == SliceBit(src, 64 * j + k - dstBit + srcBit)
  }

  /** The carry holds the top `a` bits of the last source word read, rotated to the bottom; none before the first. */
  predicate CarryHolds(carry: Word, a: nat, src: seq<Word>, srcIndex: nat, srcBase: nat)
    requires srcIndex <= |src| && a < 64
  {
    forall k :: 0 <= k < 64 ==> carry[k] == (k < a && srcIndex > srcBase && src[srcIndex - 1][k - a + 64])
  }

  /** The alignment facts shared by the loop: word `j` of `dst` is built from source word `i`. */
  predicate Aligned(dstBit: nat, srcBit: nat, a: nat, i: nat, j: nat)
  {
    64 * j - dstBit + srcBit == 64 * i - a
  }

  /** One round of the loop: the word written holds its run bits, and the new carry is right. */
  lemma {:induction false} LoopStep(src: seq<Word>, dstBit: nat, srcBit: nat, bitLen: nat, a: nat, i: nat, j: nat, carry: Word)
    requires srcBit + bitLen <= 64 * |src| && a < 64 && i < |src| && srcBit / 64 <= i
    requires Aligned(dstBit, srcBit, a, i, j) && CarryHolds(carry, a, src, i, srcBit / 64)
    ensures WordHolds(Or(And(Rol(src[i], a), Not(LowMask(a))), carry), j, src, dstBit, srcBit, bitLen)
    ensures CarryHolds(And(Rol(src[i], a), LowMask(a)), a, src, i + 1, srcBit / 64)
  {
    var word := Or(And(Rol(src[i], a), Not(LowMask(a))), carry);
    forall k | 0 <= k < 64 && dstBit <= 64 * j + k < dstBit + bitLen
      ensures word[k] == SliceBit(src, 64 * j + k - dstBit + srcBit)
    {
      var q := 64 * j + k - dstBit + srcBit;
      if k >= a {
        WordAndBit(q, i, k - a);
      } else {
        WordAndBit(q, i - 1, k - a + 64);
        assert q >= srcBit;
      }
    }
  }

  /** After the last source word, the carry alone holds the run bits of the next destination word. */
  lemma {:induction false} CarryWord(src: seq<Word>, dstBit: nat, srcBit: nat, bitLen: nat, a: nat, i: nat, j: nat, carry: Word)
    requires srcBit + bitLen <= 64 * |src| && a < 64 && 0 < i <= |src| && srcBit / 64 < i
    requires 64 * i >= srcBit + bitLen
    requires Aligned(dstBit, srcBit, a, i, j) && CarryHolds(carry, a, src, i, srcBit / 64)
    ensures WordHolds(carry, j, src, dstBit, srcBit, bitLen)
  {
    forall k | 0 <= k < 64 && dstBit <= 64 * j + k < dstBit + bitLen
      ensures carry[k] == SliceBit(src, 64 * j + k - dstBit + srcBit)
    {
      var q := 64 * j + k - dstBit + srcBit;
      WordAndBit(q, i - 1, k - a + 64);
    }
  }

  /**
   * The word loop and the carry append: each destination word from the
   * first to the last of the run holds its run bits; no other word changes.
   * The loop tests for the last source word before reading it.
   */
  method AlignWords(dst: array<Word>, src: seq<Word>, dstBit: nat, srcBit: nat, bitLen: nat)
    requires ValidArgs(dst.Length, src, dstBit, srcBit, bitLen)
    modifies dst
    ensures (dstBit + bitLen - 1) / 64 < dst.Length
    ensures forall j :: dstBit / 64 <= j <= (dstBit + bitLen - 1) / 64 ==> WordHolds(dst[j], j, src, dstBit, srcBit, bitLen)
    ensures forall j :: 0 <= j < dst.Length && !(dstBit / 64 <= j <= (dstBit + bitLen - 1) / 64) ==> dst[j] == old(dst[j])
  {
    var srcBase := srcBit / 64;
    var a := AlignOffset(dstBit, srcBit);
    var srcIndex := srcBase;
    var carry := ZERO;
    if dstBit % 64 < srcBit % 64 {
      carry := And(Rol(src[srcIndex], a), LowMask(a));
      srcIndex := srcIndex + 1;
    }
    CopyAligned(dst, src, dstBit, srcBit, bitLen, srcIndex, carry);
  }

  /**
   * The loop and the append, from the first source word not yet read:
   * `srcStart` is one past the source base when the set-up already read
   * it into the carry.
   */
  method CopyAligned(dst: array<Word>, src: seq<Word>, dstBit: nat, srcBit: nat, bitLen: nat, srcStart: nat, carry0: Word)
    requires ValidArgs(dst.Length, src, dstBit, srcBit, bitLen)
    requires srcStart == srcBit / 64 + (if dstBit % 64 < srcBit % 64 then 1 else 0) && srcStart <= |src|
    requires CarryHolds(carry0, AlignOffset(dstBit, srcBit), src, srcStart, srcBit / 64)
    modifies dst
    ensures (dstBit + bitLen - 1) / 64 < dst.Length
    ensures forall j :: dstBit / 64 <= j <= (dstBit + bitLen - 1) / 64 ==> WordHolds(dst[j], j, src, dstBit, srcBit, bitLen)
    ensures forall j :: 0 <= j < dst.Length && !(dstBit / 64 <= j <= (dstBit + bitLen - 1) / 64) ==> dst[j] == old(dst[j])
  {
    var srcBase := srcBit / 64;
    var srcAcme := (srcBit + bitLen - 1) / 64;
    var dstBase := dstBit / 64;
    var dstLast := (dstBit + bitLen - 1) / 64;
    WordSpans(dstBit, srcBit, bitLen);
    var wraps := dstBit % 64 < srcBit % 64;
    var srcIndex, dstIndex, carry := CopyLoop(dst, src, dstBit, srcBit, bitLen, srcStart, carry0);
    if wraps == (dstLast - dstBase == srcAcme - srcBase) {
      CarryWord(src, dstBit, srcBit, bitLen, AlignOffset(dstBit, srcBit), srcIndex, dstIndex, carry);
      dst[dstIndex] := carry;
    }
  }

  /**
   * The word loop: each source word up to the last of the run, rotated,
   * fills one destination word with the carry of the word before it.
   */
  method CopyLoop(dst: array<Word>, src: seq<Word>, dstBit: nat, srcBit: nat, bitLen: nat, srcStart: nat, carry0: Word)
    returns (srcIndex: nat, dstIndex: nat, carry: Word)
    requires ValidArgs(dst.Length, src, dstBit, srcBit, bitLen)
    requires srcStart == srcBit / 64 + (if dstBit % 64 < srcBit % 64 then 1 else 0) && srcStart <= |src|
    requires CarryHolds(carry0, AlignOffset(dstBit, srcBit), src, srcStart, srcBit / 64)
    modifies dst
    ensures srcIndex == (srcBit + bitLen - 1) / 64 + 1 && srcIndex <= |src|
    ensures dstIndex == dstBit / 64 + srcIndex - srcStart
    ensures Aligned(dstBit, srcBit, AlignOffset(dstBit, srcBit), srcIndex, dstIndex)
    ensures CarryHolds(carry, AlignOffset(dstBit, srcBit), src, srcIndex, srcBit / 64)
    ensures forall j :: dstBit / 64 <= j < dstIndex ==> WordHolds(dst[j], j, src, dstBit, srcBit, bitLen)
    ensures forall j :: 0 <= j < dst.Length && !(dstBit / 64 <= j < dstIndex) ==> dst[j] == old(dst[j])
  {
    var srcBase := srcBit / 64;
    var srcAcme := (srcBit + bitLen - 1) / 64;
    var dstBase := dstBit / 64;
    WordSpans(dstBit, srcBit, bitLen);
    WordAndBit(srcBit, srcBase, srcBit % 64);
    WordAndBit(dstBit, dstBase, dstBit % 64);

    var a := AlignOffset(dstBit, srcBit);
    var carryMask := LowMask(a);
    ghost var w := srcStart - srcBase;
    assert a == dstBit % 64 - srcBit % 64 + 64 * w;

    srcIndex := srcStart;
    dstIndex := dstBase;
    carry := carry0;
    while srcIndex <= srcAcme
      invariant srcStart <= srcIndex <= srcAcme + 1
      invariant dstIndex == dstBase + srcIndex - srcStart
      invariant Aligned(dstBit, srcBit, a, srcIndex, dstIndex)
      invariant CarryHolds(carry, a, src, srcIndex, srcBase)
      invariant forall j :: dstBase <= j < dstIndex ==> WordHolds(dst[j], j, src, dstBit, srcBit, bitLen)
      invariant forall j :: 0 <= j < dst.Length && !(dstBase <= j < dstIndex) ==> dst[j] == old(dst[j])
    {
      LoopStep(src, dstBit, srcBit, bitLen, a, srcIndex, dstIndex, carry);
      var rol := Rol(src[srcIndex], a);
      dst[dstIndex] := Or(And(rol, Not(carryMask)), carry);
      carry := And(rol, carryMask);
      dstIndex := dstIndex + 1;
      srcIndex := srcIndex + 1;
    }
  }

  /** The first word's restore: bits below `shift` from `orig`, the rest from `word`. */
  lemma FirstRestore(word: Word, orig: Word, shift: nat)
    requires shift < 64
    ensures forall k :: 0 <= k < 64 ==>
      Xor(And(word, MaxShl(shift)), And(orig, LowMask(shift)))[k] == if k < shift then orig[k] else word[k]
  {
  }

  /** The last word's restore: bits up to `e` from `word`, the rest from `orig`. */
  lemma LastRestore(word: Word, orig: Word, e: nat)
    requires e < 64
    ensures forall k :: 0 <= k < 64 ==>
      Xor(And(word, MaxShr(63 - e)), And(orig, Not(MaxShr(63 - e))))[k] == if k <= e then word[k] else orig[k]
  {
  }

  /**
   * `copy_slice_bits` with the two defects corrected: the loop tests for the
   * last source word before reading it, and the last word's mask is built
   * from the last bit copied. Afterwards bits [dstBit, dstBit + bitLen) of
   * `dst` hold bits [srcBit, srcBit + bitLen) of `src`, and every other bit,
   * in particular those below the run in its first word and above it in its
   * last word, is as before.
   */
  method CopySliceBits(dst: array<Word>, src: seq<Word>, dstBit: nat, srcBit: nat, bitLen: nat)
    requires ValidArgs(dst.Length, src, dstBit, srcBit, bitLen)
    modifies dst
    ensures forall j, k :: 0 <= j < dst.Length && 0 <= k < 64 && dstBit <= 64 * j + k < dstBit + bitLen ==>
      dst[j][k] == SliceBit(src, 64 * j + k - dstBit + srcBit)
    ensures forall j, k :: 0 <= j < dst.Length && 0 <= k < 64 && !(dstBit <= 64 * j + k < dstBit + bitLen) ==>
      dst[j][k] == old(dst[j])[k]
  {
    var dstAcme := dstBit + bitLen;
    var dstBase := dstBit / 64;
    var dstLast := (dstAcme - 1) / 64;
    WordAndBit(dstBit, dstBase, dstBit % 64);
    WordAndBit(dstAcme - 1, dstLast, (dstAcme - 1) % 64);

    var firstExt := And(dst[dstBase], LowMask(dstBit % 64));
    var lastMask := MaxShr(63 - (dstAcme - 1) % 64);
    var lastExt := And(dst[dstLast], Not(lastMask));
    ghost var orig := dst[..];

    AlignWords(dst, src, dstBit, srcBit, bitLen);
    ghost var aligned := dst[..];

    FirstRestore(dst[dstBase], orig[dstBase], dstBit % 64);
    dst[dstBase] := Xor(And(dst[dstBase], MaxShl(dstBit % 64)), firstExt);
    ghost var first := dst[..];
    LastRestore(dst[dstLast], orig[dstLast], (dstAcme - 1) % 64);
    dst[dstLast] := Xor(And(dst[dstLast], lastMask), lastExt);

    forall j, k | 0 <= j < dst.Length && 0 <= k < 64
      ensures dst[j][k] == if dstBit <= 64 * j + k < dstAcme then SliceBit(src, 64 * j + k - dstBit + srcBit) else orig[j][k]
    {
      if dstBase <= j <= dstLast {
        assert WordHolds(aligned[j], j, src, dstBit, srcBit, bitLen);
      }
    }
  }
}
