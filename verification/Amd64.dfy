/** Privilege levels of the x86-64 protection rings (amd64/src/lib.rs). */
module Amd64 {
  import opened Wrappers

  /** The four rings; the discriminants are the two-bit encodings 0..3. */
  datatype PrivLvl = Ring0 | Ring1 | Ring2 | Ring3

  /** The two-bit encoding of a level. */
  function ToBits(p: PrivLvl): (r: bv8)
    ensures r <= 3
    ensures FromBits(r) == Ok(p)
  {
    match p
    case Ring0 => 0
    case Ring1 => 1
    case Ring2 => 2
    case Ring3 => 3
  }

  /** Decodes a two-bit encoding; anything above 3 panics. */
  function FromBits(b: bv8): (r: Result<PrivLvl>)
    ensures r.Ok? <==> b <= 3
  {
    if b == 0 then Ok(Ring0)
    else if b == 1 then Ok(Ring1)
    else if b == 2 then Ok(Ring2)
    else if b == 3 then Ok(Ring3)
    else Panic
  }

  /** Only ring 3 is userland. */
  predicate IsUserland(p: PrivLvl) {
    p.Ring3?
  }

  /** Decoding and then encoding gives back every valid code. */
  lemma FromBitsToBits(b: bv8)
    requires b <= 3
    ensures FromBits(b).Ok? && ToBits(FromBits(b).value) == b
  {
  }

  /** Userland is exactly the level whose encoding has both bits set. */
  lemma IsUserlandBits(p: PrivLvl)
    ensures IsUserland(p) <==> ToBits(p) == 3
  {
  }
}
