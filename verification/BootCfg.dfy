/**
 * The boot configuration (kernel/src/cfg.rs): `key=hex` lines read once
 * from the bootloader's environment text into three static slots, guarded
 * by a 0 → 1 → 2 synchronisation state. Text is a sequence of characters;
 * the atomic state is an ordinary field, since the model is sequential.
 */
module BootCfg {
  import opened Wrappers

  const USIZE_LIMIT: int := 0x1_0000_0000_0000_0000

  type usize = x: int | 0 <= x < USIZE_LIMIT

  // ----- `str::split` -----

  /** The separators of `s` are exactly the gaps between the parts. */
  function Join(parts: seq<string>, sep: char): string
    requires |parts| >= 1
  {
    if |parts| == 1 then parts[0] else parts[0] + [sep] + Join(parts[1..], sep)
  }

  /** The index of the first `c` in `s`, if there is one. */
  function Find(s: string, c: char): (r: Option<nat>)
    ensures r.Some? ==> r.value < |s| && s[r.value] == c && c !in s[..r.value]
    ensures r.None? ==> c !in s
  {
    if |s| == 0 then None
    else if s[0] == c then Some(0)
    else match Find(s[1..], c)
      case None => None
      case Some(i) =>
        assert s[..i + 1] == [s[0]] + s[1..][..i];
        Some(i + 1)
  }

  /**
   * `s.split(sep)`: the pieces between separators, an empty piece at each
   * end the separators leave there, and one piece when there are none.
   */
  function Split(s: string, sep: char): (parts: seq<string>)
    ensures |parts| >= 1
    ensures forall k :: 0 <= k < |parts| ==> sep !in parts[k]
    ensures Join(parts, sep) == s
    decreases |s|
  {
    match Find(s, sep)
    case None => [s]
    case Some(i) =>
      var rest := Split(s[i + 1..], sep);
      assert s == s[..i] + [sep] + s[i + 1..];
      [s[..i]] + rest
  }

  /** Splitting the join of separator-free parts gives the parts back. */
  lemma {:induction false} SplitJoin(parts: seq<string>, sep: char)
    requires |parts| >= 1
    requires forall k :: 0 <= k < |parts| ==> sep !in parts[k]
    ensures Split(Join(parts, sep), sep) == parts
    decreases |parts|
  {
    var s := Join(parts, sep);
    if |parts| == 1 {
      assert Find(s, sep).None?;
    } else {
      var tail := Join(parts[1..], sep);
      assert s == parts[0] + [sep] + tail;
      FindAfterPrefix(parts[0], sep, tail);
      assert s[|parts[0]| + 1..] == tail;
      SplitJoin(parts[1..], sep);
      assert s[..|parts[0]|] == parts[0];
      assert parts == [parts[0]] + parts[1..];
    }
  }

  lemma {:induction false} FindAfterPrefix(a: string, c: char, b: string)
    requires c !in a
    ensures Find(a + [c] + b, c) == Some(|a|)
    decreases |a|
  {
    var s := a + [c] + b;
    if |a| > 0 {
      assert s[0] == a[0] != c;
      assert s[1..] == a[1..] + [c] + b;
      FindAfterPrefix(a[1..], c, b);
    }
  }

  // ----- `str::trim` -----

  /** `char::is_whitespace`: the Unicode White_Space property. */
  predicate IsWhitespace(c: char) {
    || ('\t' <= c <= '\r') || c == ' ' || c == '\U{85}' || c == '\U{A0}' || c == '\U{1680}'
    || ('\U{2000}' <= c <= '\U{200A}') || c == '\U{2028}' || c == '\U{2029}' || c == '\U{202F}'
    || c == '\U{205F}' || c == '\U{3000}'
  }

  function TrimStart(s: string): (t: string)
    ensures |t| <= |s| && t == s[|s| - |t|..]
    ensures forall k :: 0 <= k < |s| - |t| ==> IsWhitespace(s[k])
    ensures |t| > 0 ==> !IsWhitespace(t[0])
  {
    if |s| > 0 && IsWhitespace(s[0]) then TrimStart(s[1..]) else s
  }

  function TrimEnd(s: string): (t: string)
    ensures |t| <= |s| && t == s[..|t|]
    ensures forall k :: |t| <= k < |s| ==> IsWhitespace(s[k])
    ensures |t| > 0 ==> !IsWhitespace(t[|t| - 1])
  {
    if |s| > 0 && IsWhitespace(s[|s| - 1]) then TrimEnd(s[..|s| - 1]) else s
  }

  /** `str::trim`: the text without leading and trailing whitespace. */
  function Trim(s: string): (t: string)
    ensures |t| <= |s|
    ensures |t| > 0 ==> !IsWhitespace(t[0]) && !IsWhitespace(t[|t| - 1])
  {
    TrimEnd(TrimStart(s))
  }

  /** Text with no whitespace at either end is its own trim. */
  lemma TrimUnpadded(s: string)
    requires |s| > 0 ==> !IsWhitespace(s[0]) && !IsWhitespace(s[|s| - 1])
    ensures Trim(s) == s
  {
  }

  // ----- `u64::from_str_radix(_, 16)` -----

  predicate IsHexDigit(c: char) {
    ('0' <= c <= '9') || ('a' <= c <= 'f') || ('A' <= c <= 'F')
  }

  function DigitValue(c: char): (v: nat)
    requires IsHexDigit(c)
    ensures v < 16
  {
    if '0' <= c <= '9' then c as int - '0' as int
    else if 'a' <= c <= 'f' then c as int - 'a' as int + 10
    else c as int - 'A' as int + 10
  }

  /** The value of a string of hex digits, most significant first. */
  function HexValue(s: string): nat
    requires forall k :: 0 <= k < |s| ==> IsHexDigit(s[k])
  {
    if |s| == 0 then 0 else 16 * HexValue(s[..|s| - 1]) + DigitValue(s[|s| - 1])
  }

  /**
   * `usize::from_str_radix(s, 16)`: an optional `+` and at least one hex
   * digit, `None` when something else is there or the value overflows
   * `usize`. The library folds digit by digit with checked arithmetic;
   * since the running value never decreases, it overflows at some digit
   * exactly when the whole value does.
   */
  function ParseHex(s: string): (r: Option<usize>)
    ensures r.Some? ==> |s| > 0
    ensures r.Some? && s[0] != '+' ==> (forall k :: 0 <= k < |s| ==> IsHexDigit(s[k])) && r.value == HexValue(s)
    ensures r.Some? <==> IsHex(Unsigned(s)) && HexValue(Unsigned(s)) < USIZE_LIMIT
    ensures r.Some? ==> r.value == HexValue(Unsigned(s))
  {
    var digits := Unsigned(s);
    if |digits| == 0 || !(forall k :: 0 <= k < |digits| ==> IsHexDigit(digits[k])) then None
    else if HexValue(digits) >= USIZE_LIMIT then None
    else Some(HexValue(digits))
  }

  /** The digits of a number's text: what follows a leading `+`, if there is one. */
  function Unsigned(s: string): (d: string)
    ensures |s| > 0 && s[0] == '+' ==> s == "+" + d
    ensures !(|s| > 0 && s[0] == '+') ==> d == s
  {
    if |s| > 0 && s[0] == '+' then s[1..] else s
  }

  /** At least one hex digit and nothing else. */
  predicate IsHex(s: string) {
    |s| > 0 && forall k :: 0 <= k < |s| ==> IsHexDigit(s[k])
  }

  /** A leading `0` does not change the value of hex digits. */
  lemma {:induction false} HexLeadingZero(s: string)
    requires forall k :: 0 <= k < |s| ==> IsHexDigit(s[k])
    ensures forall k :: 0 <= k < |"0" + s| ==> IsHexDigit(("0" + s)[k])
    ensures HexValue("0" + s) == HexValue(s)
    decreases |s|
  {
    var z := "0" + s;
    assert forall k :: 0 <= k < |z| ==> IsHexDigit(z[k]) by {
      forall k | 0 <= k < |z| ensures IsHexDigit(z[k]) {
        if k > 0 { assert z[k] == s[k - 1]; }
      }
    }
    if |s| == 0 {
      assert z[..0] == [];
    } else {
      var init := s[..|s| - 1];
      assert z[..|z| - 1] == "0" + init;
      HexLeadingZero(init);
    }
  }

  /**
   * Hex text padded with leading zeros, in either case, and with or without
   * a `+`, parses to the value of its digits, and the value of any number
   * of zeros followed by the formatted value is that value.
   */
  lemma {:induction false} ParseHexPadded(zeros: nat, v: usize, plus: bool)
    ensures ParseHex((if plus then "+" else "") + Zeros(zeros) + ToHex(v)) == Some(v)
  {
    var hex := ToHex(v);
    var d := Zeros(zeros) + hex;
    PaddedValue(zeros, hex);
    assert IsHex(d) && HexValue(d) == v;
    var s := (if plus then "+" else "") + d;
    if plus {
      assert s == "+" + d && s[0] == '+' && s[1..] == d;
    } else {
      assert s == d;
      assert d[0] != '+' by {
        if zeros == 0 { assert d[0] == hex[0]; } else { assert d[0] == '0'; }
      }
    }
    assert Unsigned(s) == d;
    assert (if plus then "+" else "") + Zeros(zeros) + hex == s;
  }

  /** `n` zero digits. */
  function Zeros(n: nat): (z: string)
    ensures |z| == n && forall k :: 0 <= k < n ==> z[k] == '0'
  {
    if n == 0 then "" else "0" + Zeros(n - 1)
  }

  lemma {:induction false} PaddedValue(n: nat, s: string)
    requires forall k :: 0 <= k < |s| ==> IsHexDigit(s[k])
    ensures forall k :: 0 <= k < |Zeros(n) + s| ==> IsHexDigit((Zeros(n) + s)[k])
    ensures HexValue(Zeros(n) + s) == HexValue(s)
    decreases n
  {
    var z := Zeros(n) + s;
    assert forall k :: 0 <= k < |z| ==> IsHexDigit(z[k]) by {
      forall k | 0 <= k < |z| ensures IsHexDigit(z[k]) {
        if k >= n { assert z[k] == s[k - n]; }
      }
    }
    if n == 0 {
      assert z == s;
    } else {
      var t := Zeros(n - 1) + s;
      PaddedValue(n - 1, s);
      assert z == "0" + t;
      HexLeadingZero(t);
    }
  }

  function HexDigit(d: nat): (c: char)
    requires d < 16
    ensures IsHexDigit(c) && DigitValue(c) == d
  {
    if d < 10 then ('0' as int + d) as char else ('a' as int + d - 10) as char
  }

  /** `{:x}` formatting: lower-case hex digits, no leading zeros, "0" for zero. */
  function ToHex(v: nat): (s: string)
    ensures |s| > 0 && s[0] != '+'
    ensures forall k :: 0 <= k < |s| ==> IsHexDigit(s[k])
    ensures HexValue(s) == v
  {
    if v < 16 then [HexDigit(v)]
    else
      var s := ToHex(v / 16) + [HexDigit(v % 16)];
      assert s[..|s| - 1] == ToHex(v / 16);
      s
  }

  /** Formatting a `usize` in hex and parsing it back gives the value. */
  lemma HexRoundTrip(v: usize)
    ensures ParseHex(ToHex(v)) == Some(v)
  {
  }

  // ----- One configuration value -----

  /** `str::starts_with`. */
  predicate StartsWith(s: string, prefix: string) {
    |prefix| <= |s| && s[..|prefix|] == prefix
  }

  /** A line that holds the value of `key`: its trimmed text starts with the key. */
  predicate IsKeyLine(line: string, key: string) {
    StartsWith(Trim(line), key)
  }

  /** The index of the first line whose trimmed text starts with `key`. */
  function FindKeyLine(lines: seq<string>, key: string): (r: Option<nat>)
    ensures r.Some? ==> r.value < |lines| && IsKeyLine(lines[r.value], key)
    ensures r.Some? ==> forall k :: 0 <= k < r.value ==> !IsKeyLine(lines[k], key)
    ensures r.None? ==> forall k :: 0 <= k < |lines| ==> !IsKeyLine(lines[k], key)
  {
    FindKeyLineFrom(lines, key, 0)
  }

  /** The search from line `i` on. */
  function FindKeyLineFrom(lines: seq<string>, key: string, i: nat): (r: Option<nat>)
    requires i <= |lines|
    ensures r.Some? ==> i <= r.value < |lines| && IsKeyLine(lines[r.value], key)
    ensures r.Some? ==> forall k :: i <= k < r.value ==> !IsKeyLine(lines[k], key)
    ensures r.None? ==> forall k :: i <= k < |lines| ==> !IsKeyLine(lines[k], key)
    decreases |lines| - i
  {
    if i == |lines| then None
    else if IsKeyLine(lines[i], key) then Some(i)
    else FindKeyLineFrom(lines, key, i + 1)
  }

  /** `split_once('=')`: the text before and after the first `=`. */
  function SplitOnce(s: string, c: char): (r: Option<(string, string)>)
    ensures r.None? <==> c !in s
    ensures r.Some? ==> s == r.value.0 + [c] + r.value.1 && c !in r.value.0
  {
    match Find(s, c)
    case None => None
    case Some(i) =>
      assert s == s[..i] + [c] + s[i + 1..];
      Some((s[..i], s[i + 1..]))
  }

  /**
   * The value of one key: the default when no line starts with the key;
   * otherwise the trimmed text after the first `=` of the first such line,
   * in hex. A line with no `=` (the `unwrap`) and text that is not a hex
   * `usize` (the `expect`) panic.
   */
  function Lookup(cfg: string, key: string, default: usize): (r: Result<usize>)
    ensures FindKeyLine(Split(cfg, '\n'), key).None? ==> r == Ok(default)
    ensures r.Panic? ==> FindKeyLine(Split(cfg, '\n'), key).Some?
    ensures r.Ok? && FindKeyLine(Split(cfg, '\n'), key).Some? ==>
      '=' in Split(cfg, '\n')[FindKeyLine(Split(cfg, '\n'), key).value]
  {
    var lines := Split(cfg, '\n');
    match FindKeyLine(lines, key)
    case None => Ok(default)
    case Some(k) =>
      match SplitOnce(lines[k], '=')
      case None => Panic
      case Some((_, text)) =>
        match ParseHex(Trim(text))
        case None => Panic
        case Some(v) => Ok(v)
  }

  /** A configuration in which no line holds the key gives the default. */
  lemma LookupAbsent(lines: seq<string>, key: string, default: usize)
    requires |lines| >= 1
    requires forall k :: 0 <= k < |lines| ==> '\n' !in lines[k] && !IsKeyLine(lines[k], key)
    ensures Lookup(Join(lines, '\n'), key, default) == Ok(default)
  {
    SplitJoin(lines, '\n');
    assert FindKeyLine(lines, key).None?;
  }

  /**
   * The first line for `key` holds no `=`: `split_once('=').unwrap()`
   * panics, whatever the lines before it say about other keys and whatever
   * follows.
   */
  lemma LookupNoEquals(before: seq<string>, line: string, after: seq<string>, key: string, default: usize)
    requires forall k :: 0 <= k < |before| ==> '\n' !in before[k] && !IsKeyLine(before[k], key)
    requires forall k :: 0 <= k < |after| ==> '\n' !in after[k]
    requires '\n' !in line && IsKeyLine(line, key) && '=' !in line
    ensures Lookup(Join(before + [line] + after, '\n'), key, default) == Panic
  {
    var lines := before + [line] + after;
    LinesOfEntry(before, line, after);
    SplitJoin(lines, '\n');
    FirstKeyLine(lines, key, |before|);
    assert lines[|before|] == line;
  }

  /**
   * The first line for `key` is `head=text` and the trimmed `text` is not
   * a hex `usize`: `from_str_radix` fails and the `expect` panics.
   */
  lemma LookupInvalidHex(before: seq<string>, head: string, text: string, after: seq<string>, key: string, default: usize)
    requires forall k :: 0 <= k < |before| ==> '\n' !in before[k] && !IsKeyLine(before[k], key)
    requires forall k :: 0 <= k < |after| ==> '\n' !in after[k]
    requires '\n' !in head + "=" + text && IsKeyLine(head + "=" + text, key) && '=' !in head
    requires ParseHex(Trim(text)).None?
    ensures Lookup(Join(before + [head + "=" + text] + after, '\n'), key, default) == Panic
  {
    var line := head + "=" + text;
    var lines := before + [line] + after;
    LinesOfEntry(before, line, after);
    SplitJoin(lines, '\n');
    FirstKeyLine(lines, key, |before|);
    assert lines[|before|] == line;
    SplitAtKey(head, text);
  }

  /** A line `key=<hex>`, as a configuration writer would produce it. */
  function Entry(key: string, v: nat): string {
    key + "=" + ToHex(v)
  }

  /**
   * Reading back a configuration whose first line for `key` is the entry
   * `key=<hex of v>` gives `v`, whatever the lines before it say about
   * other keys and whatever follows.
   */
  lemma LookupEntry(before: seq<string>, key: string, v: usize, after: seq<string>, default: usize)
    requires |key| > 0 && !IsWhitespace(key[0]) && '=' !in key && '\n' !in key
    requires forall k :: 0 <= k < |before| ==> '\n' !in before[k] && !IsKeyLine(before[k], key)
    requires forall k :: 0 <= k < |after| ==> '\n' !in after[k]
    ensures Lookup(Join(before + [Entry(key, v)] + after, '\n'), key, default) == Ok(v)
  {
    var e := Entry(key, v);
    var lines := before + [e] + after;
    EntryFacts(key, v);
    LinesOfEntry(before, e, after);
    SplitJoin(lines, '\n');
    FirstKeyLine(lines, key, |before|);
    LookupAt(Join(lines, '\n'), key, |before|, v, default);
  }

  lemma LinesOfEntry(before: seq<string>, e: string, after: seq<string>)
    requires forall k :: 0 <= k < |before| ==> '\n' !in before[k]
    requires forall k :: 0 <= k < |after| ==> '\n' !in after[k]
    requires '\n' !in e
    ensures forall k :: 0 <= k < |before + [e] + after| ==> '\n' !in (before + [e] + after)[k]
  {
    var lines := before + [e] + after;
    forall k | 0 <= k < |lines| ensures '\n' !in lines[k] {
      if k < |before| {
        assert lines[k] == before[k];
      } else if k > |before| {
        assert lines[k] == after[k - |before| - 1];
      }
    }
  }

  /** The lookup, once the first line for the key is known to be an entry. */
  lemma LookupAt(cfg: string, key: string, k: nat, v: usize, default: usize)
    requires |key| > 0 && !IsWhitespace(key[0]) && '=' !in key && '\n' !in key
    requires FindKeyLine(Split(cfg, '\n'), key) == Some(k)
    requires Split(cfg, '\n')[k] == Entry(key, v)
    ensures Lookup(cfg, key, default) == Ok(v)
  {
    EntryFacts(key, v);
  }

  /** An entry is one line, its trimmed text starts with the key, and its value follows the `=`. */
  lemma EntryFacts(key: string, v: usize)
    requires |key| > 0 && !IsWhitespace(key[0]) && '=' !in key && '\n' !in key
    ensures '\n' !in Entry(key, v)
    ensures IsKeyLine(Entry(key, v), key)
    ensures SplitOnce(Entry(key, v), '=') == Some((key, ToHex(v)))
    ensures ParseHex(Trim(ToHex(v))) == Some(v)
  {
    var hex := ToHex(v);
    var e := Entry(key, v);
    assert e == key + ['='] + hex;
    forall k | 0 <= k < |hex| ensures hex[k] != '\n' && hex[k] != '=' && !IsWhitespace(hex[k]) {
      assert IsHexDigit(hex[k]);
    }
    assert '\n' !in hex;
    assert e[|e| - 1] == hex[|hex| - 1];
    TrimUnpadded(e);
    assert e[..|key|] == key;
    SplitAtKey(key, hex);
    TrimUnpadded(hex);
    HexRoundTrip(v);
  }

  lemma FirstKeyLine(lines: seq<string>, key: string, i: nat)
    requires i < |lines| && IsKeyLine(lines[i], key)
    requires forall k :: 0 <= k < i ==> !IsKeyLine(lines[k], key)
    ensures FindKeyLine(lines, key) == Some(i)
  {
  }

  lemma SplitAtKey(key: string, text: string)
    requires '=' !in key
    ensures SplitOnce(key + "=" + text, '=') == Some((key, text))
  {
    var s := key + "=" + text;
    assert s == key + ['='] + text;
    FindAfterPrefix(key, '=', text);
    assert s[..|key|] == key && s[|key| + 1..] == text;
  }

  // ----- The configuration store -----

  const STACK_SIZE_DEFAULT: usize := 0x80_0000 - 0x1000
  const HEAP_INIT_SIZE_DEFAULT: usize := 0x100_0000
  const HEAP_SMLST_BLOCK_DEFAULT: usize := 0x20

  /** What `init_boot_cfg` did. */
  datatype InitOutcome =
    | Initialised
    | AlreadyInitialised
    /** Another processor is initialising; the source spins until it finishes. */
    | InitialisingElsewhere
    | Panicked

  /** `CFG_SYNC_STATE` and the three `STATIC_DATA` slots `krnl_boot_cfg!` declares. */
  class BootCfg {
    var syncState: int
    var stackSize: usize
    var heapInitSize: usize
    var heapSmlstBlock: usize

    /** The statics as the kernel image holds them: state 0 and the defaults. */
    constructor ()
      ensures syncState == 0
      ensures stackSize == STACK_SIZE_DEFAULT && heapInitSize == HEAP_INIT_SIZE_DEFAULT
      ensures heapSmlstBlock == HEAP_SMLST_BLOCK_DEFAULT
    {
      syncState := 0;
      stackSize := STACK_SIZE_DEFAULT;
      heapInitSize := HEAP_INIT_SIZE_DEFAULT;
      heapSmlstBlock := HEAP_SMLST_BLOCK_DEFAULT;
    }

    /** `stack_size()`: panics unless the configuration is initialised. */
    function StackSize(): (r: Result<usize>)
      reads this
      ensures r.Ok? <==> syncState == 2
      ensures r.Ok? ==> r.value == stackSize
    {
      if syncState == 2 then Ok(stackSize) else Panic
    }

    /** `heap_init_size()`. */
    function HeapInitSize(): (r: Result<usize>)
      reads this
      ensures r.Ok? <==> syncState == 2
      ensures r.Ok? ==> r.value == heapInitSize
    {
      if syncState == 2 then Ok(heapInitSize) else Panic
    }

    /** `heap_smlst_block()`. */
    function HeapSmlstBlock(): (r: Result<usize>)
      reads this
      ensures r.Ok? <==> syncState == 2
      ensures r.Ok? ==> r.value == heapSmlstBlock
    {
      if syncState == 2 then Ok(heapSmlstBlock) else Panic
    }

    /**
     * `init_boot_cfg`: from state 0, move to 1, fill the slots in
     * declaration order, then move to 2. A panic part-way leaves state 1
     * and the slots filled so far. From state 2 nothing happens.
     */
    method InitBootCfg(cfg: string) returns (outcome: InitOutcome)
      modifies this
      ensures old(syncState) == 2 ==> outcome == AlreadyInitialised && unchanged(this)
      ensures old(syncState) == 1 ==> outcome == InitialisingElsewhere && unchanged(this)
      ensures old(syncState) !in {0, 1, 2} ==> outcome == Panicked && unchanged(this)
      ensures old(syncState) == 0 ==>
        var s := Lookup(cfg, "stack_size", STACK_SIZE_DEFAULT);
        var h := Lookup(cfg, "heap_init_size", HEAP_INIT_SIZE_DEFAULT);
        var b := Lookup(cfg, "heap_smlst_block", HEAP_SMLST_BLOCK_DEFAULT);
        && (outcome == Initialised <==> s.Ok? && h.Ok? && b.Ok?)
        && (outcome == Initialised ==>
              syncState == 2 && stackSize == s.value && heapInitSize == h.value && heapSmlstBlock == b.value)
        && (outcome != Initialised ==> outcome == Panicked && syncState == 1)
    {
      if syncState == 2 {
        return AlreadyInitialised;
      } else if syncState == 1 {
        return InitialisingElsewhere;
      } else if syncState != 0 {
        return Panicked;
      }
      syncState := 1;
      var ok := ReadStackSize(cfg);
      if !ok {
        return Panicked;
      }
      ok := ReadHeapInitSize(cfg);
      if !ok {
        return Panicked;
      }
      ok := ReadHeapSmlstBlock(cfg);
      if !ok {
        return Panicked;
      }
      syncState := 2;
      return Initialised;
    }

    /** The `stack_size` statement of `init_boot_cfg`: the slot takes the value read, unless the read panics. */
    method ReadStackSize(cfg: string) returns (ok: bool)
      modifies this
      ensures var s := Lookup(cfg, "stack_size", STACK_SIZE_DEFAULT);
        && (ok <==> s.Ok?)
        && stackSize == (if ok then s.value else old(stackSize))
      ensures syncState == old(syncState) && heapInitSize == old(heapInitSize) && heapSmlstBlock == old(heapSmlstBlock)
    {
      var s := Lookup(cfg, "stack_size", STACK_SIZE_DEFAULT);
      ok := s.Ok?;
      if ok {
        stackSize := s.value;
      }
    }

    /** The `heap_init_size` statement. */
    method ReadHeapInitSize(cfg: string) returns (ok: bool)
      modifies this
      ensures var h := Lookup(cfg, "heap_init_size", HEAP_INIT_SIZE_DEFAULT);
        && (ok <==> h.Ok?)
        && heapInitSize == (if ok then h.value else old(heapInitSize))
      ensures syncState == old(syncState) && stackSize == old(stackSize) && heapSmlstBlock == old(heapSmlstBlock)
    {
      var h := Lookup(cfg, "heap_init_size", HEAP_INIT_SIZE_DEFAULT);
      ok := h.Ok?;
      if ok {
        heapInitSize := h.value;
      }
    }

    /** The `heap_smlst_block` statement. */
    method ReadHeapSmlstBlock(cfg: string) returns (ok: bool)
      modifies this
      ensures var b := Lookup(cfg, "heap_smlst_block", HEAP_SMLST_BLOCK_DEFAULT);
        && (ok <==> b.Ok?)
        && heapSmlstBlock == (if ok then b.value else old(heapSmlstBlock))
      ensures syncState == old(syncState) && stackSize == old(stackSize) && heapInitSize == old(heapInitSize)
    {
      var b := Lookup(cfg, "heap_smlst_block", HEAP_SMLST_BLOCK_DEFAULT);
      ok := b.Ok?;
      if ok {
        heapSmlstBlock := b.value;
      }
    }
  }
}
