/** Reading numbers from text: the kernel version gate and the configured ring size. */
module KernelVersion {
  import opened IoTypes

  predicate IsDigit(c: char) {
    '0' <= c <= '9'
  }

  /** Unicode White_Space, which str::trim removes. */
  predicate IsWhitespace(c: char) {
    var n := c as int;
    || 9 <= n <= 13 || n == 32 || n == 0x85 || n == 0xA0 || n == 0x1680 || 0x2000 <= n <= 0x200A
    || n == 0x2028 || n == 0x2029 || n == 0x202F || n == 0x205F || n == 0x3000
  }

  function TrimStart(s: string): string {
    if s != "" && IsWhitespace(s[0]) then TrimStart(s[1..]) else s
  }

  function TrimEnd(s: string): string {
    if s != "" && IsWhitespace(s[|s| - 1]) then TrimEnd(s[..|s| - 1]) else s
  }

  function Trim(s: string): string {
    TrimEnd(TrimStart(s))
  }

  /** The text before the first `c`, all of it if there is none. */
  function Before(s: string, c: char): string {
    if s == "" || s[0] == c then "" else [s[0]] + Before(s[1..], c)
  }

  /** The text after the first `c`, if there is one. */
  function Beyond(s: string, c: char): Option<string> {
    if s == "" then None else if s[0] == c then Some(s[1..]) else Beyond(s[1..], c)
  }

  function TakeDigits(s: string): string {
    if s != "" && IsDigit(s[0]) then [s[0]] + TakeDigits(s[1..]) else ""
  }

  predicate AllDigits(s: string) {
    forall i | 0 <= i < |s| :: IsDigit(s[i])
  }

  function Value(s: string): nat
    requires AllDigits(s)
  {
    if s == "" then 0 else 10 * Value(s[..|s| - 1]) + (s[|s| - 1] as int - '0' as int)
  }

  /** str::parse::<u32>: digits, after an optional plus sign, of a value that fits. */
  function ParseU32(s: string): Option<nat> {
    var digits := if |s| > 1 && s[0] == '+' then s[1..] else s;
    if digits != "" && AllDigits(digits) && Value(digits) < U32 then Some(Value(digits)) else None
  }

  function ParseKernelVersion(release: string): Option<(nat, nat)> {
    var text := Trim(release);
    match (ParseU32(Before(text, '.')), Beyond(text, '.'))
    case (Some(major), Some(rest)) =>
      (match ParseU32(TakeDigits(Before(rest, '.')))
       case Some(minor) => Some((major, minor))
       case None => None)
    case _ => None
  }

  /** The gate on the running kernel. A release that cannot be read or parsed is not rejected. */
  function IsUringSecureAndSupported(release: Option<string>, ringWorks: bool, probeWorks: bool,
                                     readSupported: bool, writeSupported: bool): bool {
    var tooOld :=
      match release
      case None => false
      case Some(text) =>
        match ParseKernelVersion(text)
        case None => false
        case Some((major, minor)) => major < 5 || (major == 5 && minor < 10);
    !tooOld && ringWorks && probeWorks && readSupported && writeSupported
  }

  // --- Printing and reading back ---

  function Digit(d: nat): char
    requires d < 10
  {
    (d + '0' as int) as char
  }

  function Decimal(n: nat): string {
    if n < 10 then [Digit(n)] else Decimal(n / 10) + [Digit(n % 10)]
  }

  lemma {:induction false} DecimalReadsBack(n: nat)
    ensures Decimal(n) != "" && AllDigits(Decimal(n)) && Value(Decimal(n)) == n
  {
    if n >= 10 {
      DecimalReadsBack(n / 10);
      assert Decimal(n)[..|Decimal(n)| - 1] == Decimal(n / 10);
    }
  }

  lemma ParsesDecimal(n: nat)
    requires n < U32
    ensures ParseU32(Decimal(n)) == Some(n)
  {
    DecimalReadsBack(n);
    assert IsDigit(Decimal(n)[0]);
  }

  lemma {:induction false} BeforeConcat(s: string, c: char, rest: string)
    requires c !in s
    ensures Before(s + [c] + rest, c) == s
    ensures Beyond(s + [c] + rest, c) == Some(rest)
  {
    var all := s + [c] + rest;
    if s == "" {
      assert all[1..] == rest;
    } else {
      assert all[1..] == s[1..] + [c] + rest;
      BeforeConcat(s[1..], c, rest);
    }
  }

  /** Splitting at a later dot keeps the leading digits. */
  lemma {:induction false} LeadingDigits(digits: string, rest: string)
    requires AllDigits(digits) && (rest == "" || !IsDigit(rest[0]))
    ensures TakeDigits(Before(digits + rest, '.')) == digits
  {
    var all := digits + rest;
    if digits == "" {
      assert all == rest;
    } else {
      assert all[1..] == digits[1..] + rest;
      LeadingDigits(digits[1..], rest);
    }
  }

  predicate AllWhitespace(s: string) {
    forall i | 0 <= i < |s| :: IsWhitespace(s[i])
  }

  lemma {:induction false} TrimStartConcat(blank: string, s: string)
    requires AllWhitespace(blank) && s != "" && !IsWhitespace(s[0])
    ensures TrimStart(blank + s) == s
  {
    if blank == "" {
      assert blank + s == s;
    } else {
      assert (blank + s)[1..] == blank[1..] + s;
      TrimStartConcat(blank[1..], s);
    }
  }

  lemma {:induction false} TrimEndConcat(s: string, tail: string) returns (kept: string)
    requires s != "" && !IsWhitespace(s[|s| - 1])
    ensures TrimEnd(s + tail) == s + kept && kept <= tail
  {
    if tail == "" || !IsWhitespace(tail[|tail| - 1]) {
      kept := tail;
    } else {
      assert (s + tail)[..|s + tail| - 1] == s + tail[..|tail| - 1];
      kept := TrimEndConcat(s, tail[..|tail| - 1]);
    }
  }

  /** What is left of a printed version after trimming. */
  lemma TrimmedVersion(before: string, core: string, suffix: string, after: string) returns (kept: string)
    requires core != "" && !IsWhitespace(core[0]) && !IsWhitespace(core[|core| - 1])
    requires AllWhitespace(before) && AllWhitespace(after)
    requires suffix == "" || !IsDigit(suffix[0])
    ensures Trim(before + (core + suffix) + after) == core + kept
    ensures kept == "" || !IsDigit(kept[0])
  {
    var tail := suffix + after;
    TrimStartConcat(before, core + tail);
    assert before + (core + suffix) + after == before + (core + tail);
    kept := TrimEndConcat(core, tail);
    if kept != "" {
      assert kept[0] == tail[0];
      assert IsWhitespace(tail[0]) || tail[0] == suffix[0];
    }
  }

  lemma ReadsTrimmed(major: nat, minor: nat, kept: string)
    requires kept == "" || !IsDigit(kept[0])
    ensures var text := Decimal(major) + "." + Decimal(minor) + kept;
            && Before(text, '.') == Decimal(major)
            && Beyond(text, '.') == Some(Decimal(minor) + kept)
            && TakeDigits(Before(Decimal(minor) + kept, '.')) == Decimal(minor)
  {
    DecimalReadsBack(major);
    DecimalReadsBack(minor);
    hide Decimal, Value, Before, Beyond, TakeDigits;
    var m, n := Decimal(major), Decimal(minor);
    assert '.' !in m by {
      assert forall i | 0 <= i < |m| :: IsDigit(m[i]);
    }
    BeforeConcat(m, '.', n + kept);
    LeadingDigits(n, kept);
    assert m + "." + n + kept == m + ['.'] + (n + kept);
  }

  lemma DecimalEnds(major: nat, minor: nat)
    ensures var core := Decimal(major) + "." + Decimal(minor);
            core != "" && !IsWhitespace(core[0]) && !IsWhitespace(core[|core| - 1])
  {
    DecimalReadsBack(major);
    DecimalReadsBack(minor);
    var m, n := Decimal(major), Decimal(minor);
    assert IsDigit(m[0]) && IsDigit(n[|n| - 1]);
  }

  /** A printed version, with anything that does not start with a digit after it and blanks around
      it, is read back as the same pair. */
  lemma VersionReadsBack(before: string, major: nat, minor: nat, suffix: string, after: string)
    requires major < U32 && minor < U32
    requires AllWhitespace(before) && AllWhitespace(after)
    requires suffix == "" || !IsDigit(suffix[0])
    ensures ParseKernelVersion(before + (Decimal(major) + "." + Decimal(minor) + suffix) + after)
            == Some((major, minor))
  {
    hide Trim, Before, Beyond, TakeDigits, ParseU32, Decimal, IsWhitespace;
    DecimalEnds(major, minor);
    var kept := TrimmedVersion(before, Decimal(major) + "." + Decimal(minor), suffix, after);
    ReadsTrimmed(major, minor, kept);
    ParsesDecimal(major);
    ParsesDecimal(minor);
  }

  /** On a kernel that prints its version this way and has a working ring, the gate rejects exactly
      the versions below 5.10. */
  lemma GateRejectsOldKernels(before: string, major: nat, minor: nat, suffix: string, after: string)
    requires major < U32 && minor < U32
    requires AllWhitespace(before) && AllWhitespace(after)
    requires suffix == "" || !IsDigit(suffix[0])
    ensures var release := before + (Decimal(major) + "." + Decimal(minor) + suffix) + after;
            IsUringSecureAndSupported(Some(release), true, true, true, true)
            <==> major > 5 || (major == 5 && minor >= 10)
  {
    VersionReadsBack(before, major, minor, suffix, after);
  }

  // --- Exactly which texts close the gate ---

  /** `text`, once trimmed, starts with a version below 5.10: an optional plus sign and digits of a u32,
      a dot, and digits of a u32 that no further digit follows; the two numbers are below (5, 10). */
  ghost predicate StartsWithOldVersion(text: string, plus: string, major: string, minor: string, rest: string) {
    && Trim(text) == plus + major + "." + (minor + rest)
    && plus in {"", "+"} && major != "" && AllDigits(major) && minor != "" && AllDigits(minor)
    && (rest == "" || !IsDigit(rest[0]))
    && Value(major) < U32 && Value(minor) < U32
    && (Value(major) < 5 || (Value(major) == 5 && Value(minor) < 10))
  }

  lemma {:induction false} SplitsAtDot(s: string, c: char)
    ensures c !in Before(s, c)
    ensures Beyond(s, c).Some? ==> s == Before(s, c) + [c] + Beyond(s, c).value
    ensures Beyond(s, c).None? <==> c !in s
  {
    if s != "" && s[0] != c {
      SplitsAtDot(s[1..], c);
      assert s == [s[0]] + s[1..];
    }
  }

  lemma {:induction false} DigitsAndRest(s: string)
    ensures AllDigits(TakeDigits(s)) && |TakeDigits(s)| <= |s| && s == TakeDigits(s) + s[|TakeDigits(s)|..]
    ensures |TakeDigits(s)| == |s| || !IsDigit(s[|TakeDigits(s)|])
    ensures TakeDigits(Before(s, '.')) == TakeDigits(s)
  {
    if s != "" && IsDigit(s[0]) {
      DigitsAndRest(s[1..]);
    }
  }

  /** What str::parse::<u32> accepts. */
  ghost predicate Reads(s: string, plus: string, digits: string) {
    s == plus + digits && plus in {"", "+"} && digits != "" && AllDigits(digits) && Value(digits) < U32
  }

  lemma ParsedReads(s: string) returns (plus: string, digits: string)
    requires ParseU32(s).Some?
    ensures Reads(s, plus, digits) && ParseU32(s) == Some(Value(digits))
  {
    if |s| > 1 && s[0] == '+' {
      plus, digits := "+", s[1..];
    } else {
      plus, digits := "", s;
    }
    assert s == plus + digits;
  }

  lemma ReadsParses(s: string, plus: string, digits: string)
    requires Reads(s, plus, digits)
    ensures ParseU32(s) == Some(Value(digits))
  {
    assert IsDigit(digits[0]);
    if plus == "" {
      assert s == digits;
    } else {
      assert s[1..] == digits;
    }
  }

  lemma OldVersionParses(text: string, plus: string, major: string, minor: string, rest: string)
    requires StartsWithOldVersion(text, plus, major, minor, rest)
    ensures ParseKernelVersion(text) == Some((Value(major), Value(minor)))
  {
    assert '.' !in plus + major by {
      assert forall i | 0 <= i < |major| :: IsDigit(major[i]);
    }
    assert Trim(text) == (plus + major) + ['.'] + (minor + rest);
    BeforeConcat(plus + major, '.', minor + rest);
    LeadingDigits(minor, rest);
    ReadsParses(plus + major, plus, major);
    assert minor == "" + minor;
    ReadsParses(minor, "", minor);
    hide Trim, Before, Beyond, TakeDigits, ParseU32;
  }

  /** The parts a version was read from. */
  lemma ParsedParts(text: string) returns (head: string, tail: string)
    requires ParseKernelVersion(text).Some?
    ensures Trim(text) == head + ['.'] + tail
    ensures ParseU32(head) == Some(ParseKernelVersion(text).value.0)
    ensures ParseU32(TakeDigits(tail)) == Some(ParseKernelVersion(text).value.1)
  {
    var all := Trim(text);
    head, tail := Before(all, '.'), Beyond(all, '.').value;
    SplitsAtDot(all, '.');
    DigitsAndRest(tail);
    hide Trim, Before, Beyond, ParseU32, TakeDigits;
  }

  lemma OldVersionFound(text: string)
    requires ParseKernelVersion(text).Some?
    requires var v := ParseKernelVersion(text).value; v.0 < 5 || (v.0 == 5 && v.1 < 10)
    ensures exists plus, major, minor, rest :: StartsWithOldVersion(text, plus, major, minor, rest)
  {
    hide Trim, Before, Beyond, TakeDigits, ParseU32, ParseKernelVersion;
    var head, tail := ParsedParts(text);
    var plus, major := ParsedReads(head);
    DigitsAndRest(tail);
    var minor := TakeDigits(tail);
    var rest := tail[|minor|..];
    var sign, digits := ParsedReads(minor);
    DigitsFirst(minor, sign, digits);
    Regrouped(plus, major, minor, rest);
    assert StartsWithOldVersion(text, plus, major, minor, rest);
  }

  lemma DigitsFirst(s: string, plus: string, digits: string)
    requires AllDigits(s) && Reads(s, plus, digits)
    ensures plus == "" && s == digits
  {
    assert IsDigit(s[0]);
  }

  lemma Regrouped(plus: string, major: string, minor: string, rest: string)
    ensures (plus + major) + ['.'] + (minor + rest) == plus + major + "." + (minor + rest)
  {
  }

  /** On a kernel with a working ring, the gate closes exactly to release texts that start with a version
      below 5.10, whatever the text. */
  lemma GateClosesIff(text: string)
    ensures !IsUringSecureAndSupported(Some(text), true, true, true, true)
            <==> exists plus, major, minor, rest :: StartsWithOldVersion(text, plus, major, minor, rest)
  {
    hide StartsWithOldVersion;
    if !IsUringSecureAndSupported(Some(text), true, true, true, true) {
      OldVersionFound(text);
    }
    if plus, major, minor, rest :| StartsWithOldVersion(text, plus, major, minor, rest) {
      OldVersionParses(text, plus, major, minor, rest);
      OldVersionIsOld(text, plus, major, minor, rest);
    }
  }

  lemma OldVersionIsOld(text: string, plus: string, major: string, minor: string, rest: string)
    requires StartsWithOldVersion(text, plus, major, minor, rest)
    ensures AllDigits(major) && AllDigits(minor)
    ensures Value(major) < 5 || (Value(major) == 5 && Value(minor) < 10)
  {
  }

  /** So it is open to every text without a dot, though 5.10 is documented as a strict minimum. */
  lemma GateOpenWithoutDot(text: string)
    requires '.' !in text
    ensures IsUringSecureAndSupported(Some(text), true, true, true, true)
  {
    hide StartsWithOldVersion;
    GateClosesIff(text);
    TrimKeeps(text, '.');
    if plus, major, minor, rest :| StartsWithOldVersion(text, plus, major, minor, rest) {
      OldVersionHasDot(text, plus, major, minor, rest);
    }
  }

  /** The text "5" is one of them. */
  lemma GateIgnoresUnreadableRelease()
    ensures IsUringSecureAndSupported(Some("5"), true, true, true, true)
  {
    GateOpenWithoutDot("5");
  }

  lemma OldVersionHasDot(text: string, plus: string, major: string, minor: string, rest: string)
    requires StartsWithOldVersion(text, plus, major, minor, rest)
    ensures '.' in Trim(text)
  {
    assert Trim(text)[|plus + major|] == '.';
  }

  lemma TrimKeeps(s: string, c: char)
    ensures c in Trim(s) ==> c in s
  {
    TrimStartKeeps(s, c);
    TrimEndKeeps(TrimStart(s), c);
  }

  lemma {:induction false} TrimStartKeeps(s: string, c: char)
    ensures c in TrimStart(s) ==> c in s
  {
    if s != "" {
      TrimStartKeeps(s[1..], c);
    }
  }

  lemma {:induction false} TrimEndKeeps(s: string, c: char)
    ensures c in TrimEnd(s) ==> c in s
  {
    if s != "" {
      TrimEndKeeps(s[..|s| - 1], c);
    }
  }

  /** The gate needs all of a working ring, a working probe and both opcodes; given them, it is open when
      the release cannot be read at all, and otherwise as its text says. */
  lemma GateNeedsAll(release: Option<string>, ringWorks: bool, probeWorks: bool, readSupported: bool,
                     writeSupported: bool)
    ensures IsUringSecureAndSupported(release, ringWorks, probeWorks, readSupported, writeSupported)
            <==> ringWorks && probeWorks && readSupported && writeSupported
                 && (release.None? || IsUringSecureAndSupported(release, true, true, true, true))
  {
  }

  // --- PY_NATIVE_IO_RING_SIZE ---

  predicate IsPowerOfTwo(n: nat) {
    n == 1 || (n > 1 && n % 2 == 0 && IsPowerOfTwo(n / 2))
  }

  function ConfiguredRingSize(setting: Option<string>): nat {
    match setting
    case None => 1024
    case Some(text) =>
      match ParseU32(text)
      case None => 1024
      case Some(n) => if n > 0 && IsPowerOfTwo(n) then n else 1024
  }

  function Pow2(k: nat): nat {
    if k == 0 then 1 else 2 * Pow2(k - 1)
  }

  lemma {:induction false} PowerOfTwoIff(n: nat)
    ensures IsPowerOfTwo(n) <==> exists k: nat :: n == Pow2(k)
  {
    if n > 1 {
      PowerOfTwoIff(n / 2);
      if IsPowerOfTwo(n) {
        var k: nat :| n / 2 == Pow2(k);
        assert n == Pow2(k + 1);
      }
      forall k: nat | n == Pow2(k)
        ensures IsPowerOfTwo(n)
      {
        assert k > 0 && n == 2 * Pow2(k - 1);
        assert n / 2 == Pow2(k - 1);
      }
    } else if n == 1 {
      assert n == Pow2(0);
    } else {
      forall k: nat
        ensures Pow2(k) > 0
      {
        Pow2Positive(k);
      }
    }
  }

  lemma {:induction false} Pow2Positive(k: nat)
    ensures Pow2(k) > 0
  {
    if k > 0 {
      Pow2Positive(k - 1);
    }
  }

  /** Whatever the setting, the ring has a positive power of two of entries; a setting is followed
      exactly when it prints such a number. */
  lemma RingSizeIsPowerOfTwo(setting: Option<string>, n: nat)
    requires n < U32
    ensures var size := ConfiguredRingSize(setting);
            1 <= size < U32 && exists k: nat :: size == Pow2(k)
    ensures ConfiguredRingSize(Some(Decimal(n))) == n <==> exists k: nat :: n == Pow2(k)
  {
    hide ParseU32, IsPowerOfTwo, Pow2, Decimal;
    ParsesDecimal(n);
    PowerOfTwoIff(n);
    PowerIsPositive(n);
    DefaultIsPower();
    PowerOfTwoIff(1024);
    if setting.Some? && ParseU32(setting.value).Some? {
      var plus, digits := ParsedReads(setting.value);
      PowerOfTwoIff(Value(digits));
    }
  }

  lemma DefaultIsPower()
    ensures IsPowerOfTwo(1024)
  {
    assert IsPowerOfTwo(32);
  }

  /** The size is 1024 without a setting, and with one that is not a number of a u32 that is a power of
      two; such a number, after an optional plus sign, is followed. */
  lemma RingSizeFollows(text: string)
    ensures ConfiguredRingSize(None) == 1024
    ensures forall plus, digits | Reads(text, plus, digits) && IsPowerOfTwo(Value(digits)) ::
              ConfiguredRingSize(Some(text)) == Value(digits)
    ensures (forall plus, digits | Reads(text, plus, digits) :: !IsPowerOfTwo(Value(digits))) ==>
              ConfiguredRingSize(Some(text)) == 1024
  {
    hide ParseU32, IsPowerOfTwo, Value;
    forall plus, digits | Reads(text, plus, digits) && IsPowerOfTwo(Value(digits))
      ensures ConfiguredRingSize(Some(text)) == Value(digits)
    {
      ReadsParses(text, plus, digits);
      PowerIsPositive(Value(digits));
    }
    if ParseU32(text).Some? {
      var plus, digits := ParsedReads(text);
    }
  }

  lemma PowerIsPositive(n: nat)
    ensures IsPowerOfTwo(n) ==> n > 0
  {
  }
}
