/** Version identifiers. A version is either the `"null"` slot, used for
    every write made while versioning is off or suspended, or a 128-bit UUID
    drawn when versioning is enabled. Requests and listings carry UUIDs in
    their canonical text form: 32 hexadecimal digits grouped 8-4-4-4-12 by
    hyphens. */
module VersionIds {
  import opened Wrappers

  /** 16^k. */
  function Pow16(k: nat): (r: nat)
    ensures r > 0
  {
    if k == 0 then 1 else 16 * Pow16(k - 1)
  }

  /** UUIDs are 128-bit numbers: 32 hexadecimal digits. */
  const UuidDigitCount: nat := 32

  type Uuid = n: nat | n < Pow16(UuidDigitCount)

  datatype VersionId = Null | Uid(value: Uuid)

  // ---------------------------------------------------------------------
  // Hexadecimal digits

  /** A digit Python's `int(_, 16)` accepts, in either case. */
  predicate IsHexDigit(c: char) {
    ('0' <= c <= '9') || ('a' <= c <= 'f') || ('A' <= c <= 'F')
  }

  /** A digit as `str(uuid)` writes it: lower case. */
  predicate IsLowerHexDigit(c: char) {
    ('0' <= c <= '9') || ('a' <= c <= 'f')
  }

  predicate AllHex(s: string) {
    forall i :: 0 <= i < |s| ==> IsHexDigit(s[i])
  }

  predicate AllLowerHex(s: string) {
    forall i :: 0 <= i < |s| ==> IsLowerHexDigit(s[i])
  }

  function DigitValue(c: char): (d: nat)
    requires IsHexDigit(c)
    ensures d < 16
  {
    if '0' <= c <= '9' then c as int - '0' as int
    else if 'a' <= c <= 'f' then c as int - 'a' as int + 10
    else c as int - 'A' as int + 10
  }

  function DigitChar(d: nat): (c: char)
    requires d < 16
    ensures IsLowerHexDigit(c)
    ensures DigitValue(c) == d
  {
    if d < 10 then ('0' as int + d) as char else ('a' as int + d - 10) as char
  }

  /** A digit in lower case; lower-casing keeps its value. */
  function LowerDigit(c: char): (l: char)
    requires IsHexDigit(c)
    ensures IsLowerHexDigit(l) && DigitValue(l) == DigitValue(c)
    ensures IsLowerHexDigit(c) ==> l == c
  {
    if 'A' <= c <= 'F' then (c as int - 'A' as int + 'a' as int) as char else c
  }

  /** A string of hexadecimal digits in lower case. */
  function LowerDigits(s: string): (t: string)
    requires AllHex(s)
    ensures |t| == |s| && AllLowerHex(t)
    ensures AllLowerHex(s) ==> t == s
  {
    if |s| == 0 then ""
    else
      assert AllHex(s[..|s| - 1]);
      var t := LowerDigits(s[..|s| - 1]) + [LowerDigit(s[|s| - 1])];
      assert AllLowerHex(s) ==> s == s[..|s| - 1] + [s[|s| - 1]];
      t
  }

  /** Writing out a digit's value gives the digit in lower case. */
  lemma DigitCharOfValue(c: char)
    requires IsHexDigit(c)
    ensures DigitChar(DigitValue(c)) == LowerDigit(c)
  {
  }

  /** The number a string of hexadecimal digits denotes, most significant
      digit first. */
  function HexValue(s: string): (n: nat)
    requires AllHex(s)
    ensures n < Pow16(|s|)
  {
    if |s| == 0 then 0
    else
      var high := HexValue(s[..|s| - 1]);
      var low := DigitValue(s[|s| - 1]);
      assert high * 16 + low < Pow16(|s|) by {
        assert high <= Pow16(|s| - 1) - 1;
        assert high * 16 <= Pow16(|s| - 1) * 16 - 16;
      }
      high * 16 + low
  }

  /** `n` written with exactly `k` lower-case hexadecimal digits, zero-padded
      on the left. */
  function ToHex(n: nat, k: nat): (s: string)
    requires n < Pow16(k)
    ensures |s| == k && AllLowerHex(s) && AllHex(s)
  {
    if k == 0 then ""
    else
      assert n / 16 < Pow16(k - 1);
      ToHex(n / 16, k - 1) + [DigitChar(n % 16)]
  }

  /** Writing a number in hex and reading it back gives the number. */
  lemma {:induction false} HexValueOfToHex(n: nat, k: nat)
    requires n < Pow16(k)
    ensures HexValue(ToHex(n, k)) == n
  {
    if k > 0 {
      var s := ToHex(n, k);
      assert n / 16 < Pow16(k - 1);
      assert s[..k - 1] == ToHex(n / 16, k - 1);
      HexValueOfToHex(n / 16, k - 1);
    }
  }

  /** Euclidean division undoes `high * 16 + low`. */
  lemma DivideByBase(high: nat, low: nat)
    requires low < 16
    ensures (high * 16 + low) / 16 == high
    ensures (high * 16 + low) % 16 == low
  {
  }

  /** Reading hex digits of either case and writing the number back with
      as many digits gives the same digits in lower case. */
  lemma {:induction false} ToHexOfHexValue(s: string)
    requires AllHex(s)
    ensures ToHex(HexValue(s), |s|) == LowerDigits(s)
  {
    if |s| > 0 {
      var init := s[..|s| - 1];
      var last := s[|s| - 1];
      assert AllHex(init);
      ToHexOfHexValue(init);
      assert HexValue(s) == HexValue(init) * 16 + DigitValue(last);
      ToHexOfNextDigit(HexValue(init), DigitValue(last), |init|);
      DigitCharOfValue(last);
    }
  }

  /** Appending a digit to a number's hex text appends it in lower case. */
  lemma ToHexOfNextDigit(high: nat, low: nat, k: nat)
    requires high < Pow16(k) && low < 16
    ensures high * 16 + low < Pow16(k + 1)
    ensures ToHex(high * 16 + low, k + 1) == ToHex(high, k) + [DigitChar(low)]
  {
    assert high * 16 + low < Pow16(k + 1) by {
      assert high * 16 <= Pow16(k) * 16 - 16;
    }
    DivideByBase(high, low);
  }

  // ---------------------------------------------------------------------
  // UUID text

  /** 36 characters: hyphens at 8, 13, 18 and 23, hex digits elsewhere. */
  predicate IsUuidText(s: string) {
    && |s| == 36
    && s[8] == '-' && s[13] == '-' && s[18] == '-' && s[23] == '-'
    && AllHex(UuidDigits(s))
  }

  /** The 32 digits of a UUID text, hyphens dropped. */
  function UuidDigits(s: string): string
    requires |s| == 36
  {
    s[..8] + s[9..13] + s[14..18] + s[19..23] + s[24..]
  }

  /** `UUID(s)` for canonical text; `None` where Python raises `ValueError`. */
  function ParseUuid(s: string): (r: Option<Uuid>)
    ensures r.Some? <==> IsUuidText(s)
    ensures r.Some? ==> ToHex(r.value, UuidDigitCount) == LowerDigits(UuidDigits(s))
  {
    if IsUuidText(s) then
      ToHexOfHexValue(UuidDigits(s));
      Some(HexValue(UuidDigits(s)))
    else None
  }

  /** 32 digits in 8-4-4-4-12 groups joined by hyphens. */
  function Hyphenate(h: string): (s: string)
    requires |h| == UuidDigitCount
    ensures |s| == 36
  {
    h[..8] + "-" + h[8..12] + "-" + h[12..16] + "-" + h[16..20] + "-" + h[20..]
  }

  /** Hyphenating digits and dropping the hyphens again gives the digits. */
  lemma DigitsOfHyphenated(h: string)
    requires |h| == UuidDigitCount
    ensures var s := Hyphenate(h);
      s[8] == '-' && s[13] == '-' && s[18] == '-' && s[23] == '-' && UuidDigits(s) == h
  {
    var s := Hyphenate(h);
    assert s[..8] == h[..8];
    assert s[9..13] == h[8..12];
    assert s[14..18] == h[12..16];
    assert s[19..23] == h[16..20];
    assert s[24..] == h[20..];
  }

  /** Text with hyphens in the four group positions is the hyphenation of
      its digits. */
  lemma HyphenatedDigits(s: string)
    requires |s| == 36 && s[8] == '-' && s[13] == '-' && s[18] == '-' && s[23] == '-'
    ensures Hyphenate(UuidDigits(s)) == s
  {
    var d := UuidDigits(s);
    assert d[..8] == s[..8];
    assert d[8..12] == s[9..13];
    assert d[12..16] == s[14..18];
    assert d[16..20] == s[19..23];
    assert d[20..] == s[24..];
    assert s == s[..8] + "-" + s[9..13] + "-" + s[14..18] + "-" + s[19..23] + "-" + s[24..];
  }

  /** `str(uuid)`: lower-case digits in 8-4-4-4-12 groups. */
  function FormatUuid(n: Uuid): (s: string)
    ensures |s| == 36
  {
    Hyphenate(ToHex(n, UuidDigitCount))
  }

  /** Every UUID, once written out, parses back to itself. */
  lemma ParseFormattedUuid(n: Uuid)
    ensures IsUuidText(FormatUuid(n))
    ensures ParseUuid(FormatUuid(n)) == Some(n)
  {
    DigitsOfHyphenated(ToHex(n, UuidDigitCount));
    HexValueOfToHex(n, UuidDigitCount);
  }

  /** Formatting a parsed UUID text writes its digits in lower case, so a
      lower-case text comes back unchanged. */
  lemma FormatParsedUuid(s: string)
    requires IsUuidText(s)
    ensures FormatUuid(ParseUuid(s).value) == Hyphenate(LowerDigits(UuidDigits(s)))
    ensures AllLowerHex(UuidDigits(s)) ==> FormatUuid(ParseUuid(s).value) == s
  {
    if AllLowerHex(UuidDigits(s)) {
      HyphenatedDigits(s);
    }
  }

  /** The `version_id` property: `None` for the `"null"` slot, the UUID text
      otherwise. */
  function VersionIdText(v: VersionId): (t: Option<string>)
    ensures t.None? <==> v.Null?
    ensures t.Some? ==> IsUuidText(t.value) && ParseUuid(t.value) == Some(v.value)
  {
    match v
    case Null => None
    case Uid(n) =>
      ParseFormattedUuid(n);
      Some(FormatUuid(n))
  }
}
