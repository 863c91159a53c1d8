/** The handful of Python string built-ins the renaming script relies on:
    `str.startswith`, `str.endswith`, `str.removeprefix`, `str.removesuffix`,
    `str.zfill`, `int(...)` on a residue and `str(...)` on a natural number.
    Strings are sequences of characters; `int(...)` is modelled for the
    ASCII-digit case only (see README). */
module PyStrings {

  function Max(a: int, b: int): int { if a < b then b else a }

  /** `s.startswith(prefix)`; every string starts with "". */
  predicate StartsWith(s: string, prefix: string): (b: bool)
    ensures b <==> |prefix| <= |s| && forall i :: 0 <= i < |prefix| ==> s[i] == prefix[i]
  {
    prefix <= s
  }

  /** `s.endswith(suffix)`; every string ends with "". */
  predicate EndsWith(s: string, suffix: string): (b: bool)
    ensures b <==> |suffix| <= |s| && forall i :: 0 <= i < |suffix| ==> s[|s| - |suffix| + i] == suffix[i]
  {
    |suffix| <= |s| && s[|s| - |suffix|..] == suffix
  }

  /** `s.removeprefix(prefix)`: the rest after the prefix, or `s` untouched. */
  function RemovePrefix(s: string, prefix: string): (r: string)
    ensures StartsWith(s, prefix) ==> prefix + r == s
    ensures !StartsWith(s, prefix) ==> r == s
    ensures |r| <= |s|
  {
    if StartsWith(s, prefix) then s[|prefix|..] else s
  }

  /** `s.removesuffix(suffix)`. Python only slices when the suffix is
      non-empty (`s[:-0]` would be ""), so "" leaves `s` untouched. */
  function RemoveSuffix(s: string, suffix: string): (r: string)
    ensures EndsWith(s, suffix) ==> r + suffix == s
    ensures !EndsWith(s, suffix) ==> r == s
    ensures |r| <= |s|
  {
    if |suffix| > 0 && EndsWith(s, suffix) then s[..|s| - |suffix|] else s
  }

  lemma RemovePrefixOfConcat(prefix: string, t: string)
    ensures RemovePrefix(prefix + t, prefix) == t
  {
    assert StartsWith(prefix + t, prefix);
  }

  lemma RemoveSuffixOfConcat(t: string, suffix: string)
    ensures RemoveSuffix(t + suffix, suffix) == t
  {
    assert (t + suffix)[|t + suffix| - |suffix|..] == suffix;
    assert EndsWith(t + suffix, suffix);
  }

  predicate IsDigit(c: char) { '0' <= c <= '9' }

  predicate AllDigits(s: string) {
    forall i :: 0 <= i < |s| ==> IsDigit(s[i])
  }

  /** Whether `int(s)` succeeds, for the inputs this model admits: a
      non-empty run of ASCII digits. */
  predicate ParsesAsInt(s: string): (b: bool)
    ensures b ==> !HasSign(s)
  {
    |s| > 0 && AllDigits(s)
  }

  function DigitValue(c: char): (d: nat)
    requires IsDigit(c)
    ensures d < 10
  {
    c as int - '0' as int
  }

  function DigitChar(d: nat): (c: char)
    requires d < 10
    ensures IsDigit(c) && DigitValue(c) == d
  {
    ('0' as int + d) as char
  }

  /** The number a digit string denotes (the value `int(s)` returns),
      read from the most significant digit; "" denotes 0. */
  function Value(s: string): (v: nat)
    requires AllDigits(s)
    ensures v < Pow10(|s|)
  {
    if s == [] then 0 else 10 * Value(s[..|s| - 1]) + DigitValue(s[|s| - 1])
  }

  function Pow10(n: nat): (p: nat)
    ensures p >= 1
  {
    if n == 0 then 1 else 10 * Pow10(n - 1)
  }

  /** `str(k)` for a natural number `k`: its decimal numeral. */
  function DecimalString(k: nat): (r: string)
    ensures |r| >= 1 && AllDigits(r)
    decreases k
  {
    if k < 10 then [DigitChar(k)] else DecimalString(k / 10) + [DigitChar(k % 10)]
  }

  /** `int(str(k)) == k`, and `str(k)` never has a superfluous leading zero. */
  lemma {:induction false} DecimalStringRoundTrip(k: nat)
    ensures ParsesAsInt(DecimalString(k))
    ensures Value(DecimalString(k)) == k
    ensures DecimalString(k)[0] == '0' ==> k == 0
  {
    if k >= 10 {
      var s := DecimalString(k);
      DecimalStringRoundTrip(k / 10);
      assert s[..|s| - 1] == DecimalString(k / 10);
      assert s[0] == DecimalString(k / 10)[0];
    }
  }

  /** `len(str(k))` is the number of decimal digits of `k`: the least
      `w >= 1` with `k < 10^w`. */
  lemma {:induction false} DecimalStringLength(k: nat)
    ensures |DecimalString(k)| >= 1
    ensures k < Pow10(|DecimalString(k)|)
    ensures |DecimalString(k)| == 1 || Pow10(|DecimalString(k)| - 1) <= k
  {
    if k >= 10 {
      DecimalStringLength(k / 10);
      var w := |DecimalString(k / 10)|;
      assert |DecimalString(k)| == w + 1;
      assert k / 10 < Pow10(w);
      assert k < 10 * Pow10(w);
      if w > 1 {
        assert Pow10(w - 1) <= k / 10;
        assert Pow10(w) == 10 * Pow10(w - 1);
      }
    }
  }

  /** A larger number never has a shorter numeral. */
  lemma {:induction false} DecimalStringLengthMonotone(k: nat, m: nat)
    requires k <= m
    ensures |DecimalString(k)| <= |DecimalString(m)|
    decreases m
  {
    if k >= 10 {
      DecimalStringLengthMonotone(k / 10, m / 10);
    }
  }

  function Zeros(n: nat): (z: string)
    ensures |z| == n
    ensures forall i :: 0 <= i < n ==> z[i] == '0'
  {
    seq(n, _ => '0')
  }

  predicate HasSign(s: string) {
    |s| > 0 && (s[0] == '+' || s[0] == '-')
  }

  /** `s.zfill(width)`: pads on the left with '0' up to `width` characters,
      keeping a leading sign in front; a string at least `width` long is
      returned as it is. */
  function ZFill(s: string, width: int): (r: string)
    ensures |r| == Max(|s|, width)
  {
    if width <= |s| then s
    else if HasSign(s) then [s[0]] + Zeros(width - |s|) + s[1..]
    else Zeros(width - |s|) + s
  }

  /** Padding an unsigned string never truncates it: `s` is kept whole at
      the right end and only '0' characters are added on its left. */
  lemma ZFillOnlyAddsZeros(s: string, width: int)
    requires !HasSign(s)
    ensures |ZFill(s, width)| == Max(|s|, width)
    ensures EndsWith(ZFill(s, width), s)
    ensures forall i :: 0 <= i < |ZFill(s, width)| - |s| ==> ZFill(s, width)[i] == '0'
  {
    var r := ZFill(s, width);
    if width > |s| {
      assert r == Zeros(width - |s|) + s;
      assert r[|r| - |s|..] == s;
    }
  }

  /** With a sign in front, the sign stays first and the zeros go after it. */
  lemma ZFillKeepsSignInFront(s: string, width: int)
    requires HasSign(s) && width > |s|
    ensures ZFill(s, width)[0] == s[0]
    ensures ZFill(s, width)[width - |s| + 1..] == s[1..]
    ensures forall i :: 1 <= i <= width - |s| ==> ZFill(s, width)[i] == '0'
  {
  }

  /** Padding an already wide enough string changes nothing, so padding
      twice is padding once. */
  lemma ZFillIdempotent(s: string, width: int)
    ensures ZFill(ZFill(s, width), width) == ZFill(s, width)
  {
  }

  /** Leading zeros do not change the number a digit string denotes. */
  lemma {:induction false} LeadingZerosKeepValue(n: nat, s: string)
    requires AllDigits(s)
    ensures AllDigits(Zeros(n) + s)
    ensures Value(Zeros(n) + s) == Value(s)
    decreases |s|, n
  {
    var t := Zeros(n) + s;
    if s == [] {
      assert t == Zeros(n);
      if n > 0 {
        assert t[..|t| - 1] == Zeros(n - 1) + [];
        LeadingZerosKeepValue(n - 1, []);
      }
    } else {
      assert t[..|t| - 1] == Zeros(n) + s[..|s| - 1];
      LeadingZerosKeepValue(n, s[..|s| - 1]);
    }
  }

  /** Zero-padding a numeral yields a numeral with the same value: what
      `int(...)` reads back from the padded residue is what it read before. */
  lemma ZFillKeepsValue(d: string, width: int)
    requires ParsesAsInt(d)
    ensures ParsesAsInt(ZFill(d, width))
    ensures Value(ZFill(d, width)) == Value(d)
  {
    if width > |d| {
      LeadingZerosKeepValue(width - |d|, d);
    }
  }
}
