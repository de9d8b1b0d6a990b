/** The resource-version token: the decimal string form of an unsigned 64-bit
    stream version. Models `ulong.ToString()` (publishing a version),
    `ulong.TryParse` (reading one back) and `string.IsNullOrWhiteSpace`
    (the guard in front of the parse).

    `TryParse` is a strict parse: one or more ASCII digits, leading zeros
    allowed, value at most 2^64 - 1. The surrounding white space and the
    sign character that .NET's default number style also accepts are not
    modelled. */
module VersionToken {
  import opened Wrappers

  /** Largest value of a C# `ulong`, 2^64 - 1. */
  const MaxULong: int := 18446744073709551615

  /** A C# `ulong`. */
  type ULong = x: int | 0 <= x <= MaxULong

  predicate IsDigit(c: char) {
    '0' <= c <= '9'
  }

  function DigitValue(c: char): (d: nat)
    requires IsDigit(c)
    ensures d < 10
  {
    c as int - '0' as int
  }

  function DigitChar(d: nat): (c: char)
    requires d < 10
    ensures IsDigit(c) && DigitValue(c) == d
  {
    (d + '0' as int) as char
  }

  predicate AllDigits(s: string) {
    forall k :: 0 <= k < |s| ==> IsDigit(s[k])
  }

  /** A non-empty run of decimal digits. */
  predicate IsDecimal(s: string) {
    |s| > 0 && AllDigits(s)
  }

  /** The shortest decimal spelling: no leading zero except in "0" itself. */
  predicate IsCanonicalDecimal(s: string) {
    IsDecimal(s) && (|s| > 1 ==> s[0] != '0')
  }

  /** Reference meaning of a digit string: its value read in base ten,
      most significant digit first. */
  function DecimalValue(s: string): nat
    requires AllDigits(s)
  {
    if |s| == 0 then 0
    else 10 * DecimalValue(s[..|s| - 1]) + DigitValue(s[|s| - 1])
  }

  /** `ulong.ToString()`: the canonical decimal spelling of `n`. */
  function Format(n: nat): (s: string)
    ensures IsCanonicalDecimal(s)
    ensures DecimalValue(s) == n
  {
    if n < 10 then [DigitChar(n)]
    else
      var prefix := Format(n / 10);
      var s := prefix + [DigitChar(n % 10)];
      assert s[..|s| - 1] == prefix;
      s
  }

  /** Left-to-right accumulation of the digits of `s` from index `i` on, the
      value read so far being `acc`; gives up at the first non-digit and as
      soon as the value read so far leaves the `ulong` range. */
  function ParseDigits(s: string, i: nat, acc: ULong): Option<ULong>
    requires i <= |s|
    decreases |s| - i
  {
    if i == |s| then Some(acc)
    else if !IsDigit(s[i]) then None
    else
      var next := 10 * acc + DigitValue(s[i]);
      if next > MaxULong then None else ParseDigits(s, i + 1, next)
  }

  /** `ulong.TryParse` under the strict decimal style: succeeds exactly on a
      non-empty digit string whose value fits in a `ulong`, and then yields
      that value. */
  function TryParse(s: string): (r: Option<ULong>)
    ensures r.Some? <==> IsDecimal(s) && DecimalValue(s) <= MaxULong
    ensures r.Some? ==> r.value == DecimalValue(s)
  {
    if |s| == 0 then None
    else
      assert s[..0] == [];
      ParseDigitsMeaning(s, 0, 0);
      ParseDigits(s, 0, 0)
  }

  /** `char.IsWhiteSpace`: the Unicode space separators, line and paragraph
      separators, and the control characters U+0009 to U+000D and U+0085. */
  predicate IsWhiteSpace(c: char) {
    var n := c as int;
    (0x09 <= n <= 0x0D) || n == 0x20 || n == 0x85 || n == 0xA0 || n == 0x1680
    || (0x2000 <= n <= 0x200A) || n == 0x2028 || n == 0x2029 || n == 0x202F
    || n == 0x205F || n == 0x3000
  }

  /** `string.IsNullOrWhiteSpace`. */
  predicate IsNullOrWhiteSpace(s: Option<string>) {
    s.None? || forall k :: 0 <= k < |s.value| ==> IsWhiteSpace(s.value[k])
  }

  /** A digit-string prefix never reads larger than the whole string. */
  lemma {:induction false} PrefixValueAtMost(s: string, j: nat)
    requires AllDigits(s)
    requires j <= |s|
    ensures DecimalValue(s[..j]) <= DecimalValue(s)
    decreases |s|
  {
    if j < |s| {
      var t := s[..|s| - 1];
      assert t[..j] == s[..j];
      PrefixValueAtMost(t, j);
    } else {
      assert s[..j] == s;
    }
  }

  /** The accumulator of `ParseDigits` agrees with the reference meaning of
      the whole string: the early overflow exit fires exactly when the whole
      value is out of range. */
  lemma {:induction false} ParseDigitsMeaning(s: string, i: nat, acc: ULong)
    requires i <= |s|
    requires AllDigits(s[..i]) && acc == DecimalValue(s[..i])
    ensures ParseDigits(s, i, acc) ==
      if AllDigits(s) && DecimalValue(s) <= MaxULong then Some(DecimalValue(s)) else None
    decreases |s| - i
  {
    if i == |s| {
      assert s[..i] == s;
    } else if IsDigit(s[i]) {
      var p := s[..i + 1];
      assert p[..i] == s[..i];
      assert AllDigits(p);
      var next := 10 * acc + DigitValue(s[i]);
      assert next == DecimalValue(p);
      if next > MaxULong {
        if AllDigits(s) {
          PrefixValueAtMost(s, i + 1);
        }
      } else {
        ParseDigitsMeaning(s, i + 1, next);
      }
    }
  }

  /** Publishing a version and reading the token back yields the same version. */
  lemma FormatThenParse(v: ULong)
    ensures TryParse(Format(v)) == Some(v)
  {
  }

  /** A digit string that parses and has no redundant leading zero is exactly
      what `Format` prints for its value: the canonical spelling is unique. */
  lemma {:induction false} ParseThenFormat(s: string)
    requires IsCanonicalDecimal(s)
    ensures Format(DecimalValue(s)) == s
    decreases |s|
  {
    var v := DecimalValue(s);
    if |s| == 1 {
      assert s[..|s| - 1] == [];
      assert DecimalValue(s[..|s| - 1]) == 0;
      assert v == DigitValue(s[0]);
      assert s == [DigitChar(v)];
    } else {
      var t := s[..|s| - 1];
      assert t[0] == s[0];
      assert IsCanonicalDecimal(t);
      ParseThenFormat(t);
      assert t[..1] == s[..1];
      PrefixValueAtMost(t, 1);
      assert s[..1][..0] == [];
      assert DecimalValue(s[..1]) == DigitValue(s[0]) >= 1;
      assert v >= 10;
      assert v / 10 == DecimalValue(t) && v % 10 == DigitValue(s[|s| - 1]);
      assert s == t + [DigitChar(v % 10)];
    }
  }

  /** A white-space token, or one with any character other than an ASCII
      digit, never parses. */
  lemma NonDigitNeverParses(s: string, k: nat)
    requires k < |s| && !IsDigit(s[k])
    ensures TryParse(s) == None
  {
  }

  /** A digit string whose value exceeds 2^64 - 1 never parses. */
  lemma OutOfRangeNeverParses(s: string)
    requires IsDecimal(s) && DecimalValue(s) > MaxULong
    ensures TryParse(s) == None
  {
  }
}
