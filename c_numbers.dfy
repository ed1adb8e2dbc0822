/**
 * The C library number parsers the engine calls on header and query text:
 * `strtoul(s, 0, 0)` for Content-Length and `atol` for integer query
 * values, on an LP64 target (`unsigned long` and `long` are 64 bits wide).
 * Locale-specific characters are outside the model: the "C" locale is
 * assumed.
 */
module CNumbers {
  import opened Text

  /** `unsigned long` holds values below 2^64. */
  const ULONG_MOD: int := 0x1_0000_0000_0000_0000
  /** `long` holds values in [-2^63, 2^63). */
  const LONG_MAX: int := 0x7fff_ffff_ffff_ffff
  const LONG_MIN: int := -0x8000_0000_0000_0000

  /** The leading white space `strtoul` and `strtol` skip (`isspace` in the "C" locale). */
  const C_SPACE: set<char> := {' ', '\t', '\n', '\r', 11 as char, 12 as char}

  /** The value of a digit character in bases up to 16, or 16 for any other character. */
  function DigitOf(c: char): (d: nat)
    ensures d <= 16
  {
    if IsDigit(c) then c as int - '0' as int
    else if 'a' <= c <= 'f' then c as int - 'a' as int + 10
    else if 'A' <= c <= 'F' then c as int - 'A' as int + 10
    else 16
  }

  /**
   * The digits of base `base` at the head of `s`, read left to right onto
   * `acc` (`acc * base + digit` for each); the first other character stops
   * the reading.
   */
  function LeadingValue(s: string, base: nat, acc: nat): nat
    requires 2 <= base <= 16
  {
    if s != [] && DigitOf(s[0]) < base then LeadingValue(s[1..], base, acc * base + DigitOf(s[0]))
    else acc
  }

  /** The text after the leading white space. */
  function SkipSpace(s: string): (t: string)
    ensures t == [] || t[0] !in C_SPACE
  {
    match FindFirstNotOf(s, C_SPACE, 0)
    case None => []
    case Some(i) => s[i..]
  }

  /** The text after an optional sign, and whether the sign was `-`. */
  function Unsigned(t: string): (string, bool)
  {
    if t != [] && (t[0] == '+' || t[0] == '-') then (t[1..], t[0] == '-') else (t, false)
  }

  /**
   * `strtoul(s, 0, 0)`: base 16 after `0x` or `0X`, base 8 after a leading
   * `0`, base 10 otherwise.  A value that does not fit is `ULONG_MAX`; a
   * negated value wraps modulo 2^64.
   */
  function Strtoul0(s: string): (v: nat)
    ensures v < ULONG_MOD
  {
    var (u, negative) := Unsigned(SkipSpace(s));
    var magnitude :=
      if |u| >= 2 && u[0] == '0' && (u[1] == 'x' || u[1] == 'X') then LeadingValue(u[2..], 16, 0)
      else if u != [] && u[0] == '0' then LeadingValue(u[1..], 8, 0)
      else LeadingValue(u, 10, 0);
    if magnitude >= ULONG_MOD then ULONG_MOD - 1
    else if negative then (ULONG_MOD - magnitude) % ULONG_MOD
    else magnitude
  }

  /** `atol(s)`, that is `strtol(s, 0, 10)`: out-of-range values clamp to `LONG_MIN`/`LONG_MAX`. */
  function Atol(s: string): (v: int)
    ensures LONG_MIN <= v <= LONG_MAX
  {
    var (u, negative) := Unsigned(SkipSpace(s));
    var magnitude: int := LeadingValue(u, 10, 0);
    if negative then (if -magnitude < LONG_MIN then LONG_MIN else -magnitude)
    else if magnitude > LONG_MAX then LONG_MAX
    else magnitude
  }

  /** A `long` narrowed to a 32-bit `int`: the low 32 bits, read as two's complement. */
  function ToInt32(v: int): (r: int)
    ensures -0x8000_0000 <= r < 0x8000_0000
    ensures -0x8000_0000 <= v < 0x8000_0000 ==> r == v
  {
    var low := v % 0x1_0000_0000;
    if low >= 0x8000_0000 then low - 0x1_0000_0000 else low
  }

  // ---------------------------------------------------------------------------
  // Decimal numerals read back

  /** Reading one more digit multiplies what was read by the base. */
  lemma {:induction false} LeadingValueSnoc(s: string, d: char, acc: nat)
    requires forall i :: 0 <= i < |s| ==> IsDigit(s[i])
    requires IsDigit(d)
    ensures LeadingValue(s + [d], 10, acc) == 10 * LeadingValue(s, 10, acc) + DigitOf(d)
  {
    if s != [] {
      assert (s + [d])[1..] == s[1..] + [d];
      LeadingValueSnoc(s[1..], d, acc * 10 + DigitOf(s[0]));
    }
  }

  /** On a string of decimal digits, left-to-right reading gives `DigitsValue`. */
  lemma {:induction false} LeadingValueOfDigits(s: string)
    requires forall i :: 0 <= i < |s| ==> IsDigit(s[i])
    ensures LeadingValue(s, 10, 0) == DigitsValue(s)
  {
    if s != [] {
      var init := s[..|s| - 1];
      LeadingValueOfDigits(init);
      LeadingValueSnoc(init, s[|s| - 1], 0);
      assert init + [s[|s| - 1]] == s;
    }
  }

  /** A number written in decimal (as `operator<<` writes it) reads back through `strtoul`. */
  lemma StrtoulReadsDecimal(n: nat)
    requires n < ULONG_MOD
    ensures Strtoul0(DecimalString(n)) == n
  {
    var s := DecimalString(n);
    assert FindFirstNotOf(s, C_SPACE, 0) == Some(0);
    assert SkipSpace(s) == s;
    assert Unsigned(s) == (s, false);
    DecimalRoundTrip(n);
    LeadingValueOfDigits(s);
    if n == 0 {
      assert s == "0";
    }
  }

  /** The same for `atol`, on values a `long` holds. */
  lemma AtolReadsDecimal(n: nat)
    requires n <= LONG_MAX
    ensures Atol(DecimalString(n)) == n
  {
    var s := DecimalString(n);
    assert FindFirstNotOf(s, C_SPACE, 0) == Some(0);
    assert SkipSpace(s) == s;
    assert Unsigned(s) == (s, false);
    DecimalRoundTrip(n);
    LeadingValueOfDigits(s);
  }
}
