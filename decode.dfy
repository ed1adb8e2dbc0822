/**
 * `ProtocolHTTP::DecodeString`: `%XY` escapes become one byte, other
 * characters are copied, and an escape cut short by the end of the input
 * is dropped.  The two collected characters go through
 * `strtol(hex, 0, 16)` and the result is truncated to a `char`.
 */
module Percent {
  import opened Text

  predicate IsHexDigit(c: char)
  {
    ('0' <= c <= '9') || ('a' <= c <= 'f') || ('A' <= c <= 'F')
  }

  function HexValue(c: char): (v: nat)
    requires IsHexDigit(c)
    ensures v < 16
  {
    if '0' <= c <= '9' then c as int - '0' as int
    else if 'a' <= c <= 'f' then c as int - 'a' as int + 10
    else c as int - 'A' as int + 10
  }

  /** `isspace` in the C locale. */
  predicate IsSpace(c: char)
  {
    c == ' ' || c == '\t' || c == '\n' || c == '\r' || c as int == 11 || c as int == 12
  }

  /**
   * `strtol` with base 16 applied to the two-character string `c1 c2`: an
   * optional leading space or sign, then the longest run of hex digits; no
   * digit at all gives 0.  (A `0x` prefix with nothing after it parses as 0.)
   */
  function Strtol16(c1: char, c2: char): (v: int)
    ensures IsHexDigit(c1) && IsHexDigit(c2) ==> v == 16 * HexValue(c1) + HexValue(c2)
    ensures -15 <= v <= 255
  {
    if IsSpace(c1) || c1 == '+' then (if IsHexDigit(c2) then HexValue(c2) else 0)
    else if c1 == '-' then (if IsHexDigit(c2) then -(HexValue(c2) as int) else 0)
    else if IsHexDigit(c1) then (if IsHexDigit(c2) then 16 * HexValue(c1) + HexValue(c2) else HexValue(c1))
    else 0
  }

  /** `(char)strtol(...)`: the low eight bits, as a byte-valued character. */
  function EscapeByte(c1: char, c2: char): (c: char)
    ensures (c as int) < 256
    ensures IsHexDigit(c1) && IsHexDigit(c2) ==> c as int == 16 * HexValue(c1) + HexValue(c2)
  {
    (Strtol16(c1, c2) % 256) as char
  }

  /** The decoded text of `s` read outside an escape. */
  function Decode(s: string): string
    decreases |s|, 1
  {
    if s == [] then []
    else if s[0] == '%' then DecodeEscape(s[1..])
    else [s[0]] + Decode(s[1..])
  }

  /**
   * The decoded text of `s` read just after a `%`: a further `%` restarts
   * the escape (the collected characters are cleared), two other characters
   * make one byte, and fewer than two before the end are dropped.
   */
  function DecodeEscape(s: string): string
    decreases |s|, 0
  {
    if s == [] then []
    else if s[0] == '%' then DecodeEscape(s[1..])
    else DecodeHalf(s[0], s[1..])
  }

  /** The decoded text of `s` read after `%` and one collected character. */
  function DecodeHalf(c1: char, s: string): string
    decreases |s|, 0
  {
    if s == [] then []
    else if s[0] == '%' then DecodeEscape(s[1..])
    else [EscapeByte(c1, s[0])] + Decode(s[1..])
  }

  /** One character read by the loop, in each state. */
  lemma PendingPercent(inHex: bool, hex: string, rest: string)
    ensures Pending(inHex, hex, ['%'] + rest) == DecodeEscape(rest)
  {
    assert (['%'] + rest)[1..] == rest;
  }

  lemma PendingFirstDigit(c: char, rest: string)
    requires c != '%'
    ensures Pending(true, [], [c] + rest) == DecodeHalf(c, rest)
  {
    assert ([c] + rest)[1..] == rest;
  }

  lemma PendingSecondDigit(c1: char, c: char, rest: string)
    requires c != '%'
    ensures Pending(true, [c1], [c] + rest) == [EscapeByte(c1, c)] + Decode(rest)
  {
    assert ([c] + rest)[1..] == rest;
  }

  lemma PendingPlain(c: char, rest: string)
    requires c != '%'
    ensures Pending(false, [], [c] + rest) == [c] + Decode(rest)
  {
    assert ([c] + rest)[1..] == rest;
  }

  lemma Emit(out: string, c: char, tail: string)
    ensures out + ([c] + tail) == (out + [c]) + tail
  {
  }

  /**
   * The loop of `DecodeString`, with its `in_hex` flag and `hex` buffer.
   * It computes `Decode`.
   */
  method DecodeString(input: string) returns (out: string)
    ensures out == Decode(input)
  {
    out := [];
    var inHex := false;
    var hex: string := [];
    var i := 0;
    while i < |input|
      invariant 0 <= i <= |input|
      invariant !inHex ==> hex == []
      invariant |hex| <= 1
      invariant out + Pending(inHex, hex, input[i..]) == Decode(input)
    {
      var c := input[i];
      var rest := input[i + 1..];
      assert input[i..] == [c] + rest;
      if c == '%' {
        PendingPercent(inHex, hex, rest);
        inHex := true;
        hex := [];
      } else if inHex {
        if hex == [] {
          PendingFirstDigit(c, rest);
          hex := [c];
        } else {
          PendingSecondDigit(hex[0], c, rest);
          Emit(out, EscapeByte(hex[0], c), Decode(rest));
          inHex := false;
          out := out + [EscapeByte(hex[0], c)];
          hex := [];
        }
      } else {
        PendingPlain(c, rest);
        Emit(out, c, Decode(rest));
        out := out + [c];
      }
      i := i + 1;
    }
  }

  /** What the rest of the input decodes to, given the loop's escape state. */
  function Pending(inHex: bool, hex: string, rest: string): string
  {
    if !inHex then Decode(rest)
    else if hex == [] then DecodeEscape(rest)
    else DecodeHalf(hex[0], rest)
  }

  // ---------------------------------------------------------------------------
  // Properties

  lemma {:induction false} DecodeWithoutEscapes(s: string)
    requires forall i :: 0 <= i < |s| ==> s[i] != '%'
    ensures Decode(s) == s
  {
    if s != [] {
      DecodeWithoutEscapes(s[1..]);
    }
  }

  lemma {:induction false} DecodeShrinks(s: string)
    ensures |Decode(s)| <= |s|
    decreases |s|, 1
  {
    if s != [] && s[0] == '%' {
      DecodeEscapeShrinks(s[1..]);
    } else if s != [] {
      DecodeShrinks(s[1..]);
    }
  }

  lemma {:induction false} DecodeEscapeShrinks(s: string)
    ensures |DecodeEscape(s)| <= |s|
    ensures |DecodeHalfOf(s)| <= |s|
    decreases |s|, 0
  {
    if s != [] {
      if s[0] == '%' {
        DecodeEscapeShrinks(s[1..]);
      } else {
        DecodeEscapeShrinks(s[1..]);
        DecodeShrinks(s[1..]);
      }
      DecodeHalfShrinks(s[0], s[1..]);
    }
  }

  function DecodeHalfOf(s: string): string
  {
    if s == [] then [] else DecodeHalf(s[0], s[1..])
  }

  lemma {:induction false} DecodeHalfShrinks(c: char, s: string)
    ensures |DecodeHalf(c, s)| <= |s|
    decreases |s|, 1
  {
    if s != [] {
      if s[0] == '%' {
        DecodeEscapeShrinks(s[1..]);
      } else {
        DecodeShrinks(s[1..]);
      }
    }
  }

  /** Upper-case hex digit, as a percent-encoder would write it. */
  function HexDigit(d: nat): (c: char)
    requires d < 16
    ensures IsHexDigit(c) && HexValue(c) == d
  {
    if d < 10 then ('0' as int + d) as char else ('A' as int + d - 10) as char
  }

  /** Reference encoder: every byte-valued character as `%XY`. */
  function Encode(s: string): (e: string)
    requires forall i :: 0 <= i < |s| ==> s[i] as int < 256
    ensures |e| == 3 * |s|
  {
    if s == [] then []
    else ['%', HexDigit(s[0] as int / 16), HexDigit(s[0] as int % 16)] + Encode(s[1..])
  }

  /** Decoding undoes percent-encoding of any byte string. */
  lemma {:induction false} DecodeEncode(s: string)
    requires forall i :: 0 <= i < |s| ==> s[i] as int < 256
    ensures Decode(Encode(s)) == s
  {
    if s != [] {
      var e := Encode(s);
      var hi := HexDigit(s[0] as int / 16);
      var lo := HexDigit(s[0] as int % 16);
      var tail := Encode(s[1..]);
      assert e[1..] == [hi, lo] + tail;
      assert e[1..][1..] == [lo] + tail;
      assert e[1..][1..][1..] == tail;
      assert hi != '%' && lo != '%';
      assert EscapeByte(hi, lo) == s[0];
      calc {
        Decode(e);
        DecodeEscape(e[1..]);
        DecodeHalf(hi, e[1..][1..]);
        [EscapeByte(hi, lo)] + Decode(tail);
      }
      DecodeEncode(s[1..]);
    }
  }
}
