/**
 * The character classes of the URI grammar in Appendix A of RFC 2396, as the
 * `Validator` class of webapp_proto_http.cpp tests them one character at a
 * time, and the per-component alphabets the URI parser builds from them.
 */
module Validator {

  predicate LowAlpha(c: char) { 'a' <= c <= 'z' }
  predicate UpAlpha(c: char) { 'A' <= c <= 'Z' }
  predicate Digit(c: char) { '0' <= c <= '9' }
  predicate Alpha(c: char) { LowAlpha(c) || UpAlpha(c) }
  predicate AlphaNum(c: char) { Alpha(c) || Digit(c) }

  predicate Mark(c: char)
  {
    c == '-' || c == '_' || c == '.' || c == '!' || c == '~' || c == '*' ||
    c == '\'' || c == '(' || c == ')'
  }

  predicate Reserved(c: char)
  {
    c == ';' || c == '/' || c == '?' || c == ':' || c == '@' || c == '&' ||
    c == '=' || c == '+' || c == '$' || c == ','
  }

  predicate Unreserved(c: char) { AlphaNum(c) || Mark(c) }

  /** Not the `"%" hex hex` triple of the RFC: any hex digit or `%` alone. */
  predicate Escaped(c: char)
  {
    ('a' <= c <= 'f') || c == '%' || ('A' <= c <= 'F') || Digit(c)
  }

  predicate PChar(c: char)
  {
    Unreserved(c) || Escaped(c) ||
    c == ':' || c == '@' || c == '&' || c == '=' || c == '+' || c == '$' || c == ','
  }

  predicate PathSegments(c: char) { PChar(c) || c == ';' || c == '/' }

  /** The alphabets the URI parser hands to `Validator`. */
  datatype Alphabet =
    | SchemeChars     // alphanum, '+', '-', '.'
    | UserInfoChars   // unreserved, escaped, ';' ':' '&' '=' '+' '$' ','
    | PortChars       // digits
    | HostChars       // alphanum, '.', '-'
    | SegmentChars    // path segments
    | QueryChars      // pchar, '/', '?'
    | FragmentChars   // reserved, unreserved, escaped

  predicate Accepts(a: Alphabet, c: char)
  {
    match a
    case SchemeChars => AlphaNum(c) || c == '+' || c == '-' || c == '.'
    case UserInfoChars =>
      Unreserved(c) || Escaped(c) || c == ';' || c == ':' || c == '&' ||
      c == '=' || c == '+' || c == '$' || c == ','
    case PortChars => Digit(c)
    case HostChars => AlphaNum(c) || c == '.' || c == '-'
    case SegmentChars => PathSegments(c)
    case QueryChars => PChar(c) || c == '/' || c == '?'
    case FragmentChars => Reserved(c) || Unreserved(c) || Escaped(c)
  }

  /**
   * `Validator(str, handler).Result()`: the handler is asked about each
   * character from the first on, and the answer is true when none is
   * refused; the empty string is valid.
   */
  predicate Valid(s: string, a: Alphabet)
    decreases |s|
  {
    s == [] || (Accepts(a, s[0]) && Valid(s[1..], a))
  }

  /** The validator's answer is "every character is accepted". */
  lemma {:induction false} ValidAll(s: string, a: Alphabet)
    ensures Valid(s, a) <==> forall i :: 0 <= i < |s| ==> Accepts(a, s[i])
    decreases |s|
  {
    if s != [] {
      ValidAll(s[1..], a);
      assert forall i :: 1 <= i < |s| ==> s[i] == s[1..][i - 1];
    }
  }

  /** The first character the validator rejects, if any. */
  function FirstRejected(s: string, a: Alphabet): (r: nat)
    ensures r <= |s|
    ensures r == |s| <==> Valid(s, a)
    ensures r < |s| ==> !Accepts(a, s[r]) && Valid(s[..r], a)
    decreases |s|
  {
    if s == [] then 0
    else if !Accepts(a, s[0]) then 0
    else
      var k := FirstRejected(s[1..], a);
      assert s[..k + 1] == [s[0]] + s[1..][..k];
      assert s[..k + 1][1..] == s[1..][..k];
      k + 1
  }

  lemma {:induction false} ValidConcat(x: string, y: string, a: Alphabet)
    ensures Valid(x + y, a) <==> Valid(x, a) && Valid(y, a)
  {
    ValidAll(x, a);
    ValidAll(y, a);
    ValidAll(x + y, a);
    if Valid(x, a) && Valid(y, a) {
      forall i | 0 <= i < |x + y| ensures Accepts(a, (x + y)[i]) {
        if i >= |x| { assert (x + y)[i] == y[i - |x|]; }
      }
    }
    if Valid(x + y, a) {
      forall i | 0 <= i < |y| ensures Accepts(a, y[i]) {
        assert (x + y)[|x| + i] == y[i];
      }
      forall i | 0 <= i < |x| ensures Accepts(a, x[i]) {
        assert (x + y)[i] == x[i];
      }
    }
  }

  /**
   * How the alphabets nest: port digits are host and scheme characters, host
   * characters are segment characters, a segment character other than `;`
   * is a query character, and the escape characters pass every alphabet
   * that includes `escaped`.
   */
  lemma AlphabetInclusions(c: char)
    ensures Accepts(PortChars, c) ==> Accepts(HostChars, c) && Accepts(SchemeChars, c)
    ensures Accepts(HostChars, c) ==> Accepts(SegmentChars, c)
    ensures Accepts(SegmentChars, c) && c != ';' ==> Accepts(QueryChars, c)
    ensures Escaped(c) ==> forall a: Alphabet :: a != PortChars && a != HostChars && a != SchemeChars ==> Accepts(a, c)
  {
  }
}
