/**
 * `AbsoluteUri` and `ProtocolHTTP::Uri` of webapp_proto_http.cpp: a request
 * target is parsed in five stages (scheme, authority, path, query,
 * fragment) that share one cursor, `_offset`.  Each stage resets its own
 * part, reads from the cursor and moves it on; `ParseVal` runs the stages
 * as a short-circuit conjunction, so a failing stage leaves the parts of
 * the later stages as the previous parse left them.
 *
 * The parsed object is a value here (the request header embeds it and is
 * copied); each stage maps the old value to the new one.  `None` stands
 * for `std::string::npos`.
 */
module HttpUri {
  import opened Text
  import opened Validator
  import Percent

  datatype Authority = Authority(userinfo: string, host: string, port: string)

  const NoAuthority := Authority("", "", "")

  datatype Uri = Uri(scheme: string, offset: Option<nat>, authority: Authority,
                     path: seq<string>, query: map<string, string>, fragment: string)

  /** A default-constructed `Uri`: everything empty, cursor at 0. */
  const EmptyUri := Uri("", Some(0), NoAuthority, [], map[], "")

  /** A stage's boolean result together with the object after the stage. */
  datatype Parsed = Parsed(ok: bool, uri: Uri)

  /** An index, with `npos` past the end of a string of length `size`. */
  function Pos(p: Option<nat>, size: nat): nat
  {
    if p.None? then size else p.value
  }

  /** A cursor that is `npos` or on a character of a text of length `size`. */
  predicate InRange(p: Option<nat>, size: nat)
  {
    p.None? || p.value < size
  }

  /** `if (stop != npos && off > stop) off = stop;` (`npos` exceeds every index). */
  function Cap(off: Option<nat>, stop: Option<nat>): (r: Option<nat>)
    ensures stop.None? ==> r == off
    ensures stop.Some? ==> r.Some? && r.value <= stop.value
  {
    if stop.Some? && (off.None? || off.value > stop.value) then stop else off
  }

  /** The earlier of two positions, `npos` counting as latest. */
  function Earliest(a: Option<nat>, b: Option<nat>): (r: Option<nat>)
    ensures r == a || r == b
    ensures r.None? <==> a.None? && b.None?
    ensures r.Some? ==> (a.Some? ==> r.value <= a.value) && (b.Some? ==> r.value <= b.value)
  {
    if a.None? then b else if b.None? then a else if a.value <= b.value then a else b
  }

  lemma CapTwice(off: Option<nat>, qm: Option<nat>, ch: Option<nat>)
    ensures Cap(Cap(off, qm), ch) == Cap(off, Earliest(qm, ch))
  {
  }

  // ---------------------------------------------------------------------------
  // Scheme (AbsoluteUri::ParseVal)

  const SCHEME_END: set<char> := {':', '/'}

  /**
   * The scheme is the text before the first `:` or `/`, lower-cased; the
   * cursor moves to that delimiter.  A scheme with a character outside
   * alphanumerics, `+`, `-`, `.` is cleared and the stage fails; an empty
   * scheme is accepted.
   */
  function ParseScheme(u: Uri, val: string): (r: Parsed)
    ensures r.uri == u.(scheme := r.uri.scheme, offset := r.uri.offset)
    ensures r.uri.offset == FindFirstOf(val, SCHEME_END, 0)
    ensures r.ok <==> Valid(UpTo(val, r.uri.offset), SchemeChars)
    ensures r.ok ==> |r.uri.scheme| == |UpTo(val, r.uri.offset)|
    ensures r.ok ==> forall i :: 0 <= i < |r.uri.scheme| ==>
                       !IsUpper(r.uri.scheme[i]) && r.uri.scheme[i] !in SCHEME_END
    ensures !r.ok ==> r.uri.scheme == []
  {
    var delim := FindFirstOf(val, SCHEME_END, 0);
    var raw := UpTo(val, delim);
    var scheme := Lower(raw);
    LowerKeepsScheme(raw);
    if Valid(scheme, SchemeChars) then Parsed(true, u.(scheme := scheme, offset := delim))
    else Parsed(false, u.(scheme := [], offset := delim))
  }

  /** Lower-casing neither makes nor breaks a scheme. */
  lemma LowerKeepsScheme(s: string)
    ensures Valid(Lower(s), SchemeChars) <==> Valid(s, SchemeChars)
  {
    var l := Lower(s);
    ValidAll(s, SchemeChars);
    ValidAll(l, SchemeChars);
    assert forall i :: 0 <= i < |s| ==> (Accepts(SchemeChars, l[i]) <==> Accepts(SchemeChars, s[i]));
  }

  // ---------------------------------------------------------------------------
  // Authority (Uri::CheckAuthority)

  /**
   * Reads `"//" [userinfo "@"] host [":" port]` after the scheme.  The
   * position of the `"//"` is `offset + 1` after a non-empty scheme (where
   * `npos + 1` wraps to 0) and `offset` otherwise; a position past the end
   * throws.  Without `"//"` a leading `/` is a relative reference (success,
   * cursor unchanged) and anything else fails; a lone character left throws
   * from `at(0)` on the empty prefix.
   */
  function AuthorityStart(u: Uri): Option<nat>
  {
    var k := if |u.scheme| > 0 then 1 else 0;
    if u.offset.Some? then Some(u.offset.value + k) else if k == 1 then Some(0) else None
  }

  function ParseAuthority(u: Uri, val: string): (r: Throws<Parsed>)
    ensures r.OutOfRange? <==> AuthorityStart(u).None? || AuthorityStart(u).value >= |val|
    ensures r.Returns? ==> r.value.uri.scheme == u.scheme && r.value.uri.path == u.path &&
                           r.value.uri.query == u.query && r.value.uri.fragment == u.fragment
    ensures InRange(u.offset, |val|) && r.Returns? && r.value.ok ==> InRange(r.value.uri.offset, |val|)
  {
    var p := AuthorityStart(u);
    if p.None? || p.value > |val| then OutOfRange
    else
      var at := p.value;
      var pref := val[at .. if at + 2 <= |val| then at + 2 else |val|];
      var cleared := u.(authority := NoAuthority);
      if pref != "//" then
        if pref == [] then OutOfRange
        else Returns(Parsed(pref[0] == '/', cleared))
      else
        UserInfoAndHost(cleared, val, at + 2)
  }

  /** The part of `CheckAuthority` after the `"//"`, which starts at `off`. */
  function UserInfoAndHost(u: Uri, val: string, off: nat): (r: Throws<Parsed>)
    requires off <= |val|
    ensures r.Returns?
    ensures r.value.uri.scheme == u.scheme && r.value.uri.path == u.path &&
            r.value.uri.query == u.query && r.value.uri.fragment == u.fragment
    ensures r.value.ok ==> InRange(r.value.uri.offset, |val|)
  {
    var atSign := FindFirstOf(val, {'@'}, off);
    if atSign.Some? && !Valid(val[off..atSign.value], UserInfoChars) then
      Returns(Parsed(false, u.(offset := Some(off),
                               authority := NoAuthority.(userinfo := val[off..atSign.value]))))
    else
      var userinfo := if atSign.Some? then val[off..atSign.value] else [];
      var start := if atSign.Some? then atSign.value + 1 else off;
      var end := FindFirstOf(val, {'/', '?'}, start);
      if end.Some? then
        var hostPort := val[start..end.value];
        var colon := FindFirstOf(hostPort, {':'}, 0);
        var host := UpTo(hostPort, colon);
        var port := if colon.Some? then hostPort[colon.value..] else "80";
        var a := Authority(userinfo, host, port);
        if !Valid(port, PortChars) then Returns(Parsed(false, u.(offset := Some(start), authority := a)))
        else Returns(Parsed(Valid(host, HostChars), u.(offset := end, authority := a)))
      else
        Returns(Parsed(Valid(val[start..], HostChars),
                       u.(offset := None, authority := Authority(userinfo, val[start..], ""))))
  }

  /**
   * No explicit port is ever accepted: the port text keeps its `:` and
   * fails the digit check, and without a following `/` or `?` the `:`
   * stays in the host and fails the host check.  A successful authority
   * therefore has the default port `"80"` or none at all, and a host
   * without `:`.
   */
  lemma ExplicitPortRejected(u: Uri, val: string, off: nat)
    requires off <= |val|
    ensures var r := UserInfoAndHost(u, val, off);
            r.value.ok ==> (r.value.uri.authority.port == "80" || r.value.uri.authority.port == "")
                           && ':' !in r.value.uri.authority.host
  {
    var atSign := FindFirstOf(val, {'@'}, off);
    var start := if atSign.Some? then atSign.value + 1 else off;
    var end := FindFirstOf(val, {'/', '?'}, start);
    if end.Some? {
      var hostPort := val[start..end.value];
      var colon := FindFirstOf(hostPort, {':'}, 0);
      if colon.Some? {
        var port := hostPort[colon.value..];
        assert port[0] == ':';
        assert !Valid(port, PortChars);
      } else {
        assert forall i :: 0 <= i < |hostPort| ==> hostPort[i] != ':';
      }
    } else {
      var host := val[start..];
      ValidAll(host, HostChars);
    }
  }

  /**
   * What follows the scheme decides the stage: `"//"` starts an authority,
   * a lone `/` is accepted as a relative reference with the cursor left
   * where it was, and anything else fails.
   */
  lemma AuthorityPrefix(u: Uri, val: string)
    requires u.offset.Some? && u.offset.value + (if |u.scheme| > 0 then 1 else 0) < |val|
    ensures var at := u.offset.value + (if |u.scheme| > 0 then 1 else 0);
            var r := ParseAuthority(u, val);
            r.Returns? &&
            (at + 1 < |val| && val[at] == '/' && val[at + 1] == '/' ==>
               r == UserInfoAndHost(u.(authority := NoAuthority), val, at + 2)) &&
            (!(at + 1 < |val| && val[at + 1] == '/') && val[at] == '/' ==>
               r.value == Parsed(true, u.(authority := NoAuthority))) &&
            (val[at] != '/' ==> !r.value.ok)
  {
    var at := u.offset.value + (if |u.scheme| > 0 then 1 else 0);
    var pref := val[at .. if at + 2 <= |val| then at + 2 else |val|];
    assert pref[0] == val[at];
    if at + 1 < |val| {
      assert pref == [val[at], val[at + 1]];
    } else {
      assert pref == [val[at]];
    }
  }

  // ---------------------------------------------------------------------------
  // Cursor walks shared by CheckPath and CheckQuery

  /**
   * A walk that may continue from the boundary `b`: `b` is on the text and
   * the stop `end` (if any) lies after it and is not itself a separator.
   */
  predicate Walkable(val: string, sep: char, b: nat, end: Option<nat>)
  {
    b < |val| && (end.Some? ==> b < end.value < |val| && val[end.value] != sep)
  }

  /** The boundary after `b`: the next separator, moved back to `end` when it lies beyond. */
  function NextCut(val: string, sep: char, b: nat, end: Option<nat>): Option<nat>
  {
    Cap(FindFirstOf(val, {sep}, b + 1), end)
  }

  /** The text between the boundary `b` and the next one. */
  function Piece(val: string, sep: char, b: nat, end: Option<nat>): string
  {
    var e := Pos(NextCut(val, sep, b, end), |val|);
    if b + 1 <= e <= |val| then val[b + 1..e] else []
  }

  /** One step of a walk moves forward and, short of the stop, stays walkable. */
  lemma NextBoundary(val: string, sep: char, b: nat, end: Option<nat>)
    requires Walkable(val, sep, b, end)
    ensures var next := NextCut(val, sep, b, end);
            b + 1 <= Pos(next, |val|) <= |val| && Piece(val, sep, b, end) == val[b + 1..Pos(next, |val|)] &&
            (next != end ==> next.Some? && b < next.value && Walkable(val, sep, next.value, end) &&
                             val[next.value] == sep) &&
            (next.None? ==> end.None?)
  {
  }

  /** The `sep`-split of the text up to the stop begins with the piece before the next boundary. */
  lemma SplitAtCut(val: string, sep: char, b: nat, end: Option<nat>)
    requires Walkable(val, sep, b, end)
    ensures b + 1 <= Pos(end, |val|) <= |val|
    ensures var e := Pos(end, |val|);
            var next := NextCut(val, sep, b, end);
            Split(val[b + 1..e], sep) ==
              if next == end then [Piece(val, sep, b, end)]
              else [Piece(val, sep, b, end)] + Split(val[next.value + 1..e], sep)
  {
    var e := Pos(end, |val|);
    var f := FindFirstOf(val, {sep}, b + 1);
    NextBoundary(val, sep, b, end);
    SplitSlice(val, sep, b + 1, e);
    if f.Some? && f.value < e {
      assert NextCut(val, sep, b, end) == f;
    } else {
      assert NextCut(val, sep, b, end) == end;
    }
  }

  /** When the next boundary is the stop, the split up to the stop is that one piece. */
  lemma CutIsLast(val: string, sep: char, b: nat, end: Option<nat>)
    requires Walkable(val, sep, b, end) && NextCut(val, sep, b, end) == end
    ensures b + 1 <= Pos(end, |val|) <= |val|
    ensures Split(val[b + 1..Pos(end, |val|)], sep) == [Piece(val, sep, b, end)]
  {
    SplitAtCut(val, sep, b, end);
  }

  /** Short of the stop, the split up to the stop is the piece, then the split from the next boundary. */
  lemma CutIsInner(val: string, sep: char, b: nat, end: Option<nat>)
    requires Walkable(val, sep, b, end) && NextCut(val, sep, b, end) != end
    ensures NextCut(val, sep, b, end).Some?
    ensures var n := NextCut(val, sep, b, end).value;
            b < n && n + 1 <= Pos(end, |val|) <= |val| && Walkable(val, sep, n, end)
    ensures var n := NextCut(val, sep, b, end).value;
            Split(val[b + 1..Pos(end, |val|)], sep) == [Piece(val, sep, b, end)] + Split(val[n + 1..Pos(end, |val|)], sep)
  {
    NextBoundary(val, sep, b, end);
    SplitAtCut(val, sep, b, end);
  }

  // ---------------------------------------------------------------------------
  // Fragment (Uri::CheckFragment)

  /**
   * `CheckFragment`: clears the fragment; when the cursor is on a `#`, the
   * rest of the text must be reserved, unreserved or escape characters and
   * is decoded into the fragment.
   */
  function ParseFragment(u: Uri, val: string): (r: Throws<Parsed>)
    ensures r.OutOfRange? <==> u.offset.Some? && u.offset.value >= |val|
    ensures r.Returns? ==> r.value.uri == u.(fragment := r.value.uri.fragment)
    ensures r.Returns? && u.offset.Some? && val[u.offset.value] == '#' ==>
              (r.value.ok <==> Valid(val[u.offset.value + 1..], FragmentChars)) &&
              (r.value.ok ==> r.value.uri.fragment == Percent.Decode(val[u.offset.value + 1..]))
    ensures r.Returns? && !(u.offset.Some? && val[u.offset.value] == '#') ==>
              r.value == Parsed(true, u.(fragment := []))
  {
    if u.offset.None? then Returns(Parsed(true, u.(fragment := [])))
    else if u.offset.value >= |val| then OutOfRange
    else if val[u.offset.value] != '#' then Returns(Parsed(true, u.(fragment := [])))
    else
      var encoded := val[u.offset.value + 1..];
      if !Valid(encoded, FragmentChars) then Returns(Parsed(false, u.(fragment := [])))
      else Returns(Parsed(true, u.(fragment := Percent.Decode(encoded))))
  }
}
