/**
 * The earlier copy of the engine in webapp_lib.cpp, where it differs from
 * webapp_proto_http.cpp.  Each variant is written next to the current
 * behaviour it departs from, and a lemma says exactly where the two agree
 * and where they part.
 */
module HttpLegacy {
  import opened Text
  import opened Validator
  import opened HttpTables
  import opened HttpUri
  import opened UriPath
  import opened HttpHeader
  import opened HttpRequest
  import opened HttpResponse
  import opened HttpRouter
  import Percent

  // ---------------------------------------------------------------------------
  // Uri::CheckPath: empty segments are kept

  /** The legacy reading of the `/`-separated pieces: an empty piece is valid and kept. */
  function LegacySegments(pieces: seq<string>): (bool, seq<string>)
  {
    if pieces == [] then (true, [])
    else if !Valid(pieces[0], SegmentChars) then (false, [])
    else
      var rest := LegacySegments(pieces[1..]);
      (rest.0, [Percent.Decode(pieces[0])] + rest.1)
  }

  function DropEmpty(pieces: seq<string>): (r: seq<string>)
    ensures forall i :: 0 <= i < |r| ==> r[i] != []
  {
    if pieces == [] then []
    else if pieces[0] == [] then DropEmpty(pieces[1..])
    else [pieces[0]] + DropEmpty(pieces[1..])
  }

  /** The current path reading is the legacy one with the empty pieces taken out first. */
  lemma {:induction false} CurrentDropsEmptyPieces(pieces: seq<string>)
    ensures Segments(pieces) == LegacySegments(DropEmpty(pieces))
  {
    if pieces != [] {
      CurrentDropsEmptyPieces(pieces[1..]);
      if pieces[0] != [] {
        var d := [pieces[0]] + DropEmpty(pieces[1..]);
        assert d[0] == pieces[0] && d[1..] == DropEmpty(pieces[1..]);
      }
    }
  }

  /** When every piece is a valid segment, the legacy path has one decoded segment per piece. */
  lemma {:induction false} LegacyOneSegmentPerPiece(pieces: seq<string>)
    requires forall i :: 0 <= i < |pieces| ==> Valid(pieces[i], SegmentChars)
    ensures LegacySegments(pieces).0
    ensures |LegacySegments(pieces).1| == |pieces|
    ensures forall i :: 0 <= i < |pieces| ==> LegacySegments(pieces).1[i] == Percent.Decode(pieces[i])
  {
    if pieces != [] {
      LegacyOneSegmentPerPiece(pieces[1..]);
    }
  }

  /** The text `CheckPath` cuts into pieces: from after the `/` at `o` to the first `?` or `#`. */
  function PathText(val: string, o: nat): string
    requires o < |val|
  {
    val[o + 1..Pos(PathEnd(val, o), |val|)]
  }

  /**
   * The legacy `CheckPath`: `(ok, path)`.  It walks the same cursor as the
   * current one but validates and pushes every piece, empty ones included.
   */
  function LegacyParsePath(u: Uri, val: string): (r: Throws<(bool, seq<string>)>)
    ensures r.OutOfRange? <==> ParsePath(u, val).OutOfRange?
  {
    if u.offset.None? then Returns((true, []))
    else if u.offset.value >= |val| then OutOfRange
    else if val[u.offset.value] != '/' then Returns((true, []))
    else Returns(LegacySegments(Split(PathText(val, u.offset.value), '/')))
  }

  /**
   * On a path the two copies read the same pieces; the current one reads
   * them as the legacy one reads the pieces that are not empty.
   */
  lemma {:induction false} PathsDifferByEmptySegments(u: Uri, val: string)
    requires u.offset.Some? && u.offset.value < |val| && val[u.offset.value] == '/'
    ensures LegacyParsePath(u, val) == Returns(LegacySegments(Split(PathText(val, u.offset.value), '/')))
    ensures ParsePath(u, val).Returns?
    ensures (ParsePath(u, val).value.ok, ParsePath(u, val).value.uri.path) ==
            LegacySegments(DropEmpty(Split(PathText(val, u.offset.value), '/')))
  {
    var o := u.offset.value;
    PathFromSplit(val, o, PathEnd(val, o));
    CurrentDropsEmptyPieces(Split(PathText(val, o), '/'));
  }

  /** A path of one `/` (as in `http://google.com/`) is one empty segment in the legacy copy and no segment now. */
  lemma {:induction false} RootPathIsOneEmptySegment()
    ensures LegacySegments(Split("", '/')) == (true, [""])
    ensures Segments(Split("", '/')) == (true, [])
  {
    var pieces := Split("", '/');
    assert pieces == [""];
    assert pieces[1..] == [];
    assert Valid(pieces[0], SegmentChars);
    assert Percent.Decode(pieces[0]) == "";
    assert LegacySegments(pieces) == (true, [Percent.Decode(pieces[0])] + []);
    assert Segments(pieces) == Segments([]);
    assert [Percent.Decode(pieces[0])] + [] == [""];
  }

  // ---------------------------------------------------------------------------
  // Uri::CheckAuthority: the port starts at the first ':' anywhere

  /**
   * The legacy part of `CheckAuthority` after the `"//"` at `off`: the
   * optional `userinfo@`, as in the current copy, then the host and port.
   */
  function LegacyUserInfoAndHost(u: Uri, val: string, off: nat): (r: Parsed)
    requires off <= |val|
    ensures r.uri.scheme == u.scheme && r.uri.path == u.path &&
            r.uri.query == u.query && r.uri.fragment == u.fragment
  {
    var atSign := FindFirstOf(val, {'@'}, off);
    if atSign.Some? && !Valid(val[off..atSign.value], UserInfoChars) then
      Parsed(false, u.(offset := Some(off), authority := NoAuthority.(userinfo := val[off..atSign.value])))
    else
      LegacyHostPort(u, val, if atSign.Some? then val[off..atSign.value] else [], HostStart(val, off))
  }

  /** The host start after an optional `userinfo@`. */
  function HostStart(val: string, off: nat): (start: nat)
    requires off <= |val|
    ensures off <= start <= |val|
  {
    var atSign := FindFirstOf(val, {'@'}, off);
    if atSign.Some? then atSign.value + 1 else off
  }

  /**
   * The legacy host and port from `start`.  The port starts at the first
   * `:` after `start` wherever it is, and runs for as many characters as
   * the whole authority; there is no default port.
   */
  function LegacyHostPort(u: Uri, val: string, userinfo: string, start: nat): (r: Parsed)
    requires start <= |val|
  {
    var colon := FindFirstOf(val, {':'}, start);
    var end := FindFirstOf(val, {'/', '?'}, start);
    if colon.Some? then
      var host := val[start..colon.value];
      var port := val[colon.value..PortEnd(val, start, colon.value, end)];
      var a := Authority(userinfo, host, port);
      if !Valid(port, PortChars) then Parsed(false, u.(offset := Some(start), authority := a))
      else Parsed(Valid(host, HostChars), u.(offset := end, authority := a))
    else
      var host := val[start..Pos(end, |val|)];
      Parsed(Valid(host, HostChars), u.(offset := end, authority := Authority(userinfo, host, "")))
  }

  /** `substr(colon, end - start)`: the port's end. */
  function PortEnd(val: string, start: nat, colon: nat, end: Option<nat>): (e: nat)
    requires colon <= |val|
    ensures colon <= e <= |val|
  {
    if end.Some? && end.value >= start && colon + (end.value - start) <= |val| then colon + (end.value - start) else |val|
  }

  /** Any `:` after `start` fails the legacy host and port. */
  lemma {:induction false} HostPortRejectsColon(u: Uri, val: string, userinfo: string, start: nat)
    requires start <= |val| && FindFirstOf(val, {':'}, start).Some?
    ensures !LegacyHostPort(u, val, userinfo, start).ok
  {
    var colon := FindFirstOf(val, {':'}, start).value;
    var end := FindFirstOf(val, {'/', '?'}, start);
    var e := PortEnd(val, start, colon, end);
    if e > colon {
      assert val[colon..e][0] == ':';
    } else {
      assert val[start..colon][0] == val[start];
    }
  }

  /**
   * Any `:` after the host start fails the legacy authority, even one in
   * the path or the query: the port text keeps the `:`, or, when it is
   * empty, the host holds the `/` or `?` that ends it.
   */
  lemma {:induction false} LegacyRejectsAnyColon(u: Uri, val: string, off: nat)
    requires off <= |val| && FindFirstOf(val, {':'}, HostStart(val, off)).Some?
    ensures !LegacyUserInfoAndHost(u, val, off).ok
  {
    var atSign := FindFirstOf(val, {'@'}, off);
    HostPortRejectsColon(u, val, if atSign.Some? then val[off..atSign.value] else [], HostStart(val, off));
  }

  /**
   * Without any `:` after the host start the two copies accept the same
   * authorities and read the same host and cursor; only the port differs
   * (none here, `"80"` in the current copy when a `/` or `?` follows).
   */
  lemma {:induction false} AuthoritiesAgreeWithoutColon(u: Uri, val: string, off: nat)
    requires off <= |val| && FindFirstOf(val, {':'}, HostStart(val, off)).None?
    ensures UserInfoAndHost(u, val, off).value.ok == LegacyUserInfoAndHost(u, val, off).ok
    ensures UserInfoAndHost(u, val, off).value.uri.offset == LegacyUserInfoAndHost(u, val, off).uri.offset
    ensures UserInfoAndHost(u, val, off).value.uri.authority.host == LegacyUserInfoAndHost(u, val, off).uri.authority.host
  {
    var atSign := FindFirstOf(val, {'@'}, off);
    if !(atSign.Some? && !Valid(val[off..atSign.value], UserInfoChars)) {
      var start := HostStart(val, off);
      var userinfo := if atSign.Some? then val[off..atSign.value] else [];
      var cleared := u;
      var end := FindFirstOf(val, {'/', '?'}, start);
      var legacy := LegacyHostPort(u, val, userinfo, start);
      assert LegacyUserInfoAndHost(u, val, off) == legacy;
      if end.Some? {
        var hostPort := val[start..end.value];
        FindInSlice(val, {':'}, start, end.value);
        assert FindFirstOf(hostPort, {':'}, 0).None?;
        assert UpTo(hostPort, None) == hostPort;
        assert Valid("80", PortChars) by {
          assert Accepts(PortChars, '8') && Accepts(PortChars, '0');
        }
        assert UserInfoAndHost(u, val, off) ==
               Returns(Parsed(Valid(hostPort, HostChars), u.(offset := end, authority := Authority(userinfo, hostPort, "80"))));
        assert legacy == Parsed(Valid(hostPort, HostChars), u.(offset := end, authority := Authority(userinfo, hostPort, "")));
      } else {
        assert val[start..Pos(end, |val|)] == val[start..];
      }
    }
  }

  /** `h/a:b`: a colon in the path fails the legacy authority; the current copy accepts host `h`. */
  lemma {:induction false} ColonInPathExample(u: Uri)
    ensures !LegacyUserInfoAndHost(u, "h/a:b", 0).ok
    ensures UserInfoAndHost(u, "h/a:b", 0).value.ok
    ensures UserInfoAndHost(u, "h/a:b", 0).value.uri.authority == Authority("", "h", "80")
  {
    var val := "h/a:b";
    assert FindFirstOf(val, {'@'}, 0).None?;
    assert FindFirstOf(val, {':'}, 0) == Some(3) by {
      FindFirstAt(val, {':'}, 0, 3);
    }
    LegacyRejectsAnyColon(u, val, 0);
    assert FindFirstOf(val, {'/', '?'}, 0) == Some(1) by {
      FindFirstAt(val, {'/', '?'}, 0, 1);
    }
    assert val[0..1] == "h";
    assert FindFirstOf("h", {':'}, 0).None?;
    assert Valid("80", PortChars) by {
      assert Accepts(PortChars, '8') && Accepts(PortChars, '0');
    }
    assert Valid("h", HostChars) by {
      assert Accepts(HostChars, 'h');
    }
  }

  // ---------------------------------------------------------------------------
  // ParseHeaderField: the start-line test looks at the whole line

  /**
   * The legacy `ParseHeaderField`.  A line is a start line when it holds no
   * `:` at all.  `DetectContentDisposition` there ends without a return
   * statement; what it hands back is `dispositionResult`.
   */
  function LegacyHeaderFieldOf(line: string, h: Header, dispositionResult: bool): (r: Throws<(bool, Header)>)
    ensures |line| < 2 ==> r == Returns((true, h))
  {
    if |line| < 2 then Returns((true, h))
    else
      var colon := FindFirstOf(line, {':'}, 0);
      var started := if colon.Some? then Returns((true, h)) else StartLineOf(line, FindFirstOf(line, {' '}, 0), h);
      if started.OutOfRange? || !started.value.0 then started
      else LegacyFieldOf(line, colon, started.value.1, dispositionResult)
  }

  /** The field part of the legacy parser: the current one, with the legacy answer for a disposition. */
  function LegacyFieldOf(line: string, colon: Option<nat>, h: Header, dispositionResult: bool): (r: Throws<(bool, Header)>)
    requires colon.Some? ==> colon.value < |line|
    ensures r.Returns? ==> r.value.1.line == h.line
  {
    match FindFirstNotOf(line, {' '}, 0)
    case None => OutOfRange
    case Some(n) =>
      var name := if colon.Some? && n <= colon.value then line[n..colon.value] else line[n..];
      match TruncateOrThrow(if colon.None? then line else line[colon.value + 1..])
      case OutOfRange => OutOfRange
      case Returns(value) => LegacyApplyField(name, value, h, dispositionResult)
  }

  /** `ParseHeaderField`'s dispatch on the field name, with whatever a disposition line answers. */
  function LegacyApplyField(name: string, value: string, h: Header, dispositionResult: bool): (r: Throws<(bool, Header)>)
    ensures r.OutOfRange? <==> ApplyField(name, value, h).OutOfRange?
    ensures r.Returns? ==> r.value.1 == ApplyField(name, value, h).value.1
    ensures r.Returns? && name != "Content-Disposition" ==> r.value.0 == ApplyField(name, value, h).value.0
    ensures r.Returns? && name == "Content-Disposition" ==> r.value.0 == dispositionResult
  {
    var r := ApplyField(name, value, h);
    if name == "Content-Disposition" && r.Returns? then Returns((dispositionResult, r.value.1)) else r
  }

  /** Where the disposition answers true, as the current copy's does, the field parts agree. */
  lemma {:induction false} FieldPartsAgree(line: string, colon: Option<nat>, h: Header)
    requires colon.Some? ==> colon.value < |line|
    ensures LegacyFieldOf(line, colon, h, true) == FieldOf(line, colon, h)
  {
    match FindFirstNotOf(line, {' '}, 0)
    case None =>
    case Some(n) =>
      var name := if colon.Some? && n <= colon.value then line[n..colon.value] else line[n..];
      var t := TruncateOrThrow(if colon.None? then line else line[colon.value + 1..]);
      if t.Returns? {
        assert LegacyApplyField(name, t.value, h, true) == ApplyField(name, t.value, h);
      }
  }

  /** Where the first `:` of the line lies in its first word, or there is none, both copies agree. */
  lemma {:induction false} FieldParsersAgree(line: string, h: Header)
    requires |line| >= 2
    requires FindFirstOf(line, {':'}, 0) == FindFirstOf(UpTo(line, FindFirstOf(line, {' '}, 0)), {':'}, 0)
    ensures LegacyHeaderFieldOf(line, h, true) == HeaderFieldOf(line, h)
  {
    var space := FindFirstOf(line, {' '}, 0);
    var colon := FindFirstOf(line, {':'}, 0);
    var started := if colon.Some? then Returns((true, h)) else StartLineOf(line, space, h);
    var current := if started.OutOfRange? || !started.value.0 then started else FieldOf(line, colon, started.value.1);
    var legacy := if started.OutOfRange? || !started.value.0 then started else LegacyFieldOf(line, colon, started.value.1, true);
    assert HeaderFieldOf(line, h) == current;
    assert LegacyHeaderFieldOf(line, h, true) == legacy;
    if started.Returns? && started.value.0 {
      FieldPartsAgree(line, colon, started.value.1);
    }
  }

  /**
   * A start line whose target holds a `:` (an absolute URI) is taken by
   * the legacy copy for a header field: the method, target and version are
   * left as they were.
   */
  lemma {:induction false} ColonInTargetSkipsStartLine(line: string, h: Header, dispositionResult: bool)
    requires |line| >= 2
    requires FindFirstOf(line, {':'}, 0).Some?
    requires FindFirstOf(UpTo(line, FindFirstOf(line, {' '}, 0)), {':'}, 0).None?
    ensures LegacyHeaderFieldOf(line, h, dispositionResult).Returns? ==>
              LegacyHeaderFieldOf(line, h, dispositionResult).value.1.line == h.line
    ensures HeaderFieldOf(line, h).Returns? && HeaderFieldOf(line, h).value.0 ==>
              HeaderFieldOf(line, h).value.1.line.httpMethod != Unknown
  {
  }

  // ---------------------------------------------------------------------------
  // Request::Get(name, def)

  /** The legacy `Get(name, def)`: the default only for a missing key. */
  function LegacyGetOr(s: ReqState, name: string, def: string): (v: string)
    ensures name !in s.header.line.target.query ==> v == def
    ensures name in s.header.line.target.query ==> v == s.header.line.target.query[name]
  {
    var q := s.header.line.target.query;
    if name in q then q[name] else def
  }

  /** The two copies differ only on a key that is present with an empty value. */
  lemma {:induction false} GetDiffersOnEmptyValue(s: ReqState, name: string, def: string)
    ensures LegacyGetOr(s, name, def) != GetOr(s, name, def) <==>
              name in s.header.line.target.query && s.header.line.target.query[name] == "" && def != ""
  {
  }

  // ---------------------------------------------------------------------------
  // Response: the header text and SetBody(type, data, size)

  /** The legacy header lines: status, Content-Type, Content-Length and Expires only. */
  function LegacyHeadLines(code: nat, h: Header, render: int -> string): (ls: seq<string>)
  {
    ["HTTP/1.1 " + ResponseStatus(code),
     "Content-Type: " + MimeString(h.content.ctype.name) + "/" + h.content.ctype.subType,
     "Content-Length: " + DecimalString(h.content.length),
     "Expires: " + render(h.expires)]
  }

  /** The legacy lines are the first four current ones, and all of them without Cache-Control and ETag. */
  lemma {:induction false} LegacyHeadIsCurrentPrefix(code: nat, h: Header, render: int -> string)
    ensures LegacyHeadLines(code, h, render) == HeadLines(code, h, render)[..4]
    ensures h.cacheControl == "" && h.etag == "" ==> LegacyHeadLines(code, h, render) == HeadLines(code, h, render)
  {
  }

  /** The legacy `SetupHeader`: only once, with the four-line header. */
  function LegacySetup(v: Outgoing, render: int -> string): (r: (bool, Outgoing))
    ensures r.0 <==> v.head.None?
    ensures r.1.head.Some? && r.1.status == v.status && r.1.body == v.body && r.1.header == v.header
  {
    if v.head.Some? then (false, v)
    else (true, v.(head := Some(FromChars(Lines(LegacyHeadLines(v.status, v.header, render)) + CRLF))))
  }

  /** Without Cache-Control and ETag, the legacy header set-up sends what the current one sends. */
  lemma {:induction false} SetupsAgreeWithoutDirectives(v: Outgoing, render: int -> string)
    requires v.header.cacheControl == "" && v.header.etag == ""
    ensures LegacySetup(v, render) == Setup(v, render)
  {
    LegacyHeadIsCurrentPrefix(v.status, v.header, render);
  }

  /**
   * The legacy `SetBody(type, data, size)`: a still-404 response with a
   * known extension becomes 200 with that file type; then the data is the
   * body, its size the Content-Length, and the header is set up.
   */
  function LegacyWithTypedBody(v: Outgoing, ext: string, data: SizedBytes, now: int, render: int -> string): (r: Outgoing)
  {
    var hd := DefaultHeader(now);
    var v1 := if v.status == 404 && ext in FILE_TYPES then WithHeader(v, 200, hd.(content := hd.content.(ctype := FILE_TYPES[ext]))) else v;
    LegacySetup(v1.(body := Some(data), header := v1.header.(content := v1.header.content.(length := |data|))), render).1
  }

  /** What the legacy typed body sets: status, type, length and body. */
  lemma {:induction false} TypedBodyHeader(v: Outgoing, ext: string, data: SizedBytes, now: int, render: int -> string)
    ensures var r := LegacyWithTypedBody(v, ext, data, now, render);
            r.body.Some? && r.body.value == data && r.header.content.length == |data| &&
            (v.status == 404 && ext in FILE_TYPES ==> r.status == 200 && r.header.content.ctype == FILE_TYPES[ext]) &&
            (!(v.status == 404 && ext in FILE_TYPES) ==> r.status == v.status && r.header.content.ctype == v.header.content.ctype)
  {
  }

  // ---------------------------------------------------------------------------
  // Router: no root URL

  /** The legacy `CallHandlerFor`: the request path alone, with no root URL to fall back to. */
  function LegacyDispatch(n: Node, req: ReqState): Handled
  {
    var path := req.header.line.target.path;
    var (h, k) := Route(n, path);
    if h == null then Handled(false, []) else h.Call(path[k..], req)
  }

  /**
   * The legacy router is the current one built without a root URL, and it
   * agrees with any current router on a request with a non-empty path.
   */
  lemma {:induction false} LegacyIsRootless(n: Node, root: seq<string>, req: ReqState)
    ensures LegacyDispatch(n, req) == Dispatch(n, [], req)
    ensures req.header.line.target.path != [] ==> LegacyDispatch(n, req) == Dispatch(n, root, req)
  {
  }

  /** An empty request path reaches no handler in the legacy router. */
  lemma {:induction false} LegacyEmptyPathRefused(n: Node, req: ReqState)
    requires req.header.line.target.path == []
    ensures LegacyDispatch(n, req) == Handled(false, [])
  {
  }
}
