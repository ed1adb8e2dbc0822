/**
 * Response assembly of webapp_proto_http.cpp: the pull-based byte sources,
 * the response header text (`SetupHeader`), the `Response` object and the
 * `GetResponse` pump that hands out the header bytes, then the body bytes.
 *
 * An `Outgoing` value is what a response will still send: the status, the
 * header, and the bytes left in its header and body sources.  Every method
 * of the in-place `Response` class is proved against a function on views,
 * and what the protocol promises is proved about those functions.
 */
module HttpResponse {
  import opened Text
  import opened HttpTables
  import opened HttpHeader

  /** The bytes of a `std::string`: each character is one byte. */
  function FromChars(s: string): (bs: seq<Byte>)
    ensures |bs| == |s|
    ensures forall i :: 0 <= i < |s| ==> bs[i] == (s[i] as int) % 256
  {
    seq(|s|, i requires 0 <= i < |s| => (s[i] as int) % 256)
  }

  lemma FromCharsAppend(a: string, b: string)
    ensures FromChars(a + b) == FromChars(a) + FromChars(b)
  {
  }

  /** Bytes read as characters and written back are the same bytes. */
  lemma FromCharsToChars(bs: seq<Byte>)
    ensures FromChars(ToChars(bs)) == bs
  {
  }

  // ---------------------------------------------------------------------------
  // Byte sources

  /**
   * `SourceFromArray`, and `SourceFromStream` over a string, which behaves
   * the same: the data, and how far it has been read.
   */
  class Source {
    const data: seq<Byte>
    var offset: nat

    ghost predicate Valid()
      reads this
    {
      offset <= |data|
    }

    constructor (d: seq<Byte>)
      ensures Valid() && data == d && offset == 0
    {
      data := d;
      offset := 0;
    }

    /** `IsAvailable`: bytes are left. */
    predicate IsAvailable()
      reads this
    {
      offset < |data|
    }

    /** The bytes not read yet. */
    function Remaining(): (r: seq<Byte>)
      reads this
      requires Valid()
      ensures |r| == 0 <==> !IsAvailable()
    {
      data[offset..]
    }

    /** `ReadSome`: the next `min(max, left)` bytes. */
    method ReadSome(max: nat) returns (out: seq<Byte>)
      requires Valid()
      modifies this
      ensures Valid()
      ensures out == old(Remaining())[..Take(old(Remaining()), max)]
      ensures Remaining() == old(Remaining())[Take(old(Remaining()), max)..]
    {
      var k := if |data| - offset > max then max else |data| - offset;
      out := data[offset..offset + k];
      offset := offset + k;
    }
  }

  /** How many bytes a read of at most `max` takes from `rem`. */
  function Take(rem: seq<Byte>, max: nat): (k: nat)
    ensures k <= |rem| && k <= max
    ensures k == max || k == |rem|
  {
    if |rem| > max then max else |rem|
  }

  // ---------------------------------------------------------------------------
  // Headers

  /** `Response::GetHeaderForText`: text/html and utf-8 unless given; expires in an hour. */
  function HeaderForText(format: string, charset: string, now: int): (h: Header)
    ensures h.content.ctype.name == TextType
    ensures h.content.ctype.subType == (if format == "" then "html" else format)
    ensures h.content.ctype.charset == (if charset == "" then "utf-8" else charset)
    ensures h.expires == now + 1 && h.content.length == 0
  {
    var t := ContentType(TextType, if format == "" then "html" else format, "",
                         if charset == "" then "utf-8" else charset);
    DefaultHeader(now).(content := DefaultHeader(now).content.(ctype := t), expires := now + 1)
  }

  /** `Response::GetHeaderForImage`: image/<format>, or application/octet-stream for no format. */
  function HeaderForImage(format: string, now: int): (h: Header)
    ensures format != "" ==> h.content.ctype.name == ImageType && h.content.ctype.subType == format
    ensures format == "" ==> h.content.ctype.name == ApplicationType && h.content.ctype.subType == "octet-stream"
    ensures h.expires == now + 1
  {
    var t := if format != "" then FileType(ImageType, format) else FileType(ApplicationType, "octet-stream");
    DefaultHeader(now).(content := DefaultHeader(now).content.(ctype := t), expires := now + 1)
  }

  /** `Response::GetHeaderForJSON`: application/json, expiring now. */
  function HeaderForJson(now: int): (h: Header)
    ensures h.content.ctype == FileType(ApplicationType, "json") && h.expires == now
  {
    DefaultHeader(now).(content := DefaultHeader(now).content.(ctype := FileType(ApplicationType, "json")))
  }

  const CRLF := "\r\n"

  /**
   * The lines `SetupHeader` writes: status line, Content-Type,
   * Content-Length, Expires, then Cache-Control and ETag when they are
   * set.  `render` is `Expires::ToString`.
   */
  function HeadLines(code: nat, h: Header, render: int -> string): (ls: seq<string>)
    ensures 4 <= |ls| <= 6
    ensures ls[0] == "HTTP/1.1 " + ResponseStatus(code)
    ensures ls[2] == "Content-Length: " + DecimalString(h.content.length)
  {
    ["HTTP/1.1 " + ResponseStatus(code),
     "Content-Type: " + MimeString(h.content.ctype.name) + "/" + h.content.ctype.subType,
     "Content-Length: " + DecimalString(h.content.length),
     "Expires: " + render(h.expires)] +
    (if h.cacheControl != "" then ["Cache-Control: " + h.cacheControl] else []) +
    (if h.etag != "" then ["ETag: " + h.etag] else [])
  }

  /** Each line followed by CRLF. */
  function Lines(ls: seq<string>): string
  {
    if ls == [] then [] else ls[0] + CRLF + Lines(ls[1..])
  }

  /** The header text: its lines, then the blank line. */
  function HeadText(code: nat, h: Header, render: int -> string): (t: string)
  {
    Lines(HeadLines(code, h, render)) + CRLF
  }

  /** The header text starts with the status line and ends with an empty line. */
  lemma HeadTextLayout(code: nat, h: Header, render: int -> string)
    ensures var t := HeadText(code, h, render);
            var s := "HTTP/1.1 " + ResponseStatus(code) + CRLF;
            |s| + 2 <= |t| && t[..|s|] == s && t[|t| - 2..] == CRLF
  {
    var ls := HeadLines(code, h, render);
    assert Lines(ls) == ls[0] + CRLF + Lines(ls[1..]);
  }

  /** The JSON reply of a 32-byte body, line by line. */
  lemma JsonHeadLines(now: int, render: int -> string)
    ensures HeadLines(200, HeaderForJson(now).(content := HeaderForJson(now).content.(length := 32)), render) ==
            ["HTTP/1.1 200 OK", "Content-Type: application/json", "Content-Length: 32", "Expires: " + render(now)]
  {
    var h := HeaderForJson(now).(content := HeaderForJson(now).content.(length := 32));
    DecimalExamples();
    assert ResponseStatus(200) == "200 OK";
    assert h.cacheControl == "" && h.etag == "";
    assert MimeString(h.content.ctype.name) == "application";
    JsonLinesText(render(now));
  }

  lemma DecimalExamples()
    ensures DecimalString(200) == "200" && DecimalString(32) == "32"
  {
    assert DecimalString(2) == "2";
    assert DecimalString(20) == DecimalString(2) + "0";
    assert DecimalString(3) == "3";
  }

  lemma JsonLinesText(expires: string)
    ensures ["HTTP/1.1 " + "200 OK", "Content-Type: " + "application" + "/" + "json",
             "Content-Length: " + "32", "Expires: " + expires] ==
            ["HTTP/1.1 200 OK", "Content-Type: application/json", "Content-Length: 32", "Expires: " + expires]
  {
    assert "HTTP/1.1 " + "200 OK" == "HTTP/1.1 200 OK";
    assert "Content-Type: " + "application" + "/" + "json" == "Content-Type: application/json";
    assert "Content-Length: " + "32" == "Content-Length: 32";
  }


  // ---------------------------------------------------------------------------
  // What a response will send

  /**
   * The observable state of a response: status, header, the bytes left in
   * the header source (none before `SetupHeader`) and in the body source.
   */
  datatype Outgoing = Outgoing(status: nat, header: Header, head: Option<seq<Byte>>, body: Option<seq<Byte>>)

  /** Everything the response will still hand out, header first. */
  function Pending(v: Outgoing, render: int -> string): seq<Byte>
  {
    (if v.head.Some? then v.head.value else FromChars(HeadText(v.status, v.header, render))) +
    (if v.body.Some? then v.body.value else [])
  }

  /** `SetupHeader`: only once; it renders the header and clears Cache-Control. */
  function Setup(v: Outgoing, render: int -> string): (r: (bool, Outgoing))
    ensures r.0 <==> v.head.None?
    ensures r.1.head.Some? && r.1.status == v.status && r.1.body == v.body
    ensures Pending(r.1, render) == Pending(v, render)
  {
    if v.head.Some? then (false, v)
    else (true, v.(head := Some(FromChars(HeadText(v.status, v.header, render))),
                   header := v.header.(cacheControl := "")))
  }

  /** `GetResponse` with room for `max` bytes: header bytes first, then body bytes. */
  function Read(v: Outgoing, max: nat, render: int -> string): (r: (seq<Byte>, Outgoing))
  {
    if max == 0 then ([], v)
    else
      var v1 := Setup(v, render).1;
      var h := v1.head.value;
      if |h| > 0 then (h[..Take(h, max)], v1.(head := Some(h[Take(h, max)..])))
      else if v1.body.None? then ([], v1)
      else
        var b := v1.body.value;
        (b[..Take(b, max)], v1.(body := Some(b[Take(b, max)..])))
  }

  /**
   * Each read takes a prefix of what is pending, of at most `max` bytes,
   * and comes back empty only when nothing is pending: repeated reads hand
   * out the header text, then the body, then nothing.
   */
  lemma ReadDrains(v: Outgoing, max: nat, render: int -> string)
    requires max > 0
    ensures var (out, v2) := Read(v, max, render);
            |out| <= max && out + Pending(v2, render) == Pending(v, render) &&
            (out == [] <==> Pending(v, render) == [])
  {
    var v1 := Setup(v, render).1;
    var h := v1.head.value;
    if |h| > 0 {
      assert h == h[..Take(h, max)] + h[Take(h, max)..];
    } else if v1.body.Some? {
      var b := v1.body.value;
      assert b == b[..Take(b, max)] + b[Take(b, max)..];
    }
  }

  /** Before the first read the header text is pending in full. */
  lemma FirstReadIsHeader(v: Outgoing, max: nat, render: int -> string)
    requires v.head.None? && max > 0
    ensures Read(v, max, render).0 == FromChars(HeadText(v.status, v.header, render))[..Take(FromChars(HeadText(v.status, v.header, render)), max)]
  {
    HeadTextLayout(v.status, v.header, render);
  }

  /** `SetHeader(code, header)`. */
  function WithHeader(v: Outgoing, code: nat, h: Header): Outgoing
  {
    v.(status := code, header := h)
  }

  /**
   * The status and header `SetBody(std::string)` leaves before it sets up
   * the header: a still-404 response becomes 200 text/html; the length is
   * the body's size stored in the 32-bit `USize` Content-Length field.
   */
  function BodyHeader(v: Outgoing, len: nat, now: int): (r: Outgoing)
    ensures v.status == 404 ==> r.status == 200 && r.header.content.ctype == ContentType(TextType, "html", "", "utf-8")
    ensures v.status != 404 ==> r.status == v.status
    ensures r.header.content.length == len % USIZE_MOD
    ensures len < USIZE_MOD ==> r.header.content.length == len
  {
    var v1 := if v.status == 404 then WithHeader(v, 200, HeaderForText("html", "", now)) else v;
    v1.(header := v1.header.(content := v1.header.content.(length := len % USIZE_MOD)))
  }

  /** `SetBody(std::string)`. */
  function WithTextBody(v: Outgoing, src: string, now: int, render: int -> string): Outgoing
  {
    Setup(BodyHeader(v, |src|, now).(body := Some(FromChars(src))), render).1
  }

  /** `SetBody(std::stringstream*)`: a null stream sets no body and keeps the length. */
  function WithStreamBody(v: Outgoing, src: Option<string>, now: int, render: int -> string): Outgoing
  {
    if src.None? then Setup(if v.status == 404 then WithHeader(v, 200, HeaderForText("html", "", now)) else v, render).1
    else WithTextBody(v, src.value, now, render)
  }

  /** A byte array whose size fits the `USize` parameter that carries it. */
  type SizedBytes = data: seq<Byte> | |data| < USIZE_MOD

  /** `SetBody(data, size)`: the status stays as it is. */
  function WithDataBody(v: Outgoing, data: SizedBytes, render: int -> string): Outgoing
  {
    Setup(v.(body := Some(data), header := v.header.(content := v.header.content.(length := |data|))), render).1
  }

  /**
   * A new response given a text body sends 200, a text/html header whose
   * Content-Length is the body's size (modulo 2^32, the width of `USize`),
   * then the body.
   */
  lemma FreshTextBody(now: int, src: string, render: int -> string)
    ensures var v := WithTextBody(Outgoing(404, DefaultHeader(now), None, None), src, now, render);
            var h := HeaderForText("html", "", now).(content := HeaderForText("html", "", now).content.(length := |src| % USIZE_MOD));
            v.status == 200 &&
            Pending(v, render) == FromChars(HeadText(200, h, render)) + FromChars(src)
  {
  }

  /** Once the header is set up, a new status or header no longer changes what is sent. */
  lemma HeaderFixedOnceSetUp(v: Outgoing, code: nat, h: Header, render: int -> string)
    requires v.head.Some?
    ensures Pending(WithHeader(v, code, h), render) == Pending(v, render)
  {
  }

  // ---------------------------------------------------------------------------
  // The response object

  /** What a router handler asks of the response, in order. */
  datatype ResponseCall =
    | SetStatus(code: nat)
    | SetStatusHeader(code: nat, header: Header)
    | SetBodyText(text: string)
    | SetBodyData(data: SizedBytes)

  function AfterCall(v: Outgoing, c: ResponseCall, now: int, render: int -> string): Outgoing
  {
    match c
    case SetStatus(code) => WithHeader(v, code, HeaderForText("", "", now))
    case SetStatusHeader(code, h) => WithHeader(v, code, h)
    case SetBodyText(text) => WithTextBody(v, text, now, render)
    case SetBodyData(data) => WithDataBody(v, data, render)
  }

  function AfterCalls(v: Outgoing, cs: seq<ResponseCall>, now: int, render: int -> string): Outgoing
  {
    if cs == [] then v else AfterCall(AfterCalls(v, cs[..|cs| - 1], now, render), cs[|cs| - 1], now, render)
  }

  /** `ProtocolHTTP::Response`: its `State`, with the two sources, updated in place. */
  class Response {
    var status: nat
    var header: Header
    var srcHeader: Source?
    var srcBody: Source?
    /** `Expires::ToString`, which renders the wall-clock time. */
    const render: int -> string

    ghost predicate Valid()
      reads this, srcHeader, srcBody
    {
      (srcHeader != null ==> srcHeader.Valid()) &&
      (srcBody != null ==> srcBody.Valid()) &&
      (srcHeader == null || srcHeader != srcBody)
    }

    ghost function View(): (v: Outgoing)
      reads this, srcHeader, srcBody
      requires Valid()
    {
      Outgoing(status, header,
                        if srcHeader == null then None else Some(srcHeader.Remaining()),
                        if srcBody == null then None else Some(srcBody.Remaining()))
    }

    /** A new response: 404 with a default header and no sources. */
    constructor (render: int -> string, now: int)
      ensures Valid() && View() == Outgoing(404, DefaultHeader(now), None, None)
      ensures this.render == render
    {
      status := 404;
      header := DefaultHeader(now);
      srcHeader := null;
      srcBody := null;
      this.render := render;
    }

    /** `SetupHeader`. */
    method SetupHeader() returns (ok: bool)
      requires Valid()
      modifies this
      ensures Valid() && srcBody == old(srcBody)
      ensures (ok, View()) == Setup(old(View()), render)
      ensures srcHeader != null && (ok ==> fresh(srcHeader))
    {
      if srcHeader != null {
        return false;
      }
      var text := HeadText(status, header, render);
      srcHeader := new Source(FromChars(text));
      header := header.(cacheControl := "");
      ok := true;
    }

    /** `SetHeader(code)`: the default text header. */
    method SetStatus(code: nat, now: int)
      requires Valid()
      modifies this
      ensures Valid() && View() == WithHeader(old(View()), code, HeaderForText("", "", now))
      ensures srcHeader == old(srcHeader) && srcBody == old(srcBody)
    {
      status := code;
      header := HeaderForText("", "", now);
    }

    /** `SetHeader(code, header)`. */
    method SetHeader(code: nat, h: Header)
      requires Valid()
      modifies this
      ensures Valid() && View() == WithHeader(old(View()), code, h)
      ensures srcHeader == old(srcHeader) && srcBody == old(srcBody)
    {
      status := code;
      header := h;
    }

    /** `SetHeader(type)`: a known file extension sets 200 with that type; anything else changes nothing. */
    method SetHeaderForType(ext: string, now: int)
      requires Valid()
      modifies this
      ensures Valid() && srcHeader == old(srcHeader) && srcBody == old(srcBody)
      ensures ext in FILE_TYPES ==>
                View() == WithHeader(old(View()), 200, DefaultHeader(now).(content := DefaultHeader(now).content.(ctype := FILE_TYPES[ext])))
      ensures ext !in FILE_TYPES ==> View() == old(View())
    {
      if |ext| == 0 {
        return;
      }
      if ext in FILE_TYPES {
        var hd := DefaultHeader(now);
        SetHeader(200, hd.(content := hd.content.(ctype := FILE_TYPES[ext])));
      }
    }

    /** `SetBody(std::string)`. */
    method SetBody(src: string, now: int)
      requires Valid()
      modifies this
      ensures Valid() && View() == WithTextBody(old(View()), src, now, render)
    {
      if status == 404 {
        SetHeader(200, HeaderForText("html", "", now));
      }
      srcBody := new Source(FromChars(src));
      header := header.(content := header.content.(length := |src| % USIZE_MOD));
      var _ := SetupHeader();
    }

    /** `SetBody(std::stringstream*)`; `None` is a null stream. */
    method SetBodyStream(src: Option<string>, now: int)
      requires Valid()
      modifies this
      ensures Valid() && View() == WithStreamBody(old(View()), src, now, render)
    {
      if status == 404 {
        SetHeader(200, HeaderForText("html", "", now));
      }
      if src.Some? {
        srcBody := new Source(FromChars(src.value));
        header := header.(content := header.content.(length := |src.value| % USIZE_MOD));
      }
      var _ := SetupHeader();
    }

    /** `SetBody(data, size)`. */
    method SetBodyData(data: SizedBytes)
      requires Valid()
      modifies this
      ensures Valid() && View() == WithDataBody(old(View()), data, render)
    {
      srcBody := new Source(data);
      header := header.(content := header.content.(length := |data|));
      var _ := SetupHeader();
    }

    /** `ResetState`: a new `State`. */
    method ResetState(now: int)
      modifies this
      ensures Valid() && View() == Outgoing(404, DefaultHeader(now), None, None)
    {
      status := 404;
      header := DefaultHeader(now);
      srcHeader := null;
      srcBody := null;
    }

    /** One call a handler asked for. */
    method Perform(c: ResponseCall, now: int)
      requires Valid()
      modifies this
      ensures Valid() && View() == AfterCall(old(View()), c, now, render)
    {
      match c
      case SetStatus(code) => SetStatus(code, now);
      case SetStatusHeader(code, h) => SetHeader(code, h);
      case SetBodyText(text) => SetBody(text, now);
      case SetBodyData(data) => SetBodyData(data);
    }

    /** The calls a handler asked for, in order. */
    method PerformAll(cs: seq<ResponseCall>, now: int)
      requires Valid()
      modifies this
      ensures Valid() && View() == AfterCalls(old(View()), cs, now, render)
    {
      var i := 0;
      while i < |cs|
        invariant 0 <= i <= |cs| && Valid()
        invariant View() == AfterCalls(old(View()), cs[..i], now, render)
      {
        assert cs[..i + 1][..i] == cs[..i];
        Perform(cs[i], now);
        i := i + 1;
      }
      assert cs[..|cs|] == cs;
    }

    /**
     * `ProtocolHTTP::GetResponse` into a buffer of `max` bytes: sets the
     * header up if needed, then reads the header source while it has
     * bytes, then the body source.
     */
    method GetResponse(max: nat) returns (out: seq<Byte>)
      requires Valid()
      modifies this, srcHeader, srcBody
      ensures Valid()
      ensures (out, View()) == Read(old(View()), max, render)
    {
      if max == 0 {
        return [];
      }
      if srcHeader == null {
        var _ := SetupHeader();
      }
      if srcHeader.IsAvailable() {
        out := srcHeader.ReadSome(max);
        return;
      }
      if srcBody == null || !srcBody.IsAvailable() {
        return [];
      }
      out := srcBody.ReadSome(max);
    }
  }
}
