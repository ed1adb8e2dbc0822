/**
 * The HTTP binding of the component tree (webapp_com_http.cpp): an `Input`
 * that reads a component's cells from the request (the posted field of
 * that name first, then the query parameter), an `Output` that writes
 * what a component publishes as one JSON object, and the router handler
 * at `/webui` that hands each request to the manager.
 */
module ComHttp {
  import opened Text
  import CNumbers
  import opened FieldStorage
  import opened HttpUri
  import opened HttpHeader
  import UriParse
  import opened HttpRequest
  import opened HttpResponse
  import opened HttpRouter
  import opened Components

  // ---------------------------------------------------------------------------
  // Input

  /** `Input::HasCell`: a non-empty query value or a posted field of that name. */
  function HasCell(req: Option<ReqState>, name: string): (r: bool)
    ensures req.None? ==> !r
    ensures req.Some? ==>
              (r <==> name in req.value.fieldsPost ||
                      (name in req.value.header.line.target.query && req.value.header.line.target.query[name] != ""))
  {
    req.Some? && (|Get(req.value, name)| > 0 || Post(req.value, name).Some?)
  }

  /**
   * `GetString` through `ReadValFrom`: a posted field wins over the query;
   * a null posted field leaves the default-constructed empty string.
   */
  function ReadString(req: Option<ReqState>, name: string): (r: string)
    ensures req.None? ==> r == ""
  {
    match req
    case None => ""
    case Some(s) =>
      match Post(s, name)
      case Some(f) => (match FieldText(f) case None => "" case Some(t) => t)
      case None => GetOr(s, name, "")
  }

  /**
   * A cell the input does not have reads as the empty string; one it has
   * only in the query reads as that query value, which is not empty.
   */
  lemma CellPresenceAndString(req: Option<ReqState>, name: string)
    ensures !HasCell(req, name) ==> ReadString(req, name) == ""
    ensures HasCell(req, name) && name !in req.value.fieldsPost ==>
              ReadString(req, name) == req.value.header.line.target.query[name] &&
              ReadString(req, name) != ""
  {
  }

  /**
   * `GetInteger`: the default is the largest `int64_t`; a posted field goes
   * through `atol`.  A null posted field leaves the result variable
   * uninitialised: its value is the parameter `unset`.
   */
  function ReadInteger(req: Option<ReqState>, name: string, unset: int): (r: int)
    ensures req.None? ==> r == CNumbers.LONG_MAX
    ensures r == unset || CNumbers.LONG_MIN <= r <= CNumbers.LONG_MAX
  {
    match req
    case None => CNumbers.LONG_MAX
    case Some(s) =>
      match Post(s, name)
      case Some(f) => (match FieldText(f) case None => unset case Some(t) => CNumbers.Atol(t))
      case None => GetInt64(s, name, CNumbers.LONG_MAX)
  }

  /** `GetBoolean`: the default is false; a value is true when it is exactly `true`. */
  function ReadBoolean(req: Option<ReqState>, name: string, unset: bool): (r: bool)
    ensures req.None? ==> !r
  {
    match req
    case None => false
    case Some(s) =>
      match Post(s, name)
      case Some(f) => (match FieldText(f) case None => unset case Some(t) => t == "true")
      case None => GetBool(s, name, false)
  }

  /** `http::Input` over a request (or none), as the component tree sees it. */
  function HttpInput(req: Option<ReqState>, unsetInt: int, unsetBool: bool): Input
  {
    Input(name => HasCell(req, name), name => ReadInteger(req, name, unsetInt),
          name => ReadBoolean(req, name, unsetBool), name => ReadString(req, name))
  }

  /** A cell the request does not have reads as the defaults. */
  lemma AbsentCellReadsDefaults(req: Option<ReqState>, name: string, unsetInt: int, unsetBool: bool)
    requires !HasCell(req, name)
    ensures ReadString(req, name) == ""
    ensures ReadInteger(req, name, unsetInt) == CNumbers.LONG_MAX
    ensures !ReadBoolean(req, name, unsetBool)
  {
  }

  /** A posted field that holds a value is read from that value, whatever the query says. */
  lemma PostedFieldWins(s: ReqState, name: string, unsetInt: int, unsetBool: bool)
    requires name in s.fieldsPost && FieldText(s.fieldsPost[name]).Some?
    ensures var t := FieldText(s.fieldsPost[name]).value;
            HasCell(Some(s), name) &&
            ReadString(Some(s), name) == t &&
            ReadInteger(Some(s), name, unsetInt) == CNumbers.Atol(t) &&
            (ReadBoolean(Some(s), name, unsetBool) <==> t == "true")
  {
  }

  /** Without a posted field, the query value is read, and an empty one gives the default. */
  lemma QueryValueRead(s: ReqState, name: string, unsetInt: int, unsetBool: bool)
    requires name !in s.fieldsPost
    ensures ReadString(Some(s), name) == Get(s, name)
    ensures Get(s, name) == "" ==> ReadInteger(Some(s), name, unsetInt) == CNumbers.LONG_MAX
    ensures Get(s, name) != "" ==> ReadInteger(Some(s), name, unsetInt) == CNumbers.Atol(Get(s, name))
    ensures ReadBoolean(Some(s), name, unsetBool) <==> Get(s, name) == "true"
  {
  }

  // ---------------------------------------------------------------------------
  // JSON text

  /** What `operator<<` writes for a `long long`. */
  function IntText(v: int): (t: string)
    ensures t != [] && (t[0] == '-' <==> v < 0)
  {
    if v < 0 then "-" + DecimalString(-v) else DecimalString(v)
  }

  /** An integer written by the output reads back through `atol`. */
  lemma IntTextReadsBack(v: int)
    requires CNumbers.LONG_MIN <= v <= CNumbers.LONG_MAX
    ensures CNumbers.Atol(IntText(v)) == v
  {
    if v >= 0 {
      CNumbers.AtolReadsDecimal(v);
    } else {
      var d := DecimalString(-v);
      var t := IntText(v);
      assert t == "-" + d && t[1..] == d;
      assert FindFirstNotOf(t, CNumbers.C_SPACE, 0) == Some(0);
      assert CNumbers.SkipSpace(t) == t;
      assert CNumbers.Unsigned(t) == (d, true);
      DecimalRoundTrip(-v);
      CNumbers.LeadingValueOfDigits(d);
    }
  }

  /**
   * The escaping `Put(String)` does as written: every `"` becomes `\"`,
   * and nothing else changes.
   */
  function QuoteEscape(s: string): (r: string)
    ensures r == [] || r[0] != '"'
  {
    if s == [] then []
    else (if s[0] == '"' then "\\\"" else [s[0]]) + QuoteEscape(s[1..])
  }

  /** The escaping JSON needs: a backslash is escaped as well as a quote. */
  function JsonEscape(s: string): (r: string)
    ensures r == [] || r[0] != '"'
    ensures '\\' !in s ==> r == QuoteEscape(s)
  {
    if s == [] then []
    else (if s[0] == '"' || s[0] == '\\' then ['\\', s[0]] else [s[0]]) + JsonEscape(s[1..])
  }

  /**
   * A JSON reader inside a string literal: the characters up to the
   * closing quote, with `\"` and `\\` read as one character, and the text
   * after that quote.  Other escapes are not modelled and read as none.
   */
  function ReadJsonString(r: string): (res: Option<(string, string)>)
    decreases |r|
  {
    if r == [] then None
    else if r[0] == '"' then Some(([], r[1..]))
    else if r[0] == '\\' then
      if |r| < 2 || (r[1] != '"' && r[1] != '\\') then None
      else
        match ReadJsonString(r[2..])
        case None => None
        case Some(p) => Some(([r[1]] + p.0, p.1))
    else
      match ReadJsonString(r[1..])
      case None => None
      case Some(p) => Some(([r[0]] + p.0, p.1))
  }

  /** A JSON-escaped string literal reads back as the string, and ends at its closing quote. */
  lemma {:induction false} JsonEscapeReadsBack(s: string, tail: string)
    ensures ReadJsonString(JsonEscape(s) + "\"" + tail) == Some((s, tail))
  {
    if s == [] {
      ReadClosingQuote(tail);
    } else {
      JsonEscapeReadsBack(s[1..], tail);
      var head := if s[0] == '"' || s[0] == '\\' then ['\\', s[0]] else [s[0]];
      var rest := JsonEscape(s[1..]) + "\"" + tail;
      Regroup4(head, JsonEscape(s[1..]), "\"", tail);
      if s[0] == '"' || s[0] == '\\' {
        ReadEscapedPair(s[0], rest, s[1..], tail);
      } else {
        ReadPlainChar(s[0], rest, s[1..], tail);
      }
      assert [s[0]] + s[1..] == s;
    }
  }

  lemma ReadClosingQuote(tail: string)
    ensures ReadJsonString(JsonEscape([]) + "\"" + tail) == Some(([], tail))
  {
    assert JsonEscape([]) + "\"" + tail == "\"" + tail;
    assert ("\"" + tail)[1..] == tail;
  }

  lemma ReadEscapedPair(c: char, rest: string, v: string, tail: string)
    requires c == '"' || c == '\\'
    requires ReadJsonString(rest) == Some((v, tail))
    ensures ReadJsonString(['\\', c] + rest) == Some(([c] + v, tail))
  {
    assert (['\\', c] + rest)[2..] == rest;
  }

  lemma ReadPlainChar(c: char, rest: string, v: string, tail: string)
    requires c != '"' && c != '\\'
    requires ReadJsonString(rest) == Some((v, tail))
    ensures ReadJsonString([c] + rest) == Some(([c] + v, tail))
  {
    assert ([c] + rest)[1..] == rest;
  }

  lemma Regroup4(a: string, b: string, c: string, d: string)
    ensures a + b + c + d == a + (b + c + d)
  {
  }

  /** As written, the escaping reads back as long as the string holds no backslash. */
  lemma QuoteEscapeReadsBack(s: string, tail: string)
    requires '\\' !in s
    ensures ReadJsonString(QuoteEscape(s) + "\"" + tail) == Some((s, tail))
  {
    JsonEscapeReadsBack(s, tail);
  }

  /**
   * As written, the value `\"` (a backslash, then a quote) is written as
   * `\\"`: a JSON reader takes `\\` for the backslash and the quote for
   * the end of the string, so the literal ends one character early and
   * the written closing quote is left over.
   */
  lemma BackslashQuoteEndsEarly()
    ensures QuoteEscape("\\\"") == "\\\\\""
    ensures ReadJsonString(QuoteEscape("\\\"") + "\"") == Some(("\\", "\""))
  {
    assert QuoteEscape("\\\"") == "\\" + QuoteEscape("\"");
    assert QuoteEscape("\"") == "\\\"" + QuoteEscape("");
    var r := QuoteEscape("\\\"") + "\"";
    assert r == ['\\', '\\', '"', '"'];
    assert r[2..] == ['"', '"'] && r[2..][1..] == ['"'];
    assert ReadJsonString(r[2..]) == Some(([], ['"']));
    assert r[0] == '\\' && r[1] == '\\' && |r| >= 2;
    var p := ReadJsonString(r[2..]).value;
    assert ReadJsonString(r) == Some(([r[1]] + p.0, p.1));
    assert p == ([], ['"']) && [r[1]] + p.0 == "\\" && p.1 == "\"";
  }

  /** `PutName`: a comma before every name but the first, then the quoted name and a colon. */
  function NameText(name: string): string
  {
    "\"" + name + "\":"
  }

  function Separator(useComma: bool): string
  {
    if useComma then "," else ""
  }

  /** The text one output call writes, after the separator. */
  function ItemText(it: Item): (t: string)
    decreases it, 1
  {
    match it
    case PutInteger(n, v) => NameText(n) + IntText(v)
    case PutBoolean(n, b) => NameText(n) + (if b then "true" else "false")
    case PutString(n, v) => NameText(n) + "\"" + QuoteEscape(v) + "\""
    case AppendOutput(n, sub) => NameText(n) + "{" + ListText(it, 0) + "}"
  }

  /** The items of a sub-output from index `i` on, comma-separated. */
  function ListText(node: Item, i: nat): string
    requires node.AppendOutput? && i <= |node.sub|
    decreases node, 0, |node.sub| - i
  {
    if i == |node.sub| then []
    else Separator(i > 0) + ItemText(node.sub[i]) + ListText(node, i + 1)
  }

  /** What an output holds after writing `items`, without the braces. */
  function Rendered(items: seq<Item>): string
  {
    ListText(AppendOutput("", items), 0)
  }

  /** The finished JSON object: the braces `Output()` opens and `MakeResponse` closes. */
  function Document(items: seq<Item>): string
  {
    "{" + Rendered(items) + "}"
  }

  lemma {:induction false} ListTextOfSub(n: string, sub: seq<Item>, i: nat)
    requires i <= |sub|
    ensures ListText(AppendOutput(n, sub), i) == ListText(AppendOutput("", sub), i)
    decreases |sub| - i
  {
    if i < |sub| {
      ListTextOfSub(n, sub, i + 1);
    }
  }

  /** A sub-output is written as its own document, after its name. */
  lemma AppendedText(n: string, sub: seq<Item>)
    ensures ItemText(AppendOutput(n, sub)) == NameText(n) + Document(sub)
  {
    ListTextOfSub(n, sub, 0);
  }

  lemma {:induction false} ListTextSnoc(items: seq<Item>, it: Item, i: nat)
    requires i <= |items|
    ensures ListText(AppendOutput("", items + [it]), i) ==
            ListText(AppendOutput("", items), i) + Separator(|items| > 0) + ItemText(it)
    decreases |items| - i
  {
    var longer := AppendOutput("", items + [it]);
    assert longer.sub[i] == (items + [it])[i];
    if i < |items| {
      ListTextSnoc(items, it, i + 1);
      assert longer.sub[i] == items[i];
    } else {
      assert ListText(longer, i + 1) == [];
    }
  }

  /** Writing one more item adds a comma, unless it is the first, and its text. */
  lemma TextSnoc(items: seq<Item>, it: Item)
    ensures Rendered(items + [it]) == Rendered(items) + Separator(items != []) + ItemText(it)
  {
    ListTextSnoc(items, it, 0);
  }

  /** Appending a sub-output after the text of `items` gives the text of `items` with it added. */
  lemma AppendRendered(items: seq<Item>, name: string, sub: seq<Item>)
    ensures "{" + Rendered(items) + Separator(items != []) + NameText(name) + ("{" + Rendered(sub)) + "}" ==
            "{" + Rendered(items + [AppendOutput(name, sub)])
  {
    TextSnoc(items, AppendOutput(name, sub));
    AppendedText(name, sub);
    Regroup("{", Rendered(items), Separator(items != []), NameText(name), "{" + Rendered(sub), "}");
  }

  lemma RegroupPut(a: string, b: string, c: string, d: string, e: string)
    ensures a + b + c + d + e == a + (b + c + (d + e))
  {
  }

  lemma Regroup(a: string, b: string, c: string, d: string, e: string, f: string)
    ensures a + b + c + d + e + f == a + (b + c + (d + (e + f)))
  {
  }

  /** Writing a scalar after the text of `items` gives the text of `items` with it added. */
  lemma PutRendered(items: seq<Item>, it: Item)
    requires IsScalar(it)
    ensures "{" + Rendered(items) + Separator(items != []) + NameText(it.name) + ValueText(it) ==
            "{" + Rendered(items + [it])
  {
    TextSnoc(items, it);
    RegroupPut("{", Rendered(items), Separator(items != []), NameText(it.name), ValueText(it));
  }

  /** An output nothing was written to is the empty object. */
  lemma EmptyDocument()
    ensures Document([]) == "{}"
  {
  }

  /** A scalar item: one the overloads of `Output::Put` write. */
  predicate IsScalar(it: Item)
  {
    !it.AppendOutput?
  }

  /** What a `Put` overload writes after the name. */
  function ValueText(it: Item): (t: string)
    requires IsScalar(it)
    ensures ItemText(it) == NameText(it.name) + t
  {
    match it
    case PutInteger(_, v) => IntText(v)
    case PutBoolean(_, b) => if b then "true" else "false"
    case PutString(_, v) => "\"" + QuoteEscape(v) + "\""
  }

  // ---------------------------------------------------------------------------
  // Output

  /**
   * `http::Output`: the text written so far and whether a comma is due.
   * The items written are kept alongside as a ghost field, and `Valid`
   * says that the text is their rendering after the opening brace.
   */
  class Output {
    var data: string
    var useComma: bool
    ghost var items: seq<Item>

    ghost predicate Valid()
      reads this
    {
      data == "{" + Rendered(items) && (useComma <==> items != [])
    }

    constructor ()
      ensures Valid() && items == [] && data == "{" && !useComma
    {
      data := "{";
      useComma := false;
      items := [];
    }

    /** `PutName`. */
    method PutName(name: string)
      modifies this
      ensures data == old(data) + Separator(old(useComma)) + NameText(name)
      ensures useComma && items == old(items)
    {
      data := data + Separator(useComma) + NameText(name);
      useComma := true;
    }

    /** The `Put` overloads for integers, booleans and strings. */
    method Put(it: Item)
      requires IsScalar(it)
      modifies this
      ensures data == old(data) + Separator(old(useComma)) + NameText(it.name) + ValueText(it)
      ensures useComma && items == old(items) + [it]
      ensures old(Valid()) ==> Valid()
    {
      var value := ValueText(it);
      PutRendered(items, it);
      PutName(it.name);
      data := data + value;
      items := items + [it];
    }

    /**
     * `Append`: the name, then the text of `src` (which began with its own
     * opening brace) and a closing brace.  Appending an output to itself
     * copies the text after the name has been written.
     */
    method Append(name: string, src: Output)
      modifies this
      ensures useComma
      ensures src != this ==> data == old(data) + Separator(old(useComma)) + NameText(name) + old(src.data) + "}"
      ensures src == this ==> var p := old(data) + Separator(old(useComma)) + NameText(name);
                              data == p + p + "}"
      ensures src != this ==> items == old(items) + [AppendOutput(name, old(src.items))]
      ensures src != this && old(Valid()) && old(src.Valid()) ==> Valid()
    {
      var srcData := src.data;
      ghost var srcItems := src.items;
      AppendRendered(items, name, srcItems);
      PutName(name);
      if src != this {
        data := data + srcData + "}";
        items := items + [AppendOutput(name, srcItems)];
      } else {
        data := data + data + "}";
      }
    }

    /**
     * `MakeResponse`: with no response, false; otherwise 200 with the JSON
     * header, a closing brace added to the text and the text as the body.
     * Each call adds another closing brace.
     */
    method MakeResponse(resp: Response?, now: int) returns (ok: bool)
      requires resp != null ==> resp.Valid()
      modifies this, resp
      ensures ok <==> resp != null
      ensures useComma == old(useComma) && items == old(items)
      ensures resp == null ==> data == old(data)
      ensures resp != null ==> data == old(data) + "}" && resp.Valid() &&
                               resp.View() == WithStreamBody(WithHeader(old(resp.View()), 200, HeaderForJson(now)),
                                                             Some(data), now, resp.render)
      ensures resp != null && old(Valid()) ==> data == Document(items)
    {
      if resp == null {
        return false;
      }
      resp.SetHeader(200, HeaderForJson(now));
      data := data + "}";
      resp.SetBodyStream(Some(data), now);
      ok := true;
    }
  }

  /** `Output::Create`. */
  method Create() returns (out: Output)
    ensures fresh(out) && out.Valid() && out.items == []
  {
    out := new Output();
  }

  /**
   * One item written to an output through its methods; a sub-output is
   * filled in a fresh output and then appended.
   */
  method WriteItem(out: Output, it: Item)
    requires out.Valid()
    modifies out
    ensures out.Valid() && out.items == old(out.items) + [it]
    decreases it
  {
    if !it.AppendOutput? {
      out.Put(it);
    } else {
      var src := new Output();
      var i := 0;
      while i < |it.sub|
        invariant 0 <= i <= |it.sub|
        invariant src.Valid() && src.items == it.sub[..i]
        invariant out.data == old(out.data) && out.useComma == old(out.useComma) && out.items == old(out.items)
      {
        WriteItem(src, it.sub[i]);
        assert it.sub[..i + 1] == it.sub[..i] + [it.sub[i]];
        i := i + 1;
      }
      assert it.sub[..i] == it.sub;
      out.Append(it.name, src);
    }
  }

  /** Items written in order: the output then holds exactly their text. */
  method WriteAll(out: Output, items: seq<Item>)
    requires out.Valid()
    modifies out
    ensures out.Valid() && out.items == old(out.items) + items
    ensures out.data == "{" + Rendered(old(out.items) + items)
  {
    var i := 0;
    while i < |items|
      invariant 0 <= i <= |items|
      invariant out.Valid() && out.items == old(out.items) + items[..i]
    {
      WriteItem(out, items[i]);
      assert items[..i + 1] == items[..i] + [items[i]];
      i := i + 1;
    }
    assert items[..i] == items;
  }

  // ---------------------------------------------------------------------------
  // The router handler

  /**
   * The component path the handler builds from the rest of the URL path:
   * each segment is added after a `/`, except while nothing has been
   * added yet.
   */
  function JoinFrom(acc: string, path: seq<string>): string
    decreases |path|
  {
    if path == [] then acc
    else JoinFrom(acc + (if |acc| > 0 then "/" else "") + path[0], path[1..])
  }

  function ComPath(path: seq<string>): string
  {
    JoinFrom("", path)
  }

  lemma {:induction false} JoinFromJoins(acc: string, path: seq<string>)
    requires acc != []
    ensures JoinFrom(acc, path) == if path == [] then acc else acc + "/" + Join(path, "/")
    decreases |path|
  {
    if path != [] {
      var acc1 := acc + "/" + path[0];
      JoinFromJoins(acc1, path[1..]);
    }
  }

  /**
   * A path whose first segment is not empty is joined with `/` between
   * segments; empty segments at the head are skipped.
   */
  lemma ComPathJoins(path: seq<string>)
    ensures path != [] && path[0] != "" ==> ComPath(path) == Join(path, "/")
    ensures path != [] && path[0] == "" ==> ComPath(path) == ComPath(path[1..])
  {
    if path != [] {
      assert "" + (if |""| > 0 then "/" else "") + path[0] == path[0];
      if path[0] != "" {
        JoinFromJoins(path[0], path[1..]);
      }
    }
  }

  /** The handler's loop over the path segments. */
  method BuildComPath(path: seq<string>) returns (comPath: string)
    ensures comPath == ComPath(path)
  {
    comPath := "";
    var i := 0;
    while i < |path|
      invariant 0 <= i <= |path|
      invariant JoinFrom(comPath, path[i..]) == ComPath(path)
    {
      assert path[i..][1..] == path[i + 1..];
      comPath := comPath + (if |comPath| > 0 then "/" else "") + path[i];
      i := i + 1;
    }
  }

  /**
   * The handler at `/webui`: the manager (if there is one) handles the
   * request as input for the component at the joined path, writing to a
   * new output; whatever it answers, the output becomes a 200 JSON
   * response and the handler answers true.
   */
  function WebuiAnswer(manager: Option<Com>, path: seq<string>, req: ReqState, now: int,
                       unsetInt: int, unsetBool: bool): (r: Handled)
    ensures r.ok && |r.calls| == 2 && r.calls[0] == SetStatusHeader(200, HeaderForJson(now))
    ensures manager.None? ==> r.calls[1] == SetBodyText("{}")
  {
    var items := if manager.None? then []
                 else HandleInputOf(manager.value, ComPath(path), HttpInput(Some(req), unsetInt, unsetBool), true).2;
    EmptyDocument();
    Handled(true, [SetStatusHeader(200, HeaderForJson(now)), SetBodyText(Document(items))])
  }

  /** The handler as a router callback, over the tree as it is when the router is built. */
  function WebuiCallback(manager: Option<Com>, now: int, unsetInt: int, unsetBool: bool): Callback
  {
    (path, req) => WebuiAnswer(manager, path, req, now, unsetInt, unsetBool)
  }

  /**
   * On a new response, the handler's calls send 200 with the JSON header
   * (its length the document's) and then the document of what the
   * addressed component published.
   */
  lemma WebuiSendsDocument(manager: Com, path: seq<string>, req: ReqState, now: int,
                           unsetInt: int, unsetBool: bool, render: int -> string)
    ensures var items := HandleInputOf(manager, ComPath(path), HttpInput(Some(req), unsetInt, unsetBool), true).2;
            var doc := Document(items);
            var v := AfterCalls(Outgoing(404, DefaultHeader(now), None, None),
                                WebuiAnswer(Some(manager), path, req, now, unsetInt, unsetBool).calls, now, render);
            v.status == 200 &&
            Pending(v, render) == FromChars(HeadText(200, HeaderForJson(now).(content := HeaderForJson(now).content.(length := |doc| % USIZE_MOD)), render)) +
                                  FromChars(doc)
  {
    var items := HandleInputOf(manager, ComPath(path), HttpInput(Some(req), unsetInt, unsetBool), true).2;
    var doc := Document(items);
    var v0 := Outgoing(404, DefaultHeader(now), None, None);
    var calls := WebuiAnswer(Some(manager), path, req, now, unsetInt, unsetBool).calls;
    assert calls == [SetStatusHeader(200, HeaderForJson(now)), SetBodyText(doc)];
    assert calls[..1][..0] == [];
    assert calls[..|calls| - 1] == calls[..1];
    var v1 := WithHeader(v0, 200, HeaderForJson(now));
    assert AfterCalls(v0, calls[..1], now, render) == v1;
    var h := HeaderForJson(now).(content := HeaderForJson(now).content.(length := |doc| % USIZE_MOD));
    assert BodyHeader(v1, |doc|, now) == v1.(header := h);
    var v2 := WithTextBody(v1, doc, now, render);
    assert AfterCalls(v0, calls, now, render) == v2;
    assert v2.head == Some(FromChars(HeadText(200, h, render))) && v2.body == Some(FromChars(doc));
  }

  /** A path naming no component is answered with the empty object. */
  lemma UnknownComponentIsEmpty(manager: Com, path: seq<string>, req: ReqState, now: int,
                                unsetInt: int, unsetBool: bool)
    requires FindCom(manager, ComPath(path)).None?
    ensures WebuiAnswer(Some(manager), path, req, now, unsetInt, unsetBool).calls[1] == SetBodyText("{}")
  {
  }

  /** The registration URL of the handler is the one segment `webui`. */
  lemma WebuiParts()
    ensures UrlParts("/webui") == ["webui"]
  {
    PartsLast("/webui", 1);
    assert "/webui"[1..] == "webui";
  }

  /** The trie `GetRouterFor` builds: one handler, at `webui`. */
  function WebuiNodes(f: Functor): Node
  {
    AddAt(EMPTY_NODE, ["webui"], f).0
  }

  /** Every request whose path begins with `webui` reaches the handler with the rest of the path. */
  lemma WebuiRoutes(f: Functor, root: seq<string>, req: ReqState)
    requires var path := SelectPath(req.header.line.target.path, root);
             path != [] && path[0] == "webui"
    ensures var path := SelectPath(req.header.line.target.path, root);
            Dispatch(WebuiNodes(f), root, req) == f.Call(path[1..], req)
  {
    var path := SelectPath(req.header.line.target.path, root);
    var n := WebuiNodes(f);
    assert n.children["webui"] == Node(f, map[]);
    assert Route(n.children["webui"], path[1..]) == (null, 0);
    assert Route(n, path) == (f, 1);
  }

  /**
   * `Manager::GetRouterFor`: a router at `rootPath` with the manager's
   * handler registered at `/webui`.
   */
  method GetRouterFor(manager: Option<Com>, rootPath: string, now: int, unsetInt: int, unsetBool: bool)
    returns (router: Router, handler: Functor)
    requires UriParse.ParseVal(EmptyUri, rootPath).Returns?
    ensures fresh(router) && fresh(handler)
    ensures router.rootUrl == UriParse.ParseVal(EmptyUri, rootPath).value.uri.path
    ensures router.nodes == WebuiNodes(handler)
    ensures handler.callback == Some(WebuiCallback(manager, now, unsetInt, unsetBool))
  {
    router := new Router.WithRoot(rootPath);
    handler := new Functor(Some(WebuiCallback(manager, now, unsetInt, unsetBool)));
    WebuiParts();
    var _ := router.AddHandlerFor("/webui", handler);
  }
}
