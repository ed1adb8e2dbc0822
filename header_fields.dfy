/**
 * The request header and the per-line field parser of
 * webapp_proto_http.cpp: `SplitStringToList`,
 * `DetectParametersForHeaderField`, `DetectContentType`,
 * `DetectContentDisposition` and `ParseHeaderField`, after section 3.2 of
 * RFC 7230 (`field-name ":" OWS field-value OWS`).
 *
 * The header object is a value here: `ParseHeaderField` maps the old
 * header to the new one.  The loops that fill lists are methods proved to
 * compute the functions the field parser is written with.
 */
module HttpHeader {
  import opened Text
  import opened HttpTables
  import opened HttpUri
  import UriParse
  import CNumbers

  datatype StartLine = StartLine(httpMethod: Method, target: Uri, version: string)

  datatype Accept = Accept(language: seq<string>, charset: seq<string>, encoding: seq<string>)

  /** `Content::Disposition`: its `type` member is `kind` here. */
  datatype Disposition = Disposition(kind: string, name: string, filename: string)

  datatype Content = Content(ctype: ContentType, disposition: Disposition, length: nat,
                             encoding: seq<string>, language: seq<string>, location: Uri)

  /**
   * `ProtocolHTTP::Header`.  `expires` is a time in hours on the wall clock;
   * `cacheControl` and `etag` hold the directive texts of the header's
   * `CacheControl` and `ETag` members.
   */
  datatype Header = Header(line: StartLine, userAgent: string, host: string, accept: Accept,
                           content: Content, expires: int, cacheControl: string, etag: string,
                           complete: bool)

  /** A default-constructed `Content::Type`. */
  const DEFAULT_TYPE := ContentType(TextType, "", "", "")

  /** A default-constructed `Header`; its `Expires` member reads the clock, `now`. */
  function DefaultHeader(now: int): (h: Header)
    ensures !h.complete && h.content.length == 0 && h.content.disposition.name == ""
  {
    Header(StartLine(Unknown, EmptyUri, ""), "", "", Accept([], [], []),
           Content(DEFAULT_TYPE, Disposition("", "", ""), 0, [], [], EmptyUri),
           now, "", "", false)
  }

  // ---------------------------------------------------------------------------
  // SplitStringToList

  /**
   * The raw pieces `SplitStringToList` cuts a list value into.  The first
   * search for `,` starts at index 1, so a comma at index 0 stays in the
   * first piece; every later comma separates.
   */
  function ListPieces(str: string): (p: seq<string>)
    ensures |p| > 0
  {
    if str == [] then [[]]
    else
      var rest := Split(str[1..], ',');
      [[str[0]] + rest[0]] + rest[1..]
  }

  /** The list `SplitStringToList` produces: each piece stripped; a blank piece throws. */
  function SplitList(str: string): Throws<seq<string>>
  {
    MapThrows(TruncateOrThrow, ListPieces(str))
  }

  /** The first piece runs up to the first comma after index 0. */
  lemma ListFirstPiece(str: string)
    ensures var next := FindFirstOf(str, {','}, 1);
            ListPieces(str) ==
              if next.Some? then [str[..next.value]] + Split(str[next.value + 1..], ',')
              else [str]
  {
    var next := FindFirstOf(str, {','}, 1);
    if str != [] {
      SplitFrom(str, ',', 1);
      if next.Some? {
        assert [str[0]] + str[1..next.value] == str[..next.value];
      } else {
        assert [str[0]] + str[1..] == str;
      }
    }
  }

  /**
   * What `SplitStringToList`'s loop still collects from cursor `off`: all
   * pieces at 0, the pieces after the comma at `off` later, none at `npos`.
   */
  function ListFrom<B>(f: string -> Throws<B>, str: string, off: Option<nat>): Throws<seq<B>>
    requires off.Some? && off.value > 0 ==> off.value < |str|
  {
    if off == Some(0) then MapThrows(f, ListPieces(str)) else MapPieces(f, str, ',', off)
  }

  /** A later turn of the loop: the piece after the comma at `k`, up to the next one. */
  lemma ListStep<B>(f: string -> Throws<B>, str: string, k: nat, done: seq<B>, next: Option<nat>, piece: string)
    requires 0 < k < |str| && next == FindFirstOf(str, {','}, k + 1)
    requires piece == PieceFrom(str, k + 1, next)
    ensures f(piece).OutOfRange? ==> AfterDone(done, ListFrom(f, str, Some(k))).OutOfRange?
    ensures f(piece).Returns? ==>
              AfterDone(done, ListFrom(f, str, Some(k))) == AfterDone(done + [f(piece).value], ListFrom(f, str, next))
  {
    MapPiecesStep(f, str, ',', k, done, next, piece);
  }

  /** Without a comma after index 0, the whole value is the one piece. */
  lemma ListOnly<B>(f: string -> Throws<B>, str: string, done: seq<B>)
    requires FindFirstOf(str, {','}, 1).None?
    ensures AfterDone(done, ListFrom(f, str, Some(0))) ==
              if f(str[0..]).OutOfRange? then OutOfRange
              else AfterDone(done + [f(str[0..]).value], ListFrom(f, str, None))
  {
    ListFirstPiece(str);
    assert str[0..] == str;
    MapThrowsOne(f, str);
    if f(str).Returns? {
      assert done + [f(str).value] + [] == done + [f(str).value];
    }
  }

  /** With one, the first piece runs up to it and the hops go on from there. */
  lemma ListFirst<B>(f: string -> Throws<B>, str: string, n: nat, done: seq<B>)
    requires FindFirstOf(str, {','}, 1) == Some(n)
    ensures n > 0
    ensures var piece := str[0..n];
            AfterDone(done, ListFrom(f, str, Some(0))) ==
              if f(piece).OutOfRange? then OutOfRange
              else AfterDone(done + [f(piece).value], ListFrom(f, str, Some(n)))
  {
    ListFirstPiece(str);
    assert str[0..n] == str[..n];
    MapThrowsCons(f, str[..n], Split(str[n + 1..], ','));
    MapPiecesSplit(f, str, ',', n);
    if f(str[..n]).Returns? {
      AfterDoneAppend(done, [f(str[..n]).value], MapPieces(f, str, ',', Some(n)));
    }
  }

  /** `SplitStringToList`'s loop (the separator set is `","` at every call site). */
  method SplitStringToList(str: string) returns (r: Throws<seq<string>>)
    ensures r == SplitList(str)
  {
    var out: seq<string> := [];
    var off: Option<nat> := Some(0);
    AfterNothing(SplitList(str));
    while off.Some?
      invariant off.Some? && off.value > 0 ==> off.value < |str|
      invariant AfterDone(out, ListFrom(TruncateOrThrow, str, off)) == SplitList(str)
      decreases if off.None? then 0 else |str| + 1 - off.value
    {
      var prev := if off.value == 0 then 0 else off.value + 1;
      var next := FindFirstOf(str, {','}, off.value + 1);
      var piece := PieceFrom(str, prev, next);
      if off.value > 0 {
        ListStep(TruncateOrThrow, str, off.value, out, next, piece);
      } else if next.None? {
        ListOnly(TruncateOrThrow, str, out);
      } else {
        ListFirst(TruncateOrThrow, str, next.value, out);
      }
      var t := TruncateOrThrow(piece);
      if t.OutOfRange? {
        return OutOfRange;
      }
      out := out + [t.value];
      off := next;
    }
    assert out + [] == out;
    return Returns(out);
  }

  /** Without a comma after the first character, a list value is one stripped item. */
  lemma SplitListSingle(str: string)
    requires HasContent(str)
    requires forall i :: 1 <= i < |str| ==> str[i] != ','
    ensures SplitList(str) == Returns([TruncateString(str)])
  {
    ListFirstPiece(str);
    MapThrowsOne(TruncateOrThrow, str);
  }

  /** Items written with `", "` between them come back stripped, in order. */
  lemma SplitListJoined(items: seq<string>)
    requires |items| > 0
    requires forall i :: 0 <= i < |items| ==> HasContent(items[i]) && ',' !in items[i]
    ensures SplitList(Join(items, ", ")) == Returns(Stripped(items))
  {
    JoinedPieces(items);
    var p := [items[0]] + Spaced(items[1..]);
    forall i | 0 <= i < |items|
      ensures TruncateOrThrow(p[i]) == Returns(Stripped(items)[i])
    {
      PieceStrips(items, i);
    }
    MapThrowsAll(TruncateOrThrow, p, Stripped(items));
  }

  /** Each item stripped. */
  function Stripped(items: seq<string>): (r: seq<string>)
    requires forall i :: 0 <= i < |items| ==> HasContent(items[i])
    ensures |r| == |items| && forall i :: 0 <= i < |items| ==> r[i] == TruncateString(items[i])
  {
    if items == [] then [] else [TruncateString(items[0])] + Stripped(items[1..])
  }

  /** The `i`-th piece of the joined list strips to the `i`-th item stripped. */
  lemma PieceStrips(items: seq<string>, i: nat)
    requires i < |items| && forall j :: 0 <= j < |items| ==> HasContent(items[j])
    ensures TruncateOrThrow(([items[0]] + Spaced(items[1..]))[i]) == Returns(TruncateString(items[i]))
  {
    if i > 0 {
      assert ([items[0]] + Spaced(items[1..]))[i] == Spaced(items[1..])[i - 1] == [' '] + items[i];
      TruncateSkipsBlank(' ', items[i]);
    }
  }

  /** Each item behind one space. */
  function Spaced(items: seq<string>): (r: seq<string>)
    ensures |r| == |items|
    ensures forall i :: 0 <= i < |items| ==> r[i] == [' '] + items[i]
  {
    if items == [] then [] else [[' '] + items[0]] + Spaced(items[1..])
  }

  /** A `", "`-joined list of several items: the first item, a comma, then the rest behind a space. */
  lemma JoinStep(items: seq<string>)
    requires |items| > 1
    ensures Join(items, ", ") == items[0] + [','] + ([' '] + Join(items[1..], ", "))
  {
    var j := Join(items[1..], ", ");
    assert ", " == [','] + [' '];
    assert items[0] + ", " + j == items[0] + [','] + ([' '] + j);
  }

  /** The pieces of a `", "`-joined list: the first item, then each later one after a space. */
  lemma JoinedPieces(items: seq<string>)
    requires |items| > 0
    requires forall i :: 0 <= i < |items| ==> HasContent(items[i]) && ',' !in items[i]
    ensures ListPieces(Join(items, ", ")) == [items[0]] + Spaced(items[1..])
  {
    var x := items[0];
    assert ',' !in x[1..];
    if |items| == 1 {
      ListPiecesOne(x);
    } else {
      JoinStep(items);
      ListPiecesCons(x, [' '] + Join(items[1..], ", "));
      SpacedPieces(items[1..]);
    }
  }

  /** A value with no comma after its first character is one piece. */
  lemma ListPiecesOne(x: string)
    requires |x| > 0 && ',' !in x[1..]
    ensures ListPieces(x) == [x]
  {
    SplitNone(x[1..], ',');
    assert [x[0]] + x[1..] == x;
  }

  /** The first comma after the first character ends the first piece. */
  lemma ListPiecesCons(x: string, rest: string)
    requires |x| > 0 && ',' !in x[1..]
    ensures ListPieces(x + [','] + rest) == [x] + Split(rest, ',')
  {
    DropFirst(x + [','], rest);
    DropFirst(x, [',']);
    SplitCons(x[1..], ',', rest);
    assert [x[0]] + x[1..] == x;
  }

  /** Splitting `" " + Join(items, ", ")` gives each item behind one space. */
  lemma {:induction false} SpacedPieces(items: seq<string>)
    requires |items| > 0
    requires forall i :: 0 <= i < |items| ==> ',' !in items[i]
    ensures Split([' '] + Join(items, ", "), ',') == Spaced(items)
  {
    var x := [' '] + items[0];
    assert ',' !in x;
    if |items| == 1 {
      SplitNone(x, ',');
    } else {
      var j := Join(items[1..], ", ");
      JoinStep(items);
      assert [' '] + Join(items, ", ") == x + [','] + ([' '] + j);
      SplitCons(x, ',', [' '] + j);
      SpacedPieces(items[1..]);
    }
  }

  // ---------------------------------------------------------------------------
  // DetectParametersForHeaderField

  /**
   * One `;`-separated parameter: the name is the stripped text before the
   * first `=`, the value the stripped text after it (the whole parameter
   * when there is no `=`, since `npos + 1` wraps to 0).  Either part blank
   * throws.
   */
  function ParamOf(param: string): (r: Throws<(string, string)>)
    ensures r.Returns? ==> '=' !in r.value.0 || FindFirstOf(param, {'='}, 0).None?
  {
    var eq := FindFirstOf(param, {'='}, 0);
    var name := TruncateOrThrow(UpTo(param, eq));
    var value := TruncateOrThrow(if eq.None? then param else param[eq.value + 1..]);
    if name.OutOfRange? || value.OutOfRange? then OutOfRange
    else
      NameBeforeEquals(param);
      Returns((name.value, value.value))
  }

  /** The stripped text before the first `=` holds no `=`. */
  lemma NameBeforeEquals(param: string)
    requires HasContent(UpTo(param, FindFirstOf(param, {'='}, 0)))
    ensures FindFirstOf(param, {'='}, 0).Some? ==> '=' !in TruncateString(UpTo(param, FindFirstOf(param, {'='}, 0)))
  {
    var eq := FindFirstOf(param, {'='}, 0);
    if eq.Some? {
      var name := param[..eq.value];
      forall k | 0 <= k < |name|
        ensures name[k] != '='
      {
        assert name[k] == param[k];
      }
      TruncateWithout(name, '=');
    }
  }

  /** `name=value` with a name free of `=` splits back into the two, stripped. */
  lemma ParamSplits(name: string, value: string)
    requires HasContent(name) && HasContent(value)
    requires forall i :: 0 <= i < |name| ==> name[i] != '='
    ensures ParamOf(name + "=" + value) == Returns((TruncateString(name), TruncateString(value)))
  {
    var p := name + "=" + value;
    assert p[|name|] == '=';
    assert forall k :: 0 <= k < |name| ==> p[k] == name[k];
    assert FindFirstOf(p, {'='}, 0) == Some(|name|);
    assert p[..|name|] == name;
    assert p[|name| + 1..] == value;
  }

  /** The handler calls of `DetectParametersForHeaderField`, in order, from cursor `off`. */
  function Params(field: string, off: Option<nat>): Throws<seq<(string, string)>>
    requires off.Some? ==> off.value < |field|
  {
    MapPieces(ParamOf, field, ';', off)
  }

  /**
   * `DetectParametersForHeaderField`: the handler is the caller's, so the
   * method returns the `(name, value)` pairs it would be called with.
   */
  method DetectParameters(field: string, off: Option<nat>) returns (r: Throws<seq<(string, string)>>)
    requires off.Some? ==> off.value < |field|
    ensures r == Params(field, off)
  {
    r := CollectPieces(ParamOf, field, ';', off);
  }

  // ---------------------------------------------------------------------------
  // DetectContentType / DetectContentDisposition

  /** The `Content-Type` handler: `boundary` and `charset` are stored, a later one overwriting. */
  function TypeParams(t: ContentType, params: seq<(string, string)>): (r: ContentType)
    ensures r.name == t.name && r.subType == t.subType
  {
    if params == [] then t
    else
      var last := params[|params| - 1];
      var s := TypeParams(t, params[..|params| - 1]);
      if last.0 == "boundary" then s.(boundary := last.1)
      else if last.0 == "charset" then s.(charset := last.1)
      else s
  }

  /** Without a `boundary` parameter the boundary keeps its old value. */
  lemma {:induction false} BoundaryKept(t: ContentType, params: seq<(string, string)>)
    requires forall i :: 0 <= i < |params| ==> params[i].0 != "boundary"
    ensures TypeParams(t, params).boundary == t.boundary
  {
    if params != [] {
      var n := |params| - 1;
      assert forall i :: 0 <= i < n ==> params[..n][i] == params[i];
      BoundaryKept(t, params[..n]);
    }
  }

  /** Otherwise it is the value of the last `boundary` parameter. */
  lemma {:induction false} BoundaryIsLast(t: ContentType, params: seq<(string, string)>, i: nat)
    requires i < |params| && params[i].0 == "boundary"
    requires forall j :: i < j < |params| ==> params[j].0 != "boundary"
    ensures TypeParams(t, params).boundary == params[i].1
  {
    var n := |params| - 1;
    if i < n {
      assert forall j :: 0 <= j < n ==> params[..n][j] == params[j];
      BoundaryIsLast(t, params[..n], i);
    }
  }

  /**
   * `DetectContentType`: the type name is the text before the first `/`
   * and the subtype the text after it up to the first `;` (the whole text
   * when there is no `/`), both lower-cased; parameters follow the `;`.
   * `boundary` and `charset` keep their old values unless a parameter sets
   * them.
   */
  function ContentTypeOf(s: string, old_type: ContentType): (r: Throws<ContentType>)
  {
    var (typeName, subType, semi) := TypeText(s);
    match Params(s, semi)
    case OutOfRange => OutOfRange
    case Returns(ps) => Returns(TypeParams(old_type.(name := MimeFromStr(typeName), subType := subType), ps))
  }

  /** The lower-cased type name, the lower-cased subtype and the `;` position `DetectContentType` finds. */
  function TypeText(s: string): (r: (string, string, Option<nat>))
    ensures r.2.Some? ==> r.2.value < |s| && s[r.2.value] == ';'
  {
    var slash := FindFirstOf(s, {'/'}, 0);
    var semi := if slash.None? then None else FindFirstOf(s, {';'}, slash.value);
    (Lower(UpTo(s, slash)), Lower(if slash.None? then s else s[slash.value + 1..Pos(semi, |s|)]), semi)
  }

  method DetectContentType(s: string, old_type: ContentType) returns (r: Throws<ContentType>)
    ensures r == ContentTypeOf(s, old_type)
  {
    var slash := FindFirstOf(s, {'/'}, 0);
    var semi := if slash.None? then None else FindFirstOf(s, {';'}, slash.value);
    var typeName := Lower(UpTo(s, slash));
    var subType := Lower(if slash.None? then s else s[slash.value + 1..Pos(semi, |s|)]);
    var t := old_type.(name := MimeFromStr(typeName), subType := subType);
    var ps := DetectParameters(s, semi);
    if ps.OutOfRange? {
      return OutOfRange;
    }
    return Returns(TypeParams(t, ps.value));
  }

  /** Where `DetectContentType` cuts `name/sub;p` when `name` has no `/` and `sub` no `;`. */
  lemma TypeLayout(name: string, sub: string, p: string)
    requires forall i :: 0 <= i < |name| ==> name[i] != '/'
    requires forall i :: 0 <= i < |sub| ==> sub[i] != ';'
    ensures FindFirstOf(name + "/" + sub + ";" + p, {'/'}, 0) == Some(|name|)
    ensures FindFirstOf(name + "/" + sub + ";" + p, {';'}, |name|) == Some(|name| + 1 + |sub|)
    ensures (name + "/" + sub + ";" + p)[..|name|] == name
    ensures (name + "/" + sub + ";" + p)[..|name| + 1 + |sub|][|name| + 1..] == sub
    ensures (name + "/" + sub + ";" + p)[|name| + 2 + |sub|..] == p
  {
    var t1 := name + "/";
    var t2 := t1 + sub;
    var t3 := t2 + ";";
    var s := t3 + p;
    var k := |name| + 1 + |sub|;
    assert s[..k + 1] == t3;
    assert t3[..k] == t2;
    assert t2[..|name| + 1] == t1;
    assert t1[..|name|] == name;
    assert s[..|name|] == name;
    assert s[k + 1..] == p;
    assert s[..k] == t2;
    assert t2[|name| + 1..] == sub;
    forall j | 0 <= j < |name|
      ensures s[j] !in {'/'}
    {
      assert s[j] == t1[j] == name[j];
    }
    forall j | |name| <= j < k
      ensures s[j] !in {';'}
    {
      if j > |name| {
        assert s[j] == t2[j] == sub[j - |name| - 1];
      }
    }
    FindFirstAt(s, {'/'}, 0, |name|);
    FindFirstAt(s, {';'}, |name|, k);
  }

  /** ` boundary=b` names the boundary `b`, stripped. */
  lemma BoundaryParam(b: string)
    requires HasContent(b)
    ensures ParamOf(" boundary=" + b) == Returns(("boundary", TruncateString(b)))
  {
    var word := "boundary";
    var name := [' '] + word;
    assert name == " boundary";
    assert name + "=" + b == " boundary=" + b;
    forall i | 0 <= i < |name|
      ensures name[i] != '='
    {
    }
    TruncatePlain(word);
    TruncateSkipsBlank(' ', word);
    ParamSplits(name, b);
  }

  /** Where `DetectContentType` cuts `s = name/sub;p`. */
  lemma TypeParts(s: string, name: string, sub: string, p: string)
    requires s == name + "/" + sub + ";" + p
    requires forall i :: 0 <= i < |name| ==> name[i] != '/'
    requires forall i :: 0 <= i < |sub| ==> sub[i] != ';'
    ensures FindFirstOf(s, {'/'}, 0) == Some(|name|)
    ensures FindFirstOf(s, {';'}, |name|) == Some(|name| + 1 + |sub|)
    ensures UpTo(s, Some(|name|)) == name
    ensures s[|name| + 1..|name| + 1 + |sub|] == sub
    ensures s[|name| + 2 + |sub|..] == p
  {
    TypeLayout(name, sub, p);
  }

  /** The parameter text `p` after the `;` of `s = name/sub;p` is one parameter when it has no `;`. */
  lemma TypeParam(s: string, name: string, sub: string, p: string)
    requires s == name + "/" + sub + ";" + p
    requires forall i :: 0 <= i < |name| ==> name[i] != '/'
    requires forall i :: 0 <= i < |sub| ==> sub[i] != ';'
    requires ';' !in p && ParamOf(p).Returns?
    ensures Params(s, Some(|name| + 1 + |sub|)) == Returns([ParamOf(p).value])
  {
    var k := |name| + 1 + |sub|;
    TypeParts(s, name, sub, p);
    forall i | k < i < |s|
      ensures s[i] !in {';'}
    {
      assert s[i] == s[k + 1..][i - k - 1];
    }
    assert FindFirstOf(s, {';'}, k + 1).None?;
    PiecesOne(ParamOf, s, ';', k);
    assert Params(s, Some(k)) == MapPieces(ParamOf, s, ';', Some(k));
  }

  /** `TypeText` of `s = name/sub;p`. */
  lemma TypeTextParts(s: string, name: string, sub: string, p: string)
    requires s == name + "/" + sub + ";" + p
    requires forall i :: 0 <= i < |name| ==> name[i] != '/' && !IsUpper(name[i])
    requires forall i :: 0 <= i < |sub| ==> sub[i] != ';'
    ensures TypeText(s).0 == name && TypeText(s).1 == Lower(sub)
    ensures TypeText(s).2 == Some(|name| + 1 + |sub|)
  {
    TypeParts(s, name, sub, p);
    LowerNoUpper(name);
  }

  /**
   * `name/sub;p` with one parameter `p`: the type named by `name`, the
   * lower-cased subtype, and `p` applied to the old type, when `name` is
   * lower-case with no `/` and neither `sub` nor `p` has a `;`.
   */
  lemma TypeWithParam(name: string, sub: string, p: string)
    requires forall i :: 0 <= i < |name| ==> name[i] != '/' && !IsUpper(name[i])
    requires forall i :: 0 <= i < |sub| ==> sub[i] != ';'
    requires ';' !in p && ParamOf(p).Returns?
    ensures ContentTypeOf(name + "/" + sub + ";" + p, DEFAULT_TYPE) ==
            Returns(TypeParams(DEFAULT_TYPE.(name := MimeFromStr(name), subType := Lower(sub)), [ParamOf(p).value]))
  {
    TypeTextParts(name + "/" + sub + ";" + p, name, sub, p);
    TypeParam(name + "/" + sub + ";" + p, name, sub, p);
  }

  /** There is no `;` in the text before a boundary. */
  lemma NoSemicolonInBoundary()
    ensures ';' !in " boundary="
  {
  }

  /** `name/sub; boundary=b` gives the type named by `name`, the lower-cased subtype and the stripped `b`. */
  lemma TypeWithBoundary(name: string, sub: string, b: string)
    requires forall i :: 0 <= i < |name| ==> name[i] != '/' && !IsUpper(name[i])
    requires forall i :: 0 <= i < |sub| ==> sub[i] != ';'
    requires HasContent(b) && ';' !in b
    ensures ContentTypeOf(name + "/" + sub + ";" + (" boundary=" + b), DEFAULT_TYPE) ==
            Returns(ContentType(MimeFromStr(name), Lower(sub), TruncateString(b), DEFAULT_TYPE.charset))
  {
    var p := " boundary=" + b;
    NoSemicolonInBoundary();
    BoundaryParam(b);
    TypeWithParam(name, sub, p);
    var t := DEFAULT_TYPE.(name := MimeFromStr(name), subType := Lower(sub));
    BoundaryIsLast(t, [("boundary", TruncateString(b))], 0);
  }

  /** The `Content-Disposition` handler: `name` and `filename` are stored, a later one overwriting. */
  function DispositionParams(d: Disposition, params: seq<(string, string)>): (r: Disposition)
    ensures r.kind == d.kind
  {
    if params == [] then d
    else
      var last := params[|params| - 1];
      var s := DispositionParams(d, params[..|params| - 1]);
      if last.0 == "name" then s.(name := last.1)
      else if last.0 == "filename" then s.(filename := last.1)
      else s
  }

  /** `DetectContentDisposition`: the type is the raw text before the first `;`, parameters follow. */
  function DispositionOf(s: string, old_disp: Disposition): (r: Throws<Disposition>)
  {
    var semi := FindFirstOf(s, {';'}, 0);
    match Params(s, semi)
    case OutOfRange => OutOfRange
    case Returns(ps) => Returns(DispositionParams(old_disp.(kind := UpTo(s, semi)), ps))
  }

  method DetectContentDisposition(s: string, old_disp: Disposition) returns (r: Throws<Disposition>)
    ensures r == DispositionOf(s, old_disp)
  {
    var semi := FindFirstOf(s, {';'}, 0);
    var d := old_disp.(kind := UpTo(s, semi));
    var ps := DetectParameters(s, semi);
    if ps.OutOfRange? {
      return OutOfRange;
    }
    return Returns(DispositionParams(d, ps.value));
  }

  // ---------------------------------------------------------------------------
  // ParseHeaderField

  /** The field names `ParseHeaderField` acts on; any other name is ignored. */
  const KNOWN_FIELDS: set<string> :=
    {"User-Agent", "Host", "Accept-Language", "Accept-Charset", "Accept-Encoding",
     "Content-Type", "Content-Disposition", "Content-Length", "Content-Encoding",
     "Content-Language", "Content-Location"}

  /**
   * A line is a start line when its text before the first space holds no
   * `:`.  The method is looked up first (an unknown one fails the line,
   * after being stored); the target runs to the next space and is parsed
   * into the header's URI; the version is the rest.
   */
  function StartLineOf(line: string, space: Option<nat>, h: Header): (r: Throws<(bool, Header)>)
    requires space.Some? ==> space.value < |line|
    ensures r.Returns? ==> r.value.1.line.httpMethod == MethodFromStr(UpTo(line, space))
    ensures r.Returns? && r.value.0 ==> r.value.1.line.httpMethod != Unknown
    ensures r.Returns? ==> r.value.1.complete == h.complete
  {
    var m := MethodFromStr(UpTo(line, space));
    var h1 := h.(line := h.line.(httpMethod := m));
    if m == Unknown then Returns((false, h1))
    else
      var (target, version) := StartText(line, space);
      match UriParse.ParseVal(h.line.target, target)
      case OutOfRange => OutOfRange
      case Returns(p) =>
        var h2 := h1.(line := h1.line.(target := p.uri));
        if !p.ok then Returns((false, h2))
        else Returns((true, h2.(line := h2.line.(version := version))))
  }

  /**
   * The target and the version of a start line: the text between the first
   * space and the next one, and the text after that (the whole line where a
   * space is missing).
   */
  function StartText(line: string, space: Option<nat>): (r: (string, string))
    requires space.Some? ==> space.value < |line|
  {
    var ver := if space.None? then None else FindFirstOf(line, {' '}, space.value + 1);
    (if space.None? then line else line[space.value + 1..Pos(ver, |line|)],
     if ver.None? then line else line[ver.value + 1..])
  }

  /** Stores a known field's stripped value; `false` only from a failed list, URI or parameter parse. */
  function ApplyField(name: string, value: string, h: Header): (r: Throws<(bool, Header)>)
    ensures name !in KNOWN_FIELDS ==> r == Returns((true, h))
    ensures r.Returns? ==> r.value.1.complete == h.complete && r.value.1.line == h.line
    ensures name == "Content-Disposition" && r.Returns? ==> r.value.0
  {
    if name == "User-Agent" then Returns((true, h.(userAgent := value)))
    else if name == "Host" then Returns((true, h.(host := value)))
    else if name == "Accept-Language" then
      match SplitList(value)
      case OutOfRange => OutOfRange
      case Returns(l) => Returns((true, h.(accept := h.accept.(language := l))))
    else if name == "Accept-Charset" then
      match SplitList(value)
      case OutOfRange => OutOfRange
      case Returns(l) => Returns((true, h.(accept := h.accept.(charset := l))))
    else if name == "Accept-Encoding" then
      match SplitList(value)
      case OutOfRange => OutOfRange
      case Returns(l) => Returns((true, h.(accept := h.accept.(encoding := l))))
    else if name == "Content-Type" then
      match ContentTypeOf(value, h.content.ctype)
      case OutOfRange => OutOfRange
      case Returns(t) => Returns((true, h.(content := h.content.(ctype := t))))
    else if name == "Content-Disposition" then
      match DispositionOf(value, h.content.disposition)
      case OutOfRange => OutOfRange
      case Returns(d) => Returns((true, h.(content := h.content.(disposition := d))))
    else if name == "Content-Length" then
      Returns((true, h.(content := h.content.(length := CNumbers.Strtoul0(value) % USIZE_MOD))))
    else if name == "Content-Encoding" then
      match SplitList(value)
      case OutOfRange => OutOfRange
      case Returns(l) => Returns((true, h.(content := h.content.(encoding := l))))
    else if name == "Content-Language" then
      match SplitList(value)
      case OutOfRange => OutOfRange
      case Returns(l) => Returns((true, h.(content := h.content.(language := l))))
    else if name == "Content-Location" then
      match UriParse.ParseVal(h.content.location, value)
      case OutOfRange => OutOfRange
      case Returns(p) => Returns((p.ok, h.(content := h.content.(location := p.uri))))
    else Returns((true, h))
  }

  /**
   * The field part of `ParseHeaderField`, run on every line that gets past
   * the start-line check (start lines included): the name runs from the
   * first non-space to the colon, the value is the stripped text after it
   * (the whole line when there is no colon).  An all-space line, or a
   * blank value, throws.
   */
  function FieldOf(line: string, colon: Option<nat>, h: Header): (r: Throws<(bool, Header)>)
    requires colon.Some? ==> colon.value < |line|
    ensures r.Returns? ==> r.value.1.complete == h.complete && r.value.1.line == h.line
  {
    match FindFirstNotOf(line, {' '}, 0)
    case None => OutOfRange
    case Some(n) =>
      var name := if colon.Some? && n <= colon.value then line[n..colon.value] else line[n..];
      match TruncateOrThrow(if colon.None? then line else line[colon.value + 1..])
      case OutOfRange => OutOfRange
      case Returns(value) => ApplyField(name, value, h)
  }

  /**
   * `ParseHeaderField`: lines shorter than two characters are accepted
   * unchanged; a line whose first word holds no colon is a start line.
   */
  function HeaderFieldOf(line: string, h: Header): (r: Throws<(bool, Header)>)
    ensures |line| < 2 ==> r == Returns((true, h))
    ensures r.Returns? ==> r.value.1.complete == h.complete
  {
    if |line| < 2 then Returns((true, h))
    else
      var space := FindFirstOf(line, {' '}, 0);
      var colon := FindFirstOf(UpTo(line, space), {':'}, 0);
      var started := if colon.Some? then Returns((true, h)) else StartLineOf(line, space, h);
      if started.OutOfRange? || !started.value.0 then started
      else FieldOf(line, colon, started.value.1)
  }

  // ---------------------------------------------------------------------------
  // Properties of the field parser

  /** Where `ParseHeaderField` cuts `line = name: value`. */
  lemma FieldLayout(line: string, name: string, value: string)
    requires line == name + ": " + value
    requires |name| > 0
    requires forall i :: 0 <= i < |name| ==> name[i] != ' ' && name[i] != ':'
    ensures FindFirstOf(line, {' '}, 0) == Some(|name| + 1)
    ensures FindFirstOf(UpTo(line, Some(|name| + 1)), {':'}, 0) == Some(|name|)
    ensures FindFirstNotOf(line, {' '}, 0) == Some(0)
    ensures line[0..|name|] == name
    ensures line[|name| + 1..] == [' '] + value
  {
    var k := |name|;
    var t := name + ": ";
    assert line[..k + 2] == t;
    assert t[..k] == name;
    assert line[k + 2..] == value;
    forall i | 0 <= i < k
      ensures line[i] == name[i]
    {
      assert line[i] == t[i];
    }
    assert line[k] == ':' && line[k + 1] == ' ';
    FindFirstAt(line, {' '}, 0, k + 1);
    var field := UpTo(line, Some(k + 1));
    FindFirstAt(field, {':'}, 0, k);
    assert line[k + 1..] == [line[k + 1]] + line[k + 2..];
  }

  /**
   * `Name: value` with a name of no spaces or colons reaches the field
   * dispatch with that name and the stripped value.
   */
  lemma FieldLine(name: string, value: string, h: Header)
    requires |name| > 0
    requires forall i :: 0 <= i < |name| ==> name[i] != ' ' && name[i] != ':'
    requires HasContent(value)
    ensures HeaderFieldOf(name + ": " + value, h) == ApplyField(name, TruncateString(value), h)
  {
    var line := name + ": " + value;
    FieldLayout(line, name, value);
    var colon := FindFirstOf(UpTo(line, FindFirstOf(line, {' '}, 0)), {':'}, 0);
    assert colon == Some(|name|);
    TruncateSkipsBlank(' ', value);
    assert FieldOf(line, colon, h) == ApplyField(name, TruncateString(value), h);
  }

  /** A field whose name is not one of the known names changes nothing. */
  lemma UnknownFieldIgnored(name: string, value: string, h: Header)
    requires |name| > 0 && name !in KNOWN_FIELDS
    requires forall i :: 0 <= i < |name| ==> name[i] != ' ' && name[i] != ':'
    requires HasContent(value)
    ensures HeaderFieldOf(name + ": " + value, h) == Returns((true, h))
  {
    FieldLine(name, value, h);
  }

  /** Where `ParseHeaderField` cuts `line = m target version`. */
  lemma StartLayout(line: string, m: string, target: string, version: string)
    requires line == m + " " + target + " " + version
    requires |m| > 0 && forall i :: 0 <= i < |m| ==> m[i] != ' '
    requires forall i :: 0 <= i < |target| ==> target[i] != ' '
    ensures FindFirstOf(line, {' '}, 0) == Some(|m|)
    ensures UpTo(line, Some(|m|)) == m
    ensures FindFirstOf(line, {' '}, |m| + 1) == Some(|m| + 1 + |target|)
    ensures line[|m| + 1..|m| + 1 + |target|] == target
    ensures line[|m| + 2 + |target|..] == version
    ensures FindFirstNotOf(line, {' '}, 0) == Some(0)
  {
    StartSlices(line, m, target, version);
    StartSpaces(line, m, target, version);
  }

  /** Where the three parts of `m target version` sit in the line. */
  lemma StartSlices(line: string, m: string, target: string, version: string)
    requires line == m + " " + target + " " + version
    ensures |line| == |m| + |target| + |version| + 2
    ensures line[..|m|] == m
    ensures line[|m| + 1..|m| + 1 + |target|] == target
    ensures line[|m| + 2 + |target|..] == version
  {
    var t2 := m + " " + target;
    assert line == (t2 + " ") + version;
    assert line[..|t2|] == t2;
    assert t2[..|m|] == m;
    assert t2[|m| + 1..] == target;
  }

  /** The two spaces of `m target version` are the first two. */
  lemma StartSpaces(line: string, m: string, target: string, version: string)
    requires line == m + " " + target + " " + version
    requires |m| > 0 && forall i :: 0 <= i < |m| ==> m[i] != ' '
    requires forall i :: 0 <= i < |target| ==> target[i] != ' '
    ensures FindFirstOf(line, {' '}, 0) == Some(|m|)
    ensures FindFirstOf(line, {' '}, |m| + 1) == Some(|m| + 1 + |target|)
    ensures FindFirstNotOf(line, {' '}, 0) == Some(0)
  {
    assert line[0] == m[0];
    assert line[|m|] == ' ' && line[|m| + 1 + |target|] == ' ';
    forall j | 0 <= j < |m|
      ensures line[j] !in {' '}
    {
      assert line[j] == m[j];
    }
    forall j | |m| + 1 <= j < |m| + 1 + |target|
      ensures line[j] !in {' '}
    {
      assert line[j] == target[j - |m| - 1];
    }
    FindFirstAt(line, {' '}, 0, |m|);
    FindFirstAt(line, {' '}, |m| + 1, |m| + 1 + |target|);
  }

  /** The start-line part of `ParseHeaderField` on `line = m target version`, for a known method `m`. */
  lemma StartLineStored(line: string, m: string, target: string, version: string, h: Header)
    requires line == m + " " + target + " " + version
    requires |m| > 0 && forall i :: 0 <= i < |m| ==> m[i] != ' ' && m[i] != ':'
    requires MethodFromStr(m) != Unknown
    requires forall i :: 0 <= i < |target| ==> target[i] != ' '
    requires UriParse.ParseVal(h.line.target, target).Returns?
    ensures |m| < |line|
    ensures FindFirstOf(line, {' '}, 0) == Some(|m|)
    ensures FindFirstOf(UpTo(line, Some(|m|)), {':'}, 0).None?
    ensures StartLineOf(line, Some(|m|), h) ==
            Returns((UriParse.ParseVal(h.line.target, target).value.ok,
                     h.(line := StartLine(MethodFromStr(m), UriParse.ParseVal(h.line.target, target).value.uri,
                                          if UriParse.ParseVal(h.line.target, target).value.ok then version
                                          else h.line.version))))
  {
    StartLayout(line, m, target, version);
    assert FindFirstOf(m, {':'}, 0).None?;
    StartTextParts(line, m, target, version);
  }

  /** `StartText` of `line = m target version`. */
  lemma StartTextParts(line: string, m: string, target: string, version: string)
    requires line == m + " " + target + " " + version
    requires |m| > 0 && forall i :: 0 <= i < |m| ==> m[i] != ' '
    requires forall i :: 0 <= i < |target| ==> target[i] != ' '
    ensures |m| < |line|
    ensures StartText(line, Some(|m|)).0 == target && StartText(line, Some(|m|)).1 == version
  {
    StartLayout(line, m, target, version);
  }

  /**
   * A start line `METHOD target version` with a known method and a target
   * without spaces stores the method and the parsed target, and the version
   * when the target parsed; the rest of the header is unchanged, and the
   * field part that runs after it ignores the line.
   */
  lemma StartLineParts(line: string, m: string, target: string, version: string, h: Header)
    requires line == m + " " + target + " " + version
    requires m in HTTP_METHODS
    requires forall i :: 0 <= i < |target| ==> target[i] != ' '
    requires UriParse.ParseVal(h.line.target, target).Returns?
    ensures HeaderFieldOf(line, h) ==
            Returns((UriParse.ParseVal(h.line.target, target).value.ok,
                     h.(line := StartLine(HTTP_METHODS[m], UriParse.ParseVal(h.line.target, target).value.uri,
                                          if UriParse.ParseVal(h.line.target, target).value.ok then version
                                          else h.line.version))))
  {
    MethodNamesPlain(m);
    StartLineStored(line, m, target, version, h);
    var p := UriParse.ParseVal(h.line.target, target).value;
    if p.ok {
      assert line[0] == m[0];
      StartFieldIgnored(line, |m|, h.(line := StartLine(HTTP_METHODS[m], p.uri, version)));
    }
  }

  /** The field part ignores a start line: with no colon its name is the whole line, which is no field name. */
  lemma StartFieldIgnored(line: string, k: nat, h: Header)
    requires 0 < k < |line| && line[0] !in BLANK && line[k] == ' '
    ensures FieldOf(line, None, h) == Returns((true, h))
  {
    SpacedNotKnown(line, k);
  }

  /** The method names are non-empty capitals: no spaces, colons, quotes. */
  lemma MethodNamesPlain(m: string)
    requires m in HTTP_METHODS
    ensures |m| > 0 && m[0] != ' ' && m[0] != '"'
    ensures forall i :: 0 <= i < |m| ==> 'A' <= m[i] <= 'Z'
  {
  }

  /** No known field name holds a space. */
  lemma SpacedNotKnown(s: string, k: nat)
    requires k < |s| && s[k] == ' '
    ensures s !in KNOWN_FIELDS
  {
  }

  /** An unknown method fails the line, leaving `kUnknown` in the header. */
  lemma UnknownMethodFails(line: string, h: Header)
    requires |line| >= 2
    requires var space := FindFirstOf(line, {' '}, 0);
             FindFirstOf(UpTo(line, space), {':'}, 0).None? && UpTo(line, space) !in HTTP_METHODS
    ensures HeaderFieldOf(line, h) == Returns((false, h.(line := h.line.(httpMethod := Unknown))))
  {
  }
}
