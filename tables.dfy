/**
 * The three static `enum_serializer::Collection` tables of
 * webapp_proto_http.cpp (HTTP methods, MIME top-level names and file
 * extensions), the lookups built on them, and the status-line table.
 */
module HttpTables {
  import opened Text
  import opened EnumSerializer

  /** `ProtocolHTTP::Method`. */
  datatype Method = Options | Get | Head | Post | Put | Delete | Trace | Connect | Unknown

  /** `Content::Type::Name`: the MIME top-level type. */
  datatype MimeName = TextType | ImageType | AudioType | VideoType | ApplicationType | MultipartType | MessageType

  /** `Content::Type`. */
  datatype ContentType = ContentType(name: MimeName, subType: string, boundary: string, charset: string)

  /** `Content::Type(name, sub_type)`, with no boundary and no charset. */
  function FileType(name: MimeName, subType: string): ContentType
  {
    ContentType(name, subType, "", "")
  }

  // ---------------------------------------------------------------------------
  // The tables.  Each founder adds pairwise distinct names, so each table maps
  // every added name to its value.

  /** `http_methods`; the first entry is spelt "OPTION". */
  const HTTP_METHODS: map<string, Method> :=
    map["OPTION" := Options, "GET" := Get, "HEAD" := Head, "POST" := Post,
        "PUT" := Put, "DELETE" := Delete, "TRACE" := Trace, "CONNECT" := Connect]

  const MIME_TYPES: map<string, MimeName> :=
    map["text" := TextType, "image" := ImageType, "audio" := AudioType, "video" := VideoType,
        "application" := ApplicationType, "multipart" := MultipartType, "message" := MessageType]

  const FILE_TYPES: map<string, ContentType> :=
    map["txt" := FileType(TextType, "plain"), "html" := FileType(TextType, "html"),
        "htm" := FileType(TextType, "html"), "css" := FileType(TextType, "css"),
        "js" := FileType(TextType, "javascript"), "json" := FileType(ApplicationType, "json"),
        "bmp" := FileType(ImageType, "bmp"), "jpeg" := FileType(ImageType, "jpeg"),
        "jpg" := FileType(ImageType, "jpeg"), "png" := FileType(ImageType, "png"),
        "svg" := FileType(ImageType, "svg+xml")]

  // ---------------------------------------------------------------------------
  // Lookups

  /** `GetMethodFromStr`: a name missing from the table is `kUnknown`. */
  function MethodFromStr(name: string): (m: Method)
    ensures m != Unknown <==> name in HTTP_METHODS
    ensures name in HTTP_METHODS ==> m == HTTP_METHODS[name]
  {
    var r := Lookup(HTTP_METHODS, name, Some(Unknown));
    if r.0 then r.1.value else Unknown
  }

  /** The table's name for "OPTIONS" is "OPTION": the standard spelling is unknown. */
  lemma OptionsIsUnknown()
    ensures MethodFromStr("OPTIONS") == Unknown
    ensures MethodFromStr("OPTION") == Options
    ensures MethodFromStr("get") == Unknown
  {
  }

  /** `GetContentTypeFromStr`: a name missing from the table is `kApplication`. */
  function MimeFromStr(name: string): (m: MimeName)
    ensures name in MIME_TYPES ==> m == MIME_TYPES[name]
    ensures name !in MIME_TYPES ==> m == ApplicationType
  {
    var r := Lookup(MIME_TYPES, name, Some(ApplicationType));
    if r.0 then r.1.value else ApplicationType
  }

  /** `mime_types.Find(name)`, the reverse lookup `SetupHeader` writes. */
  function MimeString(m: MimeName): (s: string)
    ensures s in MIME_TYPES && MIME_TYPES[s] == m
  {
    match m
    case TextType => "text"
    case ImageType => "image"
    case AudioType => "audio"
    case VideoType => "video"
    case ApplicationType => "application"
    case MultipartType => "multipart"
    case MessageType => "message"
  }

  /**
   * `MimeString` is the reverse `Find` on `mime_types`: every name maps to
   * a different value, so the first name for a value is its only one.
   */
  lemma MimeStringIsReverseFind(m: MimeName)
    ensures FirstNameFor(MIME_TYPES, m, MimeString(m))
    ensures MimeFromStr(MimeString(m)) == m
  {
    var s := MimeString(m);
    LexRefl(s);
    MimeNamesBack();
  }

  /** Every name of `mime_types` is what `MimeString` writes for its value. */
  lemma MimeNamesBack()
    ensures forall k :: k in MIME_TYPES ==> MimeString(MIME_TYPES[k]) == k
  {
  }

  /**
   * Two extensions share text/html; the reverse lookup answers the one
   * first in key order, "htm".
   */
  lemma HtmlExtension()
    ensures FirstNameFor(FILE_TYPES, FileType(TextType, "html"), "htm")
  {
    var v := FileType(TextType, "html");
    forall k | k in FILE_TYPES && FILE_TYPES[k] == v
      ensures LexLe("htm", k)
    {
      assert k == "htm" || k == "html";
      if k == "htm" {
        LexRefl("htm");
      }
    }
  }

  // ---------------------------------------------------------------------------
  // Status line

  /** The codes `GetResponseStatus` names; every other code is "Not Implemented". */
  function ReasonPhrase(code: nat): (reason: string)
    ensures code !in {200, 202, 301, 304, 400, 403, 404, 500, 505} ==> reason == "Not Implemented"
    ensures code == 200 ==> reason == "OK"
    ensures code == 404 ==> reason == "Not Found"
  {
    if code == 200 then "OK"
    else if code == 202 then "Accepted"
    else if code == 301 then "Moved Permanently"
    else if code == 304 then "Not Modified"
    else if code == 400 then "Bad Request"
    else if code == 403 then "Forbidden"
    else if code == 404 then "Not Found"
    else if code == 500 then "Internal Server Error"
    else if code == 505 then "HTTP Version Not Supported"
    else "Not Implemented"
  }

  /** `GetResponseStatus`: the code in decimal, a space, the reason phrase. */
  function ResponseStatus(code: nat): string
  {
    DecimalString(code) + " " + ReasonPhrase(code)
  }

  /** The status text starts with the code's digits, which read back as the code. */
  lemma {:induction false} StatusCodeReadsBack(code: nat)
    ensures var s := ResponseStatus(code);
            var d := DecimalString(code);
            |d| < |s| && s[..|d|] == d && s[|d|] == ' ' &&
            DigitsValue(s[..|d|]) == code
  {
    var d := DecimalString(code);
    var s := ResponseStatus(code);
    assert s[..|d|] == d;
    DecimalRoundTrip(code);
  }
}
