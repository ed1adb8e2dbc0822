# webapp HTTP engine and component facade, in Dafny

This project models the core of the C++ library `webapp` and proves properties of the model. The library has two parts:

- an incremental HTTP/1.1 request engine (`ProtocolHTTP` in `src/back-end/webapp_proto_http.cpp`);
- a component tree that a browser front end drives through JSON (`src/back-end/webapp_com*.cpp`).

It also covers the older copy of the engine in `src/back-end/webapp_lib.cpp`, as far as it differs.

## What each module holds

| module | file | source |
|---|---|---|
| `Text` | `text.dfy` | string helpers the parsers share: `find_first_of`, split and join, `UpperSymbolsToLower`, `TruncateString`, the `;`-hopping loop of the header helpers |
| `Validator` | `validator.dfy` | the character-class `Validator` and the RFC 2396 (Appendix A) alphabets |
| `Percent` | `decode.dfy` | `DecodeString` (`%XX` decoding), with the `strtol(…, 16)` step written out |
| `HttpUri` | `uri.dfy` | the `Uri` value and its scheme, authority and fragment stages |
| `UriPath` | `uri_path.dfy` | `Uri::CheckPath` |
| `UriQuery` | `uri_query.dfy` | `Uri::CheckQuery` |
| `UriParse` | `uri_parse.dfy` | `AbsoluteUri::ParseVal`: the stages joined by a short-circuit `and` |
| `EnumSerializer` | `enum_serializer.dfy` | `enum_serializer::Collection`: `Add`, `Find(name, out)` and the reverse `Find(value)` |
| `HttpTables` | `tables.dfy` | the method, MIME and file-type tables and the status lines |
| `CNumbers` | `c_numbers.dfy` | `strtoul(s, 0, 0)`, `atol` and narrowing to `int`, on decimal, octal and hex digits |
| `HttpHeader` | `header_fields.dfy` | the header-field helpers (`SplitStringToList`, `DetectContentType`, `DetectContentDisposition`, `ParseHeaderField`) |
| `FieldStorage` | `storage.dfy` | `StorageInMem`, a class over a list of segments, and the `Field` wrapper |
| `HttpRequest` | `request.dfy` | `Request::State` and the `Request` class: `ParseRequestHeader`, `FindMultipartBoundary`, `ParseMultipartRequestBody`, `ParseRequest` and the getters |
| `HttpDirectives` | `directives.dfy` | `Expires` shifts, `CacheControl`, `NumToStr` and `ETag` |
| `HttpResponse` | `response.dfy` | `SourceFromArray`/`SourceFromStream`, the `Response` class, `SetupHeader`, `SetBody` and `GetResponse` |
| `HttpRouter` | `router.dfy` | the path-segment trie `Router` |
| `HttpProtocol` | `protocol.dfy` | `HandleRequest`, `PrepareResponse` and `NeedToCloseSession` |
| `HttpLegacy` | `legacy.dfy` | the variants in `webapp_lib.cpp` that differ from the current engine, each proved against the current one |
| `Components` | `com.dfy` | `Com`, `Group`, `Process` and `Manager` of `webapp_com.cpp` |
| `ComHttp` | `com_http.dfy` | `http::Input`, the JSON `Output` builder and the `/webui` router handler |
| `ComCtl` | `com_ctl.dfy` | the table request: `ParseRequestSelect`, `ParseRequestWhere`, `Condition` and `ParseConditionType` |

## How the model is built

Code that changes state step by step is a Dafny class or method. The model follows the file's own structure:

- `StorageInMem`, `Request`, `Response`, `Source`, `Router`, `CacheControl`, `ETag`, the component `Manager`, the JSON `Output` and the table `Request` are classes.
- Their methods carry `modifies` clauses.
- Each method is proved against a function of the old state. For example, `Request.ParseRequest` computes `ParseRequestOf`, and `Response.GetResponse` computes `Read`.
- The loops of the source are methods with invariants:
  - `DecodeString`;
  - the `CheckPath`/`CheckQuery` walks;
  - the header scan;
  - the boundary scan;
  - `NumToStr`;
  - the router's URL split;
  - `ParseRequestSelect`/`ParseRequestWhere`.

Pure code is functions, with lemmas about those functions:

- the validators;
- the tables;
- the header helpers;
- `FindCom`.

The model's value types stand in for C++ objects that are copied by value: `Uri`, `Header`, `Request::State` and `Com`.

Three conventions run through the model:

- **Exceptions.** An exception the code lets escape (`std::out_of_range` from `substr` or `at` on network input) is an explicit `OutOfRange` outcome of the `Throws` datatype.
- **Machine words.** `USize` counters wrap modulo 2^32, and the boundary match counter is a `uint8_t`.
- **Outside inputs.** The clock (`now`), the rendering of `Expires`, and every callback are parameters:
  - router functors;
  - storage generators;
  - component actions;
  - the `IncludeHandler`.

Four behaviours of the code are kept exactly as written:

- **HTTP methods.** The method table spells `OPTION` (`src/back-end/webapp_proto_http.cpp:21`), so `OPTIONS` is an unknown method.
- **End of the header block.** An empty line ends the header only when its LF lies past index 2 of the current chunk (`src/back-end/webapp_proto_http.cpp:1625-1630`).
- **Boundary match counter.** When the delimiter is found, `body_last_match` is first cleared and then overwritten with the match count after the loop (`src/back-end/webapp_proto_http.cpp:1690-1698`).
- **Exceptions.** `ProtocolHTTP::ParseRequest` and `HandleRequest` have no `try` block (`src/back-end/webapp_proto_http.cpp:1773-1822`), so an `std::out_of_range` from the parsers escapes.

`ETag::Predefined` puts a non-empty value in double quotes (`src/back-end/webapp_proto_http.cpp:491-497`), as section 2.3 of RFC 7232 requires. The test at `src/test/proto_test.cpp:632-633` expects the bare value. The model follows the code, and `HttpDirectives.PredefinedIsNotVerbatim` states the conflict.

The following declaration headers are not part of this model; the model takes its types from the `.cpp` files and the tests:

- `webapp_proto_http.hpp`;
- `webapp_com.hpp`, apart from the `Group::AddCom` template at lines 137-143;
- `webapp_com_http.hpp`;
- `webapp_com_ctl.hpp`.

## Model

| member | source | states |
|---|---|---|
| Text.Lower | src/back-end/webapp_proto_http.cpp:156-167 | every ASCII upper-case letter becomes its lower-case letter, every other character is kept in place, and the length does not change |
| Text.LowerIdempotent | src/back-end/webapp_proto_http.cpp:156-167 | lowering an already lowered string changes nothing |
| Text.LowerNoUpper | src/back-end/webapp_proto_http.cpp:156-167 | a string without upper-case letters is its own lower-case form |
| Text.TruncateString | src/back-end/webapp_proto_http.cpp:896-912 | on text holding a character other than space and double quote, the result is non-empty and neither starts nor ends with a space or a double quote |
| Text.TruncateStrips | src/back-end/webapp_proto_http.cpp:896-912 | the stripped text is one contiguous slice of the input |
| Text.TruncateWithout | src/back-end/webapp_proto_http.cpp:896-912 | stripping adds no character: one absent from the input is absent from the result |
| Text.TruncateOrThrow | src/back-end/webapp_proto_http.cpp:900-904 | `substr` throws `out_of_range` exactly when the text is empty or made only of spaces and double quotes; otherwise the result is the stripped text |
| Text.TruncateIdempotent | src/back-end/webapp_proto_http.cpp:896-912 | stripping a stripped text changes nothing |
| Text.TruncatePlain | src/back-end/webapp_proto_http.cpp:896-912 | a text that neither starts nor ends with a blank is returned unchanged |
| Text.TruncateSkipsBlank | src/back-end/webapp_proto_http.cpp:900-904 | a leading space or quote does not change the stripped text |
| Text.DecimalRoundTrip | src/back-end/webapp_proto_http.cpp:1292-1321 | the decimal text written for a number (status code, content length) reads back as that number |
| Text.CollectPieces | src/back-end/webapp_proto_http.cpp:943-951 | the loop that hops from one `;` to the next returns exactly the specification `MapPieces`: each piece handed to the handler in order, the first exception ending the run |
| Text.MapPiecesSplit | src/back-end/webapp_proto_http.cpp:936-952 | the pieces the hopping loop visits are exactly the pieces of the text after the starting separator, cut at every separator, in order |
| Validator.ValidAll | src/back-end/webapp_proto_http.cpp:69-89 | the validator's result is true exactly when the handler accepts every character; the empty string is valid |
| Validator.FirstRejected | src/back-end/webapp_proto_http.cpp:73-84 | the loop stops at the first refused character: everything before it is accepted, and it reaches the end exactly when the string is valid |
| Validator.ValidConcat | src/back-end/webapp_proto_http.cpp:69-89 | a concatenation is valid exactly when both parts are |
| Validator.AlphabetInclusions | src/back-end/webapp_proto_http.cpp:96-149 | how the RFC 2396 character classes nest: port digits are host and scheme characters, host characters are segment characters, segment characters other than `;` are query characters, and hex digits and `%` pass every class built on `escaped` |
| Percent.Strtol16 | src/back-end/webapp_proto_http.cpp:1598 | `strtol(hex, 0, 16)` on two hex digits gives their value; on any two characters the result is between -15 and 255 |
| Percent.EscapeByte | src/back-end/webapp_proto_http.cpp:1598 | the cast to `char` keeps a byte; two hex digits give the byte they spell |
| Percent.DecodeString | src/back-end/webapp_proto_http.cpp:1577-1604 | the loop with its `in_hex` flag and `hex` buffer computes `Decode`: `%` restarts an escape, two further characters become one byte, other characters are copied, and an unfinished escape at the end is dropped |
| Percent.DecodeWithoutEscapes | src/back-end/webapp_proto_http.cpp:1587-1603 | text without `%` decodes to itself |
| Percent.DecodeShrinks | src/back-end/webapp_proto_http.cpp:1587-1603 | decoding never makes text longer |
| Percent.DecodeEncode | src/back-end/webapp_proto_http.cpp:1577-1604 | decoding undoes percent-encoding: every byte string written as `%XY` triples decodes back to itself |
| HttpUri.ParseScheme | src/back-end/webapp_proto_http.cpp:183-205 | the cursor moves to the first `:` or `/`; the stage succeeds exactly when the text before it uses only alphanumerics, `+`, `-` and `.`, and then the scheme is that text lower-cased; on failure the scheme is cleared; nothing else in the URI changes |
| HttpUri.LowerKeepsScheme | src/back-end/webapp_proto_http.cpp:193-203 | lower-casing before validation neither makes nor breaks a scheme |
| HttpUri.ParseAuthority | src/back-end/webapp_proto_http.cpp:217-268 | `substr` throws exactly when the `//` position (past a non-empty scheme's delimiter) is `npos` or beyond the text; otherwise scheme and path are untouched and a successful stage leaves the cursor on the text or at `npos` |
| HttpUri.UserInfoAndHost | src/back-end/webapp_proto_http.cpp:233-267 | after the `//` the stage never throws, keeps scheme and path, and a successful stage leaves the cursor on the text or at `npos` |
| HttpUri.ExplicitPortRejected | src/back-end/webapp_proto_http.cpp:248-267 | no explicit port is ever accepted: a successful authority has port `80` or none, and a host without `:` |
| HttpUri.AuthorityPrefix | src/back-end/webapp_proto_http.cpp:223-231 | `//` after the scheme starts an authority, a lone `/` is accepted as a relative reference with the cursor unchanged, anything else fails |
| HttpUri.CapTwice | src/back-end/webapp_proto_http.cpp:289-294 | moving the cursor back to `?` and then to `#` is moving it back to the earlier of the two |
| HttpUri.ParseFragment | src/back-end/webapp_proto_http.cpp:347-361 | `at` throws exactly when the cursor is past the end; a cursor on `#` makes the rest of the text the fragment when it is made of reserved, unreserved and escape characters (decoded), any other cursor leaves the fragment empty; nothing else changes |
| UriPath.ParsePath | src/back-end/webapp_proto_http.cpp:270-310 | `at` throws exactly when the cursor is past the end; scheme, authority, query and fragment are untouched; a successful stage leaves the cursor on the text or at `npos` |
| UriPath.CheckPath | src/back-end/webapp_proto_http.cpp:270-310 | the `CheckPath` loop computes `ParsePath` |
| UriPath.NextSegment | src/back-end/webapp_proto_http.cpp:288-295 | the search at the head of the loop finds the next `/`, moved back to the `?` or `#` when it lies beyond them, and the raw segment in between |
| UriPath.PathFromSplit | src/back-end/webapp_proto_http.cpp:287-308 | the cursor walk reads the path as the `/`-split of the text up to the first `?` or `#`: empty pieces are skipped, the first piece outside the segment alphabet fails the path, and the others are decoded in order |
| UriPath.SegmentsOfValidPieces | src/back-end/webapp_proto_http.cpp:287-308 | a path whose pieces are all non-empty and valid keeps exactly one decoded segment per piece, in order |
| UriPath.PathEnd | src/back-end/webapp_proto_http.cpp:282-283 | the path ends at a `?` or `#` after the cursor, or at the end of the text |
| UriPath.AtEarliest | src/back-end/webapp_proto_http.cpp:287 | testing the cursor against `?` and `#` separately is testing it against the earlier of the two |
| UriQuery.ParseQuery | src/back-end/webapp_proto_http.cpp:312-345 | `at` throws exactly when the cursor is past the end; scheme, authority, path and fragment are untouched; a successful stage leaves the cursor on the text or at `npos` |
| UriQuery.CheckQuery | src/back-end/webapp_proto_http.cpp:312-345 | the `CheckQuery` loop computes `ParseQuery` |
| UriQuery.ReadPairs | src/back-end/webapp_proto_http.cpp:325-343 | the loop from the `?` up to the `#` computes the walk `QueryFrom` pass by pass |
| UriQuery.ReadPair | src/back-end/webapp_proto_http.cpp:326-342 | one pass finds the next `&` (or stops at the `#`), validates the pair before it and, when valid, inserts its decoded key and value |
| UriQuery.DecodePair | src/back-end/webapp_proto_http.cpp:336-340 | the key is the decoded text before the first `=`, the value the decoded text after it |
| UriQuery.PairSplitsAtFirstEquals | src/back-end/webapp_proto_http.cpp:336-340 | `k=v` with no `=` in `k` splits back into decoded `k` and decoded `v` (later `=` belong to the value); a pair without `=` is both its own key and value |
| UriQuery.QueryFromSplit | src/back-end/webapp_proto_http.cpp:325-343 | the cursor walk reads the text up to the `#` as the `&`-split pairs in order, stopping with failure at the first pair outside the query alphabet |
| UriQuery.PairsKeepEarlier | src/back-end/webapp_proto_http.cpp:341 | `std::map::insert` never overwrites: keys read earlier keep their values |
| UriQuery.PairsFirstWins | src/back-end/webapp_proto_http.cpp:325-343 | when every pair is valid the walk succeeds and a key gets the value of the first pair that carries it |
| UriQuery.PairsAllValid | src/back-end/webapp_proto_http.cpp:331-335 | a query whose pairs are all valid is accepted |
| UriParse.ParseVal | src/back-end/webapp_proto_http.cpp:363-369 | the stages run in order and the first that fails or throws decides; a success has passed the scheme stage and keeps its scheme |
| UriParse.AuthorityThrows | src/back-end/webapp_proto_http.cpp:223-224 | after a valid scheme, the authority stage throws exactly on the empty text and when a non-empty scheme's delimiter is the last character |
| UriParse.ParseValThrows | src/back-end/webapp_proto_http.cpp:363-369 | parsing raises `std::out_of_range` exactly on the empty text and on a valid non-empty scheme whose delimiter ends the text (as in `http:`); every other text gets a boolean answer |
| EnumSerializer.Lookup | src/back-end/enum_serializer.hpp:30-40 | the answer is true exactly when an output is given and the name is present, and then the output holds the table's value; otherwise it is untouched |
| EnumSerializer.NameOf | src/back-end/enum_serializer.hpp:42-51 | the in-order walk returns the least name mapped to the value, or the empty string when there is none |
| EnumSerializer.FirstNameUnique | src/back-end/enum_serializer.hpp:42-51 | the reverse lookup has exactly one answer for each value |
| EnumSerializer.RoundTrip | src/back-end/enum_serializer.hpp:30-51 | looking a name up and searching its value back gives a name with the same value, and the name itself when no two names share a value |
| EnumSerializer.FoundedFirstWins | src/back-end/enum_serializer.hpp:22-28 | after the founder's `Add` calls, each name added has the value of its first `Add` |
| EnumSerializer.FoundedKeys | src/back-end/enum_serializer.hpp:22-28 | the table's names are exactly the names added |
| EnumSerializer.FoundedLacks | src/back-end/enum_serializer.hpp:22-28 | a name never added is absent |
| EnumSerializer.LexTotal | src/back-end/enum_serializer.hpp:18 | the `std::map` key order on strings is total |
| EnumSerializer.LexTrans | src/back-end/enum_serializer.hpp:18 | the key order is transitive |
| EnumSerializer.LexAntisym | src/back-end/enum_serializer.hpp:18 | the key order is antisymmetric |
| EnumSerializer.Collection.constructor | src/back-end/enum_serializer.hpp:22-24 | the new collection holds what the founder's `Add` calls insert |
| EnumSerializer.Collection.Add | src/back-end/enum_serializer.hpp:26-28 | the pair is inserted unless the name is already present |
| EnumSerializer.Collection.FindName | src/back-end/enum_serializer.hpp:42-51 | the least name mapped to the value, or the empty string |
| HttpTables.MethodFromStr | src/back-end/webapp_proto_http.cpp:886-889 | a name is a known method exactly when it is in the method table, and then it is the table's method |
| HttpTables.OptionsIsUnknown | src/back-end/webapp_proto_http.cpp:20-29 | the table spells the method `OPTION`: `OPTIONS` and lower-case names are unknown |
| HttpTables.MimeFromStr | src/back-end/webapp_proto_http.cpp:891-894 | a known MIME type name gives its type, any other name `application` |
| HttpTables.MimeString | src/back-end/webapp_proto_http.cpp:34-42 | the name written for a type is a table name mapped to that type |
| HttpTables.MimeStringIsReverseFind | src/back-end/webapp_proto_http.cpp:34-42 | that name is what the reverse `Find` answers, and it reads back as the type |
| HttpTables.MimeNamesBack | src/back-end/webapp_proto_http.cpp:34-42 | every table name is the name written for its type |
| HttpTables.HtmlExtension | src/back-end/webapp_proto_http.cpp:52-53 | `html` and `htm` share a type; the reverse lookup answers `htm`, first in key order |
| HttpTables.ReasonPhrase | src/back-end/webapp_proto_http.cpp:1252-1288 | each named code gets its phrase; every other code is `Not Implemented` |
| HttpTables.StatusCodeReadsBack | src/back-end/webapp_proto_http.cpp:1249-1290 | the status text starts with the code's decimal digits, which read back as the code, then a space and the phrase |
| CNumbers.Strtoul0 | src/back-end/webapp_proto_http.cpp:1064 | `strtoul(s, 0, 0)` always gives a value below 2^64 (overflow saturates, a negated value wraps) |
| CNumbers.Atol | src/back-end/webapp_proto_http.cpp:839 | `atol` stays within the range of a 64-bit `long` |
| CNumbers.ToInt32 | src/back-end/webapp_proto_http.cpp:833-840 | narrowing to `int` keeps every value a 32-bit `int` holds and always gives one |
| CNumbers.StrtoulReadsDecimal | src/back-end/webapp_proto_http.cpp:1064 | a length written in decimal reads back through `strtoul` |
| CNumbers.AtolReadsDecimal | src/back-end/webapp_proto_http.cpp:839 | a number written in decimal reads back through `atol` |
| CNumbers.LeadingValueOfDigits | src/back-end/webapp_proto_http.cpp:839 | reading digits left to right gives their decimal value |
| HttpHeader.DefaultHeader | src/back-end/webapp_proto_http.cpp:762-780 | a fresh header is incomplete, with content length 0 and no disposition name |
| HttpHeader.SplitStringToList | src/back-end/webapp_proto_http.cpp:914-930 | the loop computes `SplitList`: the value cut at every comma after the first character, each piece stripped, a blank piece throwing |
| HttpHeader.SplitListSingle | src/back-end/webapp_proto_http.cpp:914-930 | a value without a comma after its first character is one stripped item |
| HttpHeader.SplitListJoined | src/back-end/webapp_proto_http.cpp:914-930 | items written with `, ` between them come back stripped, in order |
| HttpHeader.ListPieces | src/back-end/webapp_proto_http.cpp:923-928 | the loop always produces at least one piece |
| HttpHeader.ListFirstPiece | src/back-end/webapp_proto_http.cpp:924-926 | the first search starts at index 1, so the first piece runs up to the first comma after index 0 |
| HttpHeader.ParamOf | src/back-end/webapp_proto_http.cpp:944-949 | a parameter's name is the stripped text before its first `=` (so it holds no `=` when there is one) |
| HttpHeader.ParamSplits | src/back-end/webapp_proto_http.cpp:944-950 | `name=value` with a name free of `=` splits back into the stripped name and value |
| HttpHeader.NameBeforeEquals | src/back-end/webapp_proto_http.cpp:947-948 | the stripped text before the first `=` holds no `=` |
| HttpHeader.DetectParameters | src/back-end/webapp_proto_http.cpp:936-952 | the loop computes `Params`: the `(name, value)` pairs the handler is called with, in order, from the given `;` |
| HttpHeader.TypeParams | src/back-end/webapp_proto_http.cpp:968-981 | the `Content-Type` handler never changes the type name or subtype |
| HttpHeader.BoundaryKept | src/back-end/webapp_proto_http.cpp:968-981 | without a `boundary` parameter the boundary keeps its old value |
| HttpHeader.BoundaryIsLast | src/back-end/webapp_proto_http.cpp:968-981 | otherwise it is the value of the last `boundary` parameter |
| HttpHeader.DetectContentType | src/back-end/webapp_proto_http.cpp:954-983 | the method computes `ContentTypeOf` |
| HttpHeader.TypeText | src/back-end/webapp_proto_http.cpp:960-966 | the parameters start at a `;` of the value |
| HttpHeader.TypeWithParam | src/back-end/webapp_proto_http.cpp:954-983 | `name/sub;p` gives the type named by `name`, the lower-cased subtype, and `p` applied as the one parameter |
| HttpHeader.TypeWithBoundary | src/back-end/webapp_proto_http.cpp:954-983 | `name/sub; boundary=b` gives the named type, the lower-cased subtype and the stripped boundary `b` |
| HttpHeader.DispositionParams | src/back-end/webapp_proto_http.cpp:994-1007 | the `Content-Disposition` handler never changes the disposition type |
| HttpHeader.DetectContentDisposition | src/back-end/webapp_proto_http.cpp:985-1009 | the method computes `DispositionOf` |
| HttpHeader.StartLineOf | src/back-end/webapp_proto_http.cpp:1024-1035 | the method of a start line is looked up and stored before anything else, and a line accepted as a start line has a known method; header completeness is untouched |
| HttpHeader.ApplyField | src/back-end/webapp_proto_http.cpp:1040-1076 | an unknown field name changes nothing; a known one never touches the start line or completeness; `Content-Disposition` never fails |
| HttpHeader.FieldOf | src/back-end/webapp_proto_http.cpp:1037-1039 | the field part never touches the start line or completeness |
| HttpHeader.HeaderFieldOf | src/back-end/webapp_proto_http.cpp:1011-1077 | a line shorter than two characters is accepted and changes nothing; no line changes header completeness |
| HttpHeader.FieldLine | src/back-end/webapp_proto_http.cpp:1020-1039 | `Name: value` with a name free of spaces and colons reaches the field dispatch with that name and the stripped value |
| HttpHeader.UnknownFieldIgnored | src/back-end/webapp_proto_http.cpp:1076 | a field whose name is not a known one changes nothing |
| HttpHeader.StartLineParts | src/back-end/webapp_proto_http.cpp:1020-1035 | `METHOD target version` with a known method stores the method, the parsed target and (when the target parsed) the version, and the field part that follows ignores the line |
| HttpHeader.StartLineStored | src/back-end/webapp_proto_http.cpp:1024-1035 | the start-line part of `METHOD target version` stores the method, the parsed target and the version |
| HttpHeader.StartFieldIgnored | src/back-end/webapp_proto_http.cpp:1037-1039 | a line without a colon is no known field and is ignored by the field part |
| HttpHeader.UnknownMethodFails | src/back-end/webapp_proto_http.cpp:1025-1028 | an unknown method fails the line, leaving `kUnknown` in the header and nothing else changed |
| HttpHeader.MethodNamesPlain | src/back-end/webapp_proto_http.cpp:20-29 | the method names are non-empty upper-case words |
| FieldStorage.EmptyStore | src/back-end/webapp_proto_http.cpp:699-702 | a new storage is consistent and empty |
| FieldStorage.AppendAddsBytes | src/back-end/webapp_proto_http.cpp:676-679 | an append adds exactly its bytes at the end and keeps the 32-bit counter equal to the byte count modulo 2^32 |
| FieldStorage.AppendAllBytes | src/back-end/webapp_proto_http.cpp:671-688 | after any run of appends to an empty storage the read-out is their concatenation and `Size()` their total length modulo 2^32 |
| FieldStorage.ConcatSnoc | src/back-end/webapp_proto_http.cpp:738-741 | reading one more segment adds its bytes at the end |
| FieldStorage.StorageInMem.constructor | src/back-end/webapp_proto_http.cpp:699-702 | a new in-memory storage is empty |
| FieldStorage.StorageInMem.Copy | src/back-end/webapp_proto_http.cpp:708-712 | the copy holds the source's bytes and counter |
| FieldStorage.StorageInMem.Size | src/back-end/webapp_proto_http.cpp:719-721 | the counter is the number of stored bytes modulo 2^32 |
| FieldStorage.StorageInMem.Clear | src/back-end/webapp_proto_http.cpp:723-725 | the storage is empty again |
| FieldStorage.StorageInMem.Append | src/back-end/webapp_proto_http.cpp:727-731 | always succeeds; the stored bytes grow by exactly the data |
| FieldStorage.StorageInMem.AssignFrom | src/back-end/webapp_proto_http.cpp:681-688 | as written: another source is copied, but assigning a storage to itself empties it |
| FieldStorage.StorageInMem.Assign | src/back-end/webapp_proto_http.cpp:714-717 | assignment as intended: afterwards the storage holds the source's old contents, itself included |
| FieldStorage.StorageInMem.ReadOut | src/back-end/webapp_proto_http.cpp:733-760 | the read-out is every segment's bytes in order, and its length is `Size()` while below 2^32 |
| FieldStorage.FieldSize | src/back-end/webapp_proto_http.cpp:591-596 | a null field has size 0, any other its storage's counter |
| FieldStorage.FieldAppend | src/back-end/webapp_proto_http.cpp:629-634 | an append succeeds exactly when the field holds a storage, and a null field is unchanged |
| FieldStorage.FieldClear | src/back-end/webapp_proto_http.cpp:598-603 | a null field is unchanged; another has an empty storage of the same name |
| FieldStorage.UseStorage | src/back-end/webapp_proto_http.cpp:613-619 | a missing storage is refused and leaves the field as it was; another replaces the field's storage |
| FieldStorage.StorageName | src/back-end/webapp_proto_http.cpp:621-627 | a null field has the empty storage name |
| FieldStorage.FieldText | src/back-end/webapp_proto_http.cpp:532-537 | no value exactly for a null field; otherwise the stored bytes as characters |
| FieldStorage.FieldAppendRead | src/back-end/webapp_proto_http.cpp:532-537 | after an append, a field with a storage reads its old bytes followed by the data; a null field still has no value and size 0 |
| HttpRequest.NewState | src/back-end/webapp_proto_http.cpp:762-768 | a new request state has an incomplete header, an incomplete body and zero counters |
| HttpRequest.ScanWith | src/back-end/webapp_proto_http.cpp:1615-1647 | the scan stops within the chunk; at the end of data the pending line is at most 512 characters, on a blank line the pending line is emptied and the header is complete exactly when that LF lies past index 2, an over-long line stops the scan with 513 characters; only a blank line changes completeness |
| HttpRequest.HeaderChunk | src/back-end/webapp_proto_http.cpp:1606-1652 | `ParseRequestHeader` returns an offset within the chunk and leaves the body counters alone |
| HttpRequest.UnfinishedLineSaved | src/back-end/webapp_proto_http.cpp:1615-1650 | a chunk without LF that keeps the line within 512 characters is consumed whole: its non-CR bytes join the pending line and the header is untouched |
| HttpRequest.ScanConcat | src/back-end/webapp_proto_http.cpp:1611-1650 | when a chunk runs out mid-header, scanning it together with the next goes on from where the first scan stopped, with its pending line and header |
| HttpRequest.ScanShift | src/back-end/webapp_proto_http.cpp:1615-1647 | scanning a chunk on its own sees the same bytes as scanning it after another: same outcome, offset shifted by the first chunk's length |
| HttpRequest.JointScan | src/back-end/webapp_proto_http.cpp:1606-1652 | when the first chunk runs out mid-header and the second completes it, scanning both together stops at the same place in the second chunk with the same header |
| HttpRequest.HeaderInTwoChunks | src/back-end/webapp_proto_http.cpp:1606-1652 | a header cut into two chunks inside the header gives the same state as one chunk whenever the second chunk completes it |
| HttpRequest.BlankLineAtChunkStart | src/back-end/webapp_proto_http.cpp:1624-1634 | a blank line at the very start of a chunk ends the scan without completing the header, even when earlier lines came in the previous chunk |
| HttpRequest.Delimiter | src/back-end/webapp_proto_http.cpp:1674 | the delimiter is `--`, the boundary and CRLF |
| HttpRequest.MatchFrom | src/back-end/webapp_proto_http.cpp:1678-1697 | a hit lies within the chunk and brings the 8-bit counter to the delimiter's length; a delimiter of 256 characters or more is never found |
| HttpRequest.MatchSound | src/back-end/webapp_proto_http.cpp:1678-1697 | a hit is only reported where the delimiter really ends |
| HttpRequest.DelimiterFound | src/back-end/webapp_proto_http.cpp:1678-1697 | counting from zero, the bytes ending at a hit are the delimiter's characters |
| HttpRequest.ExtraDashMissed | src/back-end/webapp_proto_http.cpp:1680-1684 | the counter does not backtrack: `---b` CRLF holds the delimiter of boundary `b`, yet no hit is reported |
| HttpRequest.WithField | src/back-end/webapp_proto_http.cpp:1661-1673 | a part with a name gets a field in `fields_post`, with a storage from the generator or else a new in-memory one |
| HttpRequest.FindBoundary | src/back-end/webapp_proto_http.cpp:1654-1703 | an empty boundary changes nothing; otherwise a non-empty chunk is never left unconsumed; the body counters are untouched |
| HttpRequest.BoundaryMissAppendsChunk | src/back-end/webapp_proto_http.cpp:1698-1702 | with no delimiter in the chunk the whole chunk is consumed and added to the part's field |
| HttpRequest.BoundaryHitOffset | src/back-end/webapp_proto_http.cpp:1686-1696 | a delimiter ending at `j` gives the offset past it and marks the boundary found |
| HttpRequest.BoundaryHitAppendsPrefix | src/back-end/webapp_proto_http.cpp:1687-1689 | a delimiter ending at `j` adds to the part's field the bytes before the CRLF that precedes it |
| HttpRequest.BoundaryHitAppendsNothing | src/back-end/webapp_proto_http.cpp:1687-1689 | a delimiter at the start of the chunk adds nothing |
| HttpRequest.AppendToBytes | src/back-end/webapp_proto_http.cpp:629-634 | appending to a field with a storage adds exactly the data |
| HttpRequest.HeaderPass | src/back-end/webapp_proto_http.cpp:1741-1748 | the header half of a pass stays within the chunk, never breaks the loop, and leaves the body counters alone |
| HttpRequest.MultipartStep | src/back-end/webapp_proto_http.cpp:1723-1749 | as written: one pass of the loop stays within the chunk and leaves the body counters alone |
| HttpRequest.LongPartLineStalls | src/back-end/webapp_proto_http.cpp:1741-1748 | inside a part header whose pending line already holds 512 characters, a pass over a byte other than CR or LF consumes nothing and returns to the same conditions, so the `while` loop never ends |
| HttpRequest.MultipartLoop | src/back-end/webapp_proto_http.cpp:1723-1749 | the corrected loop, where a pass that consumes nothing ends the chunk, stays within the chunk |
| HttpRequest.MultipartConsumesChunk | src/back-end/webapp_proto_http.cpp:1723-1749 | with a non-empty boundary the corrected loop consumes the whole chunk |
| HttpRequest.MultipartBody | src/back-end/webapp_proto_http.cpp:1714-1756 | the request header is put back after the loop, and the body completes only when the 32-bit count equals Content-Length |
| HttpRequest.ChunkCounted | src/back-end/webapp_proto_http.cpp:1750-1754 | the body count grows by the consumed bytes modulo 2^32, and the body is complete once the count equals Content-Length |
| HttpRequest.MultipartCountsChunk | src/back-end/webapp_proto_http.cpp:1714-1756 | with a non-empty boundary the body count grows by the chunk's length, modulo 2^32 |
| HttpRequest.RequestBody | src/back-end/webapp_proto_http.cpp:1758-1771 | a body that is not multipart leaves the state unchanged |
| HttpRequest.ParseRequestOf | src/back-end/webapp_proto_http.cpp:1773-1793 | an empty chunk is refused and changes nothing; any other chunk is accepted |
| HttpRequest.BodyCompletion | src/back-end/webapp_proto_http.cpp:1786-1791 | a complete body stays complete, and a body becomes complete only through Content-Length 0 or a byte count equal to Content-Length |
| HttpRequest.PlainBodyNeverCompletes | src/back-end/webapp_proto_http.cpp:1758-1771 | a non-multipart body with non-zero Content-Length never completes: once the header is complete, further chunks change nothing |
| HttpRequest.ZeroLengthCompletes | src/back-end/webapp_proto_http.cpp:1786-1788 | Content-Length 0 completes the request as soon as its header is complete |
| HttpRequest.Get | src/back-end/webapp_proto_http.cpp:812-820 | a name missing from the target's query reads as the empty string |
| HttpRequest.GetOr | src/back-end/webapp_proto_http.cpp:822-830 | the default replaces exactly a missing or empty value |
| HttpRequest.GetInt | src/back-end/webapp_proto_http.cpp:832-840 | an empty value gives the default, any other `atol` of it narrowed to 32 bits |
| HttpRequest.GetInt64 | src/back-end/webapp_proto_http.cpp:842-850 | an empty value gives the default, any other a value in the 64-bit range |
| HttpRequest.GetBool | src/back-end/webapp_proto_http.cpp:862-870 | an empty value gives the default; otherwise the answer is true exactly for the whole value `true` |
| HttpRequest.Post | src/back-end/webapp_proto_http.cpp:872-879 | the posted field of that name, present exactly when the name is in `fields_post` |
| HttpRequest.Request.constructor | src/back-end/webapp_proto_http.cpp:782-784 | a new request holds a new state and no storage generator |
| HttpRequest.Request.UseStorageGenerator | src/back-end/webapp_proto_http.cpp:803-806 | only the generator changes |
| HttpRequest.Request.ResetState | src/back-end/webapp_proto_http.cpp:881-884 | the state is new again, generator included |
| HttpRequest.Request.ParseRequestHeader | src/back-end/webapp_proto_http.cpp:1606-1652 | the loop computes `HeaderChunk`: the offset and the new state, or the exception |
| HttpRequest.Request.FindMultipartBoundary | src/back-end/webapp_proto_http.cpp:1654-1703 | the counting loop computes `FindBoundary`: the offset and the new state |
| HttpRequest.Request.MultipartPass | src/back-end/webapp_proto_http.cpp:1724-1748 | one pass of the loop body computes `MultipartStep` |
| HttpRequest.Request.PartHeaderPass | src/back-end/webapp_proto_http.cpp:1741-1748 | the header half of a pass computes `HeaderPass` |
| HttpRequest.Request.MultipartChunk | src/back-end/webapp_proto_http.cpp:1722-1749 | the corrected `while` loop computes `MultipartLoop` |
| HttpRequest.Request.ParseMultipartRequestBody | src/back-end/webapp_proto_http.cpp:1714-1756 | computes `MultipartBody` (with the corrected loop) |
| HttpRequest.Request.ParseRequestBody | src/back-end/webapp_proto_http.cpp:1758-1771 | computes `RequestBody` |
| HttpRequest.Request.ParseRequest | src/back-end/webapp_proto_http.cpp:1773-1793 | computes `ParseRequestOf`: the answer and the new state |
| HttpDirectives.ShiftHours | src/back-end/webapp_proto_http.cpp:405-418 | an hour shift adds its count; day and week shifts add 24 and 168 hours per unit while the product fits in 32 bits, and the product always wraps below 2^32 |
| HttpDirectives.ShiftedAddsTotal | src/back-end/webapp_proto_http.cpp:405-418 | a chain of shifts adds the sum of its hours |
| HttpDirectives.ShiftsCommute | src/back-end/webapp_proto_http.cpp:405-418 | the order of two chains of shifts does not matter |
| HttpDirectives.ShiftSequence | src/back-end/webapp_proto_http.cpp:405-418 | one hour, one day, one week, one hour and one day add 218 hours |
| HttpDirectives.DayCountWraps | src/back-end/webapp_proto_http.cpp:410-413 | a day count whose hours exceed 32 bits wraps: 178956971 days add 8 hours |
| HttpDirectives.PushJoins | src/back-end/webapp_proto_http.cpp:431-439 | an empty directive is dropped; any other joins the list after `, ` |
| HttpDirectives.CacheControl.Reset | src/back-end/webapp_proto_http.cpp:441-444 | the directive list is empty again |
| HttpDirectives.CacheControl.Push | src/back-end/webapp_proto_http.cpp:431-439 | the text stays the `, `-join of the non-empty directives pushed so far |
| HttpDirectives.CacheControl.MaxAge | src/back-end/webapp_proto_http.cpp:446-451 | one more directive, `max-age=` and the seconds in decimal |
| HttpDirectives.CacheControl.NoStore | src/back-end/webapp_proto_http.cpp:453-456 | one more directive, `no-store` |
| HttpDirectives.CacheControl.NoCache | src/back-end/webapp_proto_http.cpp:458-461 | one more directive, `no-cache` |
| HttpDirectives.CacheControl.MustRevalidate | src/back-end/webapp_proto_http.cpp:463-466 | one more directive, `must-revalidate` |
| HttpDirectives.NoCacheNoStore | src/back-end/webapp_proto_http.cpp:441-461 | `Reset().NoCache().NoStore()` gives `no-cache, no-store` |
| HttpDirectives.PredefinedTag | src/back-end/webapp_proto_http.cpp:491-497 | a non-empty value is wrapped in double quotes; the empty one stays empty |
| HttpDirectives.PredefinedIsNotVerbatim | src/back-end/webapp_proto_http.cpp:491-497 | a non-empty predefined tag never equals the bare value |
| HttpDirectives.NumToStr | src/back-end/webapp_proto_http.cpp:472-483 | the do-while loop writes the decimal digits of a 32-bit number least significant first |
| HttpDirectives.NumToStrReadsBack | src/back-end/webapp_proto_http.cpp:472-483 | reversing that text gives digits that read back as the number |
| HttpDirectives.ReversedTwice | src/back-end/webapp_proto_http.cpp:472-483 | reversing twice gives the text back |
| HttpDirectives.ETag.Predefined | src/back-end/webapp_proto_http.cpp:491-497 | the tag becomes the quoted value, or empty for an empty value |
| HttpDirectives.ETag.Random | src/back-end/webapp_proto_http.cpp:485-489 | the tag is the seconds and microseconds, each with its digits reversed, in double quotes |
| HttpResponse.FromCharsToChars | src/back-end/webapp_proto_http.cpp:1120-1162 | bytes read as characters and written back are the same bytes |
| HttpResponse.Source.constructor | src/back-end/webapp_proto_http.cpp:1164-1167 | a new source holds its bytes with nothing read |
| HttpResponse.Source.Remaining | src/back-end/webapp_proto_http.cpp:1172-1174 | no bytes remain exactly when the source is not available |
| HttpResponse.Source.ReadSome | src/back-end/webapp_proto_http.cpp:1180-1189 | a read hands out the next `min(max, left)` bytes and removes them from what remains |
| HttpResponse.Take | src/back-end/webapp_proto_http.cpp:1184-1185 | a read takes `max` bytes, or everything left when that is less |
| HttpResponse.HeaderForText | src/back-end/webapp_proto_http.cpp:1208-1220 | text, `html` and `utf-8` unless given, expiring an hour from now |
| HttpResponse.HeaderForImage | src/back-end/webapp_proto_http.cpp:1222-1236 | `image/<format>`, or `application/octet-stream` without a format, expiring an hour from now |
| HttpResponse.HeaderForJson | src/back-end/webapp_proto_http.cpp:1238-1247 | `application/json`, expiring now |
| HttpResponse.HeadLines | src/back-end/webapp_proto_http.cpp:1299-1317 | four to six lines: the status line first, Content-Length third with the length in decimal, Cache-Control and ETag only when set |
| HttpResponse.HeadTextLayout | src/back-end/webapp_proto_http.cpp:1299-1318 | the header text starts with the status line and ends with an empty line |
| HttpResponse.JsonHeadLines | src/back-end/webapp_proto_http.cpp:1299-1317 | the header of a 32-byte JSON reply, line by line |
| HttpResponse.Setup | src/back-end/webapp_proto_http.cpp:1292-1321 | the header is set up only once, and setting it up does not change what will be sent |
| HttpResponse.ReadDrains | src/back-end/webapp_proto_http.cpp:1795-1811 | each read takes a prefix of at most `max` bytes of what is pending and is empty only when nothing is pending: header text, then body, then nothing |
| HttpResponse.FirstReadIsHeader | src/back-end/webapp_proto_http.cpp:1801-1806 | the first read hands out the beginning of the header text |
| HttpResponse.BodyHeader | src/back-end/webapp_proto_http.cpp:1356-1362 | a still-404 response becomes 200 text/html; the Content-Length is the body's size modulo 2^32, as the `USize` field stores it |
| HttpResponse.FreshTextBody | src/back-end/webapp_proto_http.cpp:1356-1363 | a new response given a text body sends 200, a text/html header whose Content-Length is the body's size modulo 2^32, then the body |
| HttpResponse.HeaderFixedOnceSetUp | src/back-end/webapp_proto_http.cpp:1293-1295 | once the header is set up, a new status or header no longer changes what is sent |
| HttpResponse.Response.constructor | src/back-end/webapp_proto_http.cpp:1191-1202 | a new response is 404 with a default header and no sources |
| HttpResponse.Response.SetupHeader | src/back-end/webapp_proto_http.cpp:1292-1321 | computes `Setup`; the body source is untouched |
| HttpResponse.Response.SetStatus | src/back-end/webapp_proto_http.cpp:1335-1338 | the status and the default text header are set; the sources are untouched |
| HttpResponse.Response.SetHeader | src/back-end/webapp_proto_http.cpp:1340-1343 | the status and the header are set; the sources are untouched |
| HttpResponse.Response.SetHeaderForType | src/back-end/webapp_proto_http.cpp:1345-1354 | a known file extension sets 200 with that type; anything else changes nothing |
| HttpResponse.Response.SetBody | src/back-end/webapp_proto_http.cpp:1356-1363 | computes `WithTextBody`: a still-404 response becomes 200 text/html, the Content-Length is the size modulo 2^32, and the header is set up |
| HttpResponse.Response.SetBodyStream | src/back-end/webapp_proto_http.cpp:1365-1374 | computes `WithStreamBody`: a null stream sets no body and keeps the length; otherwise the Content-Length is the size modulo 2^32 |
| HttpResponse.Response.SetBodyData | src/back-end/webapp_proto_http.cpp:1376-1381 | computes `WithDataBody`: the status stays as it is, and the data, whose size fits a `USize`, is the body and its size the Content-Length |
| HttpResponse.Response.ResetState | src/back-end/webapp_proto_http.cpp:1397-1400 | the response is new again |
| HttpResponse.Response.Perform | src/back-end/webapp_proto_http.cpp:1335-1381 | one call a handler asked for, as `AfterCall` |
| HttpResponse.Response.PerformAll | src/back-end/webapp_proto_http.cpp:1335-1381 | the calls a handler asked for, in order |
| HttpResponse.Response.GetResponse | src/back-end/webapp_proto_http.cpp:1795-1811 | computes `Read`: the header is set up if needed, then header bytes, then body bytes |
| HttpRouter.Functor.constructor | src/back-end/webapp_proto_http.cpp:1402-1404 | the functor keeps the callback it is given, which may be null |
| HttpRouter.Functor.Call | src/back-end/webapp_proto_http.cpp:1409-1416 | a null callback answers false and makes no call on the response; otherwise the callback's answer |
| HttpRouter.PartsFrom | src/back-end/webapp_proto_http.cpp:1476-1498 | a registration URL always gives at least one segment |
| HttpRouter.UrlParts | src/back-end/webapp_proto_http.cpp:1476-1498 | a non-empty URL always gives at least one segment |
| HttpRouter.SplitUrl | src/back-end/webapp_proto_http.cpp:1481-1498 | the do-while loop over `find_first_of('/')` yields exactly `UrlParts(url)` |
| HttpRouter.PartsShape | src/back-end/webapp_proto_http.cpp:1485-1491 | no segment holds a `/`, and every segment but the last has at least 2 characters |
| HttpRouter.PartsExamples | src/back-end/webapp_proto_http.cpp:1476-1498 | `/node0/node1` gives `node0` and `node1` |
| HttpRouter.ShortPartDropped | src/back-end/webapp_proto_http.cpp:1488-1490 | a one-character segment before the last is skipped: `/a/bc` gives only `bc` |
| HttpRouter.SlashIsEmptySegment | src/back-end/webapp_proto_http.cpp:1481-1498 | `/` registers one empty segment, not the root of the trie |
| HttpRouter.AddAtSpec | src/back-end/webapp_proto_http.cpp:1491-1503 | registration succeeds exactly when no handler sits at the path; then the path leads to the new handler, otherwise the trie is unchanged |
| HttpRouter.NodeAtEmpty | src/back-end/webapp_proto_http.cpp:1435-1437 | a new router's trie has only its root |
| HttpRouter.SecondAddFails | src/back-end/webapp_proto_http.cpp:1499-1503 | a second registration at the same URL fails and keeps the first handler |
| HttpRouter.Route | src/back-end/webapp_proto_http.cpp:1459-1471 | the walk matches at most the whole path, and with nothing matched there is no handler |
| HttpRouter.RouteIsDeepestMatch | src/back-end/webapp_proto_http.cpp:1459-1471 | the walk stops at the deepest node on the path: its handler (which may be null) is the answer and the next segment is not among its children |
| HttpRouter.AddedIsRouted | src/back-end/webapp_proto_http.cpp:1456-1503 | after a registration, the walk along its own segments reaches the new handler and matches them all |
| HttpRouter.SelectPath | src/back-end/webapp_proto_http.cpp:1451-1455 | the request path, or the root path when the request path is empty |
| HttpRouter.UnmatchedIsRefused | src/back-end/webapp_proto_http.cpp:1472-1474 | a path whose first segment the trie does not know is answered false with no calls on the response |
| HttpRouter.Router.constructor | src/back-end/webapp_proto_http.cpp:1435-1437 | a new router has an empty trie and no root path |
| HttpRouter.Router.WithRoot | src/back-end/webapp_proto_http.cpp:1439-1444 | the root path is the path `Uri::ParseVal` leaves, whether the parse succeeded or not |
| HttpRouter.Router.AddHandlerFor | src/back-end/webapp_proto_http.cpp:1476-1504 | the trie and the answer are `AddAt` of the URL's segments; the root path is kept |
| HttpRouter.Router.CallHandlerFor | src/back-end/webapp_proto_http.cpp:1456-1475 | the deepest handler on the selected path gets the unmatched rest of the path |
| HttpProtocol.Answer | src/back-end/webapp_proto_http.cpp:1816-1819 | a handler that answers false leaves 404 with the default text header |
| HttpProtocol.Handle | src/back-end/webapp_proto_http.cpp:1813-1822 | the parse decides the exception and the new request; more bytes are wanted exactly when the parse succeeded and the request is not complete; an incomplete request leaves the response alone |
| HttpProtocol.UnroutedRequestGets404 | src/back-end/webapp_proto_http.cpp:1813-1822 | a complete request whose path the router does not know gets 404 with the default header, whatever the response held before |
| HttpProtocol.Protocol.constructor | src/back-end/webapp_proto_http.cpp:1568-1571 | a new protocol has a fresh request and a fresh 404 response and does not want to close |
| HttpProtocol.Protocol.HandleRequest | src/back-end/webapp_proto_http.cpp:1813-1822 | computes `Handle` on the request and response it holds |
| HttpProtocol.Protocol.PrepareResponse | src/back-end/webapp_proto_http.cpp:1824-1832 | hands out the next response bytes; when there are none, resets request and response and marks the session for closing |
| HttpLegacy.DropEmpty | src/back-end/webapp_lib.cpp:309-326 | no piece left is empty |
| HttpLegacy.CurrentDropsEmptyPieces | src/back-end/webapp_lib.cpp:309-326 | the current path reading is the legacy one with the empty pieces taken out first |
| HttpLegacy.LegacyOneSegmentPerPiece | src/back-end/webapp_lib.cpp:309-326 | when every piece is a valid segment, the legacy path holds one decoded segment per piece, empty ones included |
| HttpLegacy.LegacyParsePath | src/back-end/webapp_lib.cpp:292-329 | the legacy path reading throws exactly when the current one does |
| HttpLegacy.PathsDifferByEmptySegments | src/back-end/webapp_lib.cpp:292-329 | both copies cut the same text into the same pieces; the current one reads them as the legacy one reads the non-empty ones |
| HttpLegacy.RootPathIsOneEmptySegment | src/back-end/webapp_lib.cpp:309-326 | a path of one `/` is one empty segment in the legacy copy and no segment now |
| HttpLegacy.LegacyUserInfoAndHost | src/back-end/webapp_lib.cpp:254-290 | the legacy authority reading keeps the scheme and path it was given |
| HttpLegacy.HostStart | src/back-end/webapp_lib.cpp:254-266 | the host starts at or after the `//` and within the text |
| HttpLegacy.PortEnd | src/back-end/webapp_lib.cpp:273-274 | the port text ends at or after its `:` and within the text |
| HttpLegacy.HostPortRejectsColon | src/back-end/webapp_lib.cpp:268-289 | any `:` after the host start fails the legacy host and port |
| HttpLegacy.LegacyRejectsAnyColon | src/back-end/webapp_lib.cpp:241-291 | any `:` after the host start fails the legacy authority, even one in the path or the query |
| HttpLegacy.AuthoritiesAgreeWithoutColon | src/back-end/webapp_lib.cpp:241-291 | without a `:` after the host start both copies accept the same authorities and read the same host and cursor |
| HttpLegacy.ColonInPathExample | src/back-end/webapp_lib.cpp:268-289 | `h/a:b` fails the legacy authority; the current copy reads host `h` and port `80` |
| HttpLegacy.LegacyHeaderFieldOf | src/back-end/webapp_lib.cpp:874-940 | a line shorter than 2 characters changes nothing and asks for more |
| HttpLegacy.LegacyFieldOf | src/back-end/webapp_lib.cpp:883-897 | a field line never changes the start line |
| HttpLegacy.LegacyApplyField | src/back-end/webapp_lib.cpp:849-872 | the legacy field dispatch sets the same header as the current one and throws when it does; only a disposition's answer is whatever the function without a return statement hands back |
| HttpLegacy.FieldPartsAgree | src/back-end/webapp_lib.cpp:883-897 | where the disposition answers true the field parts of both copies agree |
| HttpLegacy.FieldParsersAgree | src/back-end/webapp_lib.cpp:874-940 | where the line's first `:` lies in its first word, or there is none, both copies agree |
| HttpLegacy.ColonInTargetSkipsStartLine | src/back-end/webapp_lib.cpp:883-897 | a start line whose target holds a `:` is taken by the legacy copy for a header field and leaves method, target and version as they were; the current copy reads it as a start line |
| HttpLegacy.LegacyGetOr | src/back-end/webapp_lib.cpp:721-735 | the default only for a missing key; otherwise the stored value, even an empty one |
| HttpLegacy.GetDiffersOnEmptyValue | src/back-end/webapp_lib.cpp:721-735 | the two copies of `Get` differ exactly on a key present with an empty value and a non-empty default |
| HttpLegacy.LegacyHeadIsCurrentPrefix | src/back-end/webapp_lib.cpp:1145-1164 | the legacy header lines are the first four current ones, and all of them without Cache-Control and ETag |
| HttpLegacy.LegacySetup | src/back-end/webapp_lib.cpp:1145-1164 | the legacy header is set up only once and keeps status, header and body |
| HttpLegacy.SetupsAgreeWithoutDirectives | src/back-end/webapp_lib.cpp:1145-1164 | without Cache-Control and ETag the legacy set-up sends what the current one sends |
| HttpLegacy.TypedBodyHeader | src/back-end/webapp_lib.cpp:1184-1197 | a still-404 response with a known extension becomes 200 with that type; the data, whose size fits a `USize`, is the body and its size the Content-Length |
| HttpLegacy.LegacyIsRootless | src/back-end/webapp_lib.cpp:1257-1275 | the legacy router is the current one without a root URL, and agrees with any current router on a non-empty path |
| HttpLegacy.LegacyEmptyPathRefused | src/back-end/webapp_lib.cpp:1257-1275 | an empty request path reaches no handler in the legacy router |
| Components.StatusName | src/back-end/webapp_com.cpp:124-128 | every status has one of the names `in work`, `finished`, `error` |
| Components.QuietProcess | src/back-end/webapp_com.cpp:105-106 | `Process()` is finished, at progress 0, with nothing to report |
| Components.ReportedProcess | src/back-end/webapp_com.cpp:108-121 | the other two process constructors keep status, message and progress and mark the process for the next publication |
| Components.PublishProcess | src/back-end/webapp_com.cpp:123-138 | the progress is clamped to 100 in the process itself; it is written only when positive, and the status name and the message always close the output |
| Components.PublishProcessTwice | src/back-end/webapp_com.cpp:129-131 | publishing the published process again writes the same items and changes it no more |
| Components.PlainCom | src/back-end/webapp_com.cpp:140-143 | a new component keeps its name and type and has no actions and a quiet process |
| Components.CustomCom | src/back-end/webapp_com.cpp:140-143 | the same for a class that publishes its own attributes |
| Components.Group | src/back-end/webapp_com.cpp:50-51 | a group is a component of type `group` with no children |
| Components.Child | src/back-end/webapp_com.cpp:63-66 | the lookup finds a child exactly when its name is among the keys |
| Components.SetChild | src/back-end/webapp_com.cpp:67-70 | replacing a child keeps every key in its place |
| Components.SetChildFound | src/back-end/webapp_com.cpp:67-70 | after the replacement the key finds the new child |
| Components.KeysCons | src/back-end/webapp_com.hpp:137-143 | the keys of a sequence are its head's key and the keys of its rest |
| Components.SortedCons | src/back-end/webapp_com.hpp:137-143 | a sequence is in key order exactly when its head is below the rest and the rest is in order |
| Components.AboveFirst | src/back-end/webapp_com.hpp:137-143 | a key below the first of a sorted sequence is below all of it |
| Components.AboveKeys | src/back-end/webapp_com.hpp:137-143 | a key below a sequence differs from each of its keys and precedes it |
| Components.InsertKeys | src/back-end/webapp_com.hpp:137-143 | insertion adds the key to the keys and no other |
| Components.InsertSorted | src/back-end/webapp_com.hpp:137-143 | insertion keeps the children in key order |
| Components.InsertChild | src/back-end/webapp_com.hpp:137-143 | insertion keeps every child there was and adds the child under a new key |
| Components.InsertPresent | src/back-end/webapp_com.hpp:137-143 | inserting under a key already there changes nothing |
| Components.AddComKeepsFirst | src/back-end/webapp_com.hpp:137-143 | adding keeps the children in key order; a new name finds the new component, a name already there keeps the one it had |
| Components.SortedSameKeys | src/back-end/webapp_com.hpp:137-143 | key order depends on the keys alone |
| Components.FindCom | src/back-end/webapp_com.cpp:56-71 | the empty path, and any path in a component that is not a group, find nothing |
| Components.FindComChild | src/back-end/webapp_com.cpp:61-70 | a name without a slash finds the child of that name |
| Components.FindComDescends | src/back-end/webapp_com.cpp:61-69 | `head/rest` is `rest` looked up in the child `head`, and nothing without that child |
| Components.FindComThroughLeaf | src/back-end/webapp_com.cpp:224-226 | descending through a child that is not a group finds nothing |
| Components.ReplaceAt | src/back-end/webapp_com.cpp:56-71 | a path that finds nothing changes nothing; otherwise the tree keeps its shape and keys |
| Components.ReplaceThenFind | src/back-end/webapp_com.cpp:56-71 | after a replacement the path finds the new component |
| Components.ExampleTreeShape | src/test/com_test.cpp:210-230 | the children of the group test's tree, in key order |
| Components.GroupAddFindExample | src/test/com_test.cpp:210-230 | a child added to a nested group is found by its slash path |
| Components.GroupMissExample | src/test/com_test.cpp:210-230 | unknown names are not found at either level, nor below a plain component |
| Components.RegisterAction | src/back-end/webapp_com.cpp:152-158 | the name joins the registered actions; every handler already there stays, and a new name gets the new handler |
| Components.RegisterKeepsRemembered | src/back-end/webapp_com.cpp:152-158 | registering keeps the remembered action registered |
| Components.RunAction | src/back-end/webapp_com.cpp:183-185 | running an action stores its process with the action remembered and changes nothing else but the component's own state |
| Components.HandleAction | src/back-end/webapp_com.cpp:168-186 | a registered action runs; an unknown one re-runs the remembered action while the component is in work; otherwise nothing runs and only `sync` is accepted |
| Components.HandleData | src/back-end/webapp_com.cpp:160-166 | no `action` in the input is accepted with nothing run; otherwise `HandleAction` |
| Components.QuietActionIsNotReported | src/back-end/webapp_com.cpp:105-106 | an action that answers `Process()` leaves a finished process with nothing to report |
| Components.BaseAttributes | src/back-end/webapp_com.cpp:188-192 | the type, then the name |
| Components.Attributes | src/back-end/webapp_com.cpp:188-196 | the class's own attributes, or the base ones when the class does not override them |
| Components.Publish | src/back-end/webapp_com.cpp:205-222 | publishing clears the pending notification and changes only the process and the children; a leaf keeps its children |
| Components.PublishMembers | src/back-end/webapp_com.cpp:73-81 | each child publishes itself in turn and keeps its name and place |
| Components.PublishTo | src/back-end/webapp_com.cpp:205-208 | a null output is refused and nothing changes |
| Components.PublishBegins | src/back-end/webapp_com.cpp:209-210 | the output starts with the type and the name |
| Components.PublishNotifies | src/back-end/webapp_com.cpp:211-219 | a pending notification is written third and cleared, with its progress clamped; while in work nothing follows it and the children are not published |
| Components.PublishWithoutNotice | src/back-end/webapp_com.cpp:209-222 | without a pending notification the process stays and the class's attributes come third |
| Components.PlainComRepeatsTypeAndName | src/back-end/webapp_com.cpp:209-222 | a class that keeps the base attributes writes its type and name twice |
| Components.QuietLeafPublish | src/back-end/webapp_com.cpp:209-222 | a leaf with nothing to report writes both attribute lists and does not change |
| Components.RepublishIsQuiet | src/back-end/webapp_com.cpp:205-222 | once published, a leaf publishes without a notification and writes the same attributes |
| Components.QuietActionThenPublish | src/back-end/webapp_com.cpp:160-222 | an action that answers `Process()` is accepted, and the component then publishes its type, name and the state the action left |
| Components.Include | src/back-end/webapp_com.cpp:36-48 | a null handler writes nothing; otherwise its sub-output is appended under the name |
| Components.HandleInputOf | src/back-end/webapp_com.cpp:89-103 | an empty path or an unknown component answers false and changes nothing; otherwise the component found handles the input, is replaced by its new state and publishes; a true answer needs an output; the tree keeps its shape |
| Components.Manager.constructor | src/back-end/webapp_com.cpp:83-84 | a new manager is the empty group `manager` |
| Components.Manager.AddCom | src/back-end/webapp_com.hpp:137-143 | the component joins the root group's children, which stay in key order |
| Components.Manager.HandleInput | src/back-end/webapp_com.cpp:89-103 | computes `HandleInputOf` on the tree it holds, which stays a group in key order |
| ComHttp.HasCell | src/back-end/webapp_com_http.cpp:23-28 | no request has no cell; a request has a cell exactly when it has a posted field of that name or a non-empty query value of that name |
| ComHttp.CellPresenceAndString | src/back-end/webapp_com_http.cpp:23-63 | a cell the input lacks reads as the empty string; one held only in the query reads as its non-empty query value |
| ComHttp.ReadString | src/back-end/webapp_com_http.cpp:60-63 | no request reads as the empty string |
| ComHttp.ReadInteger | src/back-end/webapp_com_http.cpp:52-54 | no request reads as the largest `int64_t`; any read value is within `long`, unless a null posted field leaves the result unset |
| ComHttp.ReadBoolean | src/back-end/webapp_com_http.cpp:56-58 | no request reads as false |
| ComHttp.AbsentCellReadsDefaults | src/back-end/webapp_com_http.cpp:32-63 | a cell the request does not have reads as the empty string, the largest `int64_t` and false |
| ComHttp.PostedFieldWins | src/back-end/webapp_com_http.cpp:38-43 | a posted field that holds a value is read from that value, whatever the query says |
| ComHttp.QueryValueRead | src/back-end/webapp_com_http.cpp:44 | without a posted field the query value is read; an empty one gives the default, and a boolean is true exactly for `true` |
| ComHttp.IntText | src/back-end/webapp_com_http.cpp:88-91 | the text of an integer is never empty and starts with `-` exactly for a negative one |
| ComHttp.IntTextReadsBack | src/back-end/webapp_com_http.cpp:88-91 | an integer the output writes reads back through `atol` |
| ComHttp.QuoteEscape | src/back-end/webapp_com_http.cpp:98-102 | the escaped text never starts with a bare quote |
| ComHttp.JsonEscape | src/back-end/webapp_com_http.cpp:98-102 | the corrected escaping never starts with a bare quote and agrees with the written one on text without backslashes |
| ComHttp.JsonEscapeReadsBack | src/back-end/webapp_com_http.cpp:98-102 | a string literal written with the corrected escaping reads back as the string and ends at its closing quote |
| ComHttp.QuoteEscapeReadsBack | src/back-end/webapp_com_http.cpp:98-102 | as written, the literal reads back whenever the string holds no backslash |
| ComHttp.BackslashQuoteEndsEarly | src/back-end/webapp_com_http.cpp:98-102 | as written, the value `\"` ends the literal one character early |
| ComHttp.ListTextOfSub | src/back-end/webapp_com_http.cpp:104-108 | the text of a sub-output does not depend on its name |
| ComHttp.AppendedText | src/back-end/webapp_com_http.cpp:104-108 | a sub-output is written as its name and then its own document |
| ComHttp.ListTextSnoc | src/back-end/webapp_com_http.cpp:72-81 | the list text of one more item adds a comma and the item's text |
| ComHttp.TextSnoc | src/back-end/webapp_com_http.cpp:72-81 | writing one more item adds a comma, unless it is the first, then its text |
| ComHttp.AppendRendered | src/back-end/webapp_com_http.cpp:104-108 | appending a sub-output after the text of some items gives the text of those items with it added |
| ComHttp.PutRendered | src/back-end/webapp_com_http.cpp:78-102 | writing a scalar after the text of some items gives the text of those items with it added |
| ComHttp.EmptyDocument | src/back-end/webapp_com_http.cpp:65-67 | an output nothing was written to is the empty object `{}` |
| ComHttp.ValueText | src/back-end/webapp_com_http.cpp:88-102 | what a `Put` overload writes is the quoted name, a colon and the value text, a string quoted with only its `"` escaped |
| ComHttp.Output.constructor | src/back-end/webapp_com_http.cpp:65-67 | a new output has written `{` and no item, and uses no comma yet |
| ComHttp.Output.PutName | src/back-end/webapp_com_http.cpp:78-81 | a comma unless first, the quoted name and a colon are written; the next name gets a comma |
| ComHttp.Output.Put | src/back-end/webapp_com_http.cpp:88-102 | the name and the value text, as the program escapes it, are written and the output stays the text of its items |
| ComHttp.Output.Append | src/back-end/webapp_com_http.cpp:104-108 | the name, the other output's text and a closing brace are written; appending to itself copies the text after the name |
| ComHttp.Output.MakeResponse | src/back-end/webapp_com_http.cpp:114-122 | no response answers false; otherwise a closing brace completes the document, and the response is 200 JSON with that document as its body |
| ComHttp.Create | src/back-end/webapp_com_http.cpp:110-112 | a fresh empty output |
| ComHttp.WriteItem | src/back-end/webapp_com_http.cpp:78-108 | one more item is written, strings with the program's quote-only escaping, and the output stays the text of its items |
| ComHttp.WriteAll | src/back-end/webapp_com_http.cpp:78-108 | after writing items in order the output holds exactly their text, as the program renders it |
| ComHttp.JoinFromJoins | src/back-end/webapp_com_http.cpp:155-157 | once something has been added, each segment follows a `/` |
| ComHttp.ComPathJoins | src/back-end/webapp_com_http.cpp:155-157 | a path whose first segment is not empty is joined with `/`; empty segments at its head are skipped |
| ComHttp.BuildComPath | src/back-end/webapp_com_http.cpp:154-157 | the loop builds `ComPath` of the path |
| ComHttp.WebuiAnswer | src/back-end/webapp_com_http.cpp:144-161 | the handler always answers true with 200 and the JSON header, then a body; without a manager the body is `{}` |
| ComHttp.WebuiSendsDocument | src/back-end/webapp_com_http.cpp:144-161 | on a new response the handler sends 200 JSON whose Content-Length is the document's size modulo 2^32, then the document, as the program renders it, of what the addressed component published |
| ComHttp.UnknownComponentIsEmpty | src/back-end/webapp_com_http.cpp:152-160 | a path naming no component is answered with the empty object |
| ComHttp.WebuiParts | src/back-end/webapp_com_http.cpp:168 | the handler's URL is the one segment `webui` |
| ComHttp.WebuiRoutes | src/back-end/webapp_com_http.cpp:166-168 | every request whose path begins with `webui` reaches the handler with the rest of the path |
| ComHttp.GetRouterFor | src/back-end/webapp_com_http.cpp:134-170 | a new router at the root path, with the manager's handler alone at `webui` |
| ComCtl.ConditionTypesFounded | src/back-end/webapp_com_ctl.cpp:230-236 | the table built by the founder holds exactly the five operators, each with its own comparison |
| ComCtl.ParseConditionType | src/back-end/webapp_com_ctl.cpp:226-240 | an operator of the table gives its comparison, never `kUnknown`; any other text leaves the result unset |
| ComCtl.ParseCondition | src/back-end/webapp_com_ctl.cpp:242-258 | a condition is either no match or has a non-empty field |
| ComCtl.MatchIsFound | src/back-end/webapp_com_ctl.cpp:246-248 | wherever the pattern `([^=<>]+)([=<>]{1,2})(.+)` matches, the condition is found |
| ComCtl.NoMatchAnywhere | src/back-end/webapp_com_ctl.cpp:246-248 | a condition that is not found means the pattern matches nowhere |
| ComCtl.SearchMatchFound | src/back-end/webapp_com_ctl.cpp:246-257 | a found condition holds the three groups of the leftmost, greedy match `regex_search` reports |
| ComCtl.ConditionExamples | src/test/com_ctl_test.cpp:54-84 | `field_0=10`, `field_1<11` and `field_2>12` give their field, comparison and value |
| ComCtl.TwoCharConditionExamples | src/test/com_ctl_test.cpp:54-84 | `field_3<=13` and `field_4>=14` give their field, comparison and value |
| ComCtl.DoubleEqualsHasNoComparison | src/test/com_ctl_test.cpp:112-126 | `field_0==9` gives the field and the value but no comparison |
| ComCtl.OneCharOperator | src/back-end/webapp_com_ctl.cpp:242-258 | a field without operator characters, one operator character and a value not starting with one are read apart |
| ComCtl.TwoCharOperator | src/back-end/webapp_com_ctl.cpp:242-258 | the same with a two-character operator |
| ComCtl.LeadingCommaRepeats | src/back-end/webapp_com_ctl.cpp:176-183 | as written, a `fields` value starting with a comma inserts the empty name and comes back to position 0, so the loop never ends |
| ComCtl.SelectedFrom | src/back-end/webapp_com_ctl.cpp:176-183 | the names from a position are the piece up to the next comma, then the names after it |
| ComCtl.SelectedCons | src/back-end/webapp_com_ctl.cpp:176-183 | a name without a comma, then a comma: that name and the names after it |
| ComCtl.ParseRequestSelect | src/back-end/webapp_com_ctl.cpp:171-184 | every piece between commas is selected, and nothing else |
| ComCtl.SelectExample | src/test/com_ctl_test.cpp:86-106 | `field_0,field_1,field_2` selects the three names |
| ComCtl.WhereStep | src/back-end/webapp_com_ctl.cpp:193-201 | one pass as written throws exactly when its start lies past the end |
| ComCtl.LeadingAmpersandRepeats | src/back-end/webapp_com_ctl.cpp:193-201 | as written, a `where` value starting with `&` comes back to position 0, so the loop never ends |
| ComCtl.SingleAmpersandExamples | src/back-end/webapp_com_ctl.cpp:193-201 | as written, a pass stops at a single `&`, but the next pass starts two characters on, so `a&b` loses the `b`; an `&` at the end makes the next pass throw `std::out_of_range` |
| ComCtl.LeadingAmpersandSpins | src/back-end/webapp_com_ctl.cpp:193-201 | as written, the whole loop on a `where` value starting with `&` does not end within any number of passes |
| ComCtl.SingleAmpersandRuns | src/back-end/webapp_com_ctl.cpp:193-201 | as written, the whole loop reads `a&b` as `a` and an empty piece, and throws on `a&` |
| ComCtl.WhereStepOnJoin | src/back-end/webapp_com_ctl.cpp:194-198 | on pieces without `&` joined by `&&`, a pass stops exactly at the `&&` after the first piece, or reaches the end |
| ComCtl.WhereStepAfterPair | src/back-end/webapp_com_ctl.cpp:194-200 | a pass starting on a `&&` reads the next piece and stops on the following `&&` |
| ComCtl.WhereAsWrittenLast | src/back-end/webapp_com_ctl.cpp:193-201 | a pass that finds no `&` ends the loop with its piece |
| ComCtl.WhereAsWrittenNext | src/back-end/webapp_com_ctl.cpp:193-201 | a pass that finds an `&` is followed by the passes from there |
| ComCtl.WhereRunOnJoin | src/back-end/webapp_com_ctl.cpp:193-201 | from a `&&`, the loop as written reads back the pieces after it, one pass each |
| ComCtl.WhereRunOnJoinMore | src/back-end/webapp_com_ctl.cpp:193-201 | the same, when a further `&&` lies ahead |
| ComCtl.WhereAsWrittenAgrees | src/test/com_ctl_test.cpp:123-126 | on conditions joined by `&&` with no `&` in them and a non-empty first one, the loop as written reads the same pieces as the corrected reading |
| ComCtl.FindPair | src/back-end/webapp_com_ctl.cpp:195 | the first `&&` at or after the position |
| ComCtl.WherePieces | src/back-end/webapp_com_ctl.cpp:193-201 | a `where` value always has at least one piece |
| ComCtl.WherePiecesJoin | src/back-end/webapp_com_ctl.cpp:193-201 | the pieces joined with `&&` give the text back |
| ComCtl.WherePiecesOfJoin | src/test/com_ctl_test.cpp:123-126 | conditions joined by `&&` are read back one by one when none holds an `&` |
| ComCtl.ParseAll | src/back-end/webapp_com_ctl.cpp:197-199 | one condition per piece |
| ComCtl.WhereFromPieces | src/back-end/webapp_com_ctl.cpp:193-201 | the loop reads the conditions of the pieces in order, after those it already holds |
| ComCtl.ParseRequestWhere | src/back-end/webapp_com_ctl.cpp:187-202 | one condition for each piece between `&&` separators, in order |
| ComCtl.ReadWherePieces | src/back-end/webapp_com_ctl.cpp:193-201 | the loop hops from one `&&` to the next and reads each piece |
| ComCtl.Request.constructor | src/back-end/webapp_com_ctl.cpp:204-205 | a new request selects nothing and has no conditions |
| ComCtl.Request.ParseInData | src/back-end/webapp_com_ctl.cpp:207-214 | each of the `fields` and `where` cells the input has replaces what it parses to; a missing cell leaves the old value |
| ComCtl.SelectFromInput | src/back-end/webapp_com_ctl.cpp:207-219 | a request built from a `fields` cell selects exactly the names between its commas; without the cell it selects nothing |

## Left out

- **Server, resources and sessions.** These are boost::asio sockets, asynchronous callbacks and threads: `webapp_proto.cpp`, the `Server`/`Session` code of `webapp_lib.cpp` and `Async`. The protocol object is modelled up to the bytes it takes in and hands out.
- **Filesystem code.** `SourceFromFile`, `Response::UseFile`, `Router::AddDirectoryFor` with its `DirInfo` handler and `GetContentTypeFor` are left out. So are `FileDialog` and the `Table` component of `webapp_com_ctl.cpp`: they depend on boost::filesystem, or on a `DataIFace` whose `HandleData`/`PublishData` live outside these files. The table `Request` they use is modelled.
- **Floating point.** `Field::get_value(double*)`, `Request::Get<double>`, `Input::GetReal` with its NaN default and `Output::Put(Real)` are left out.
- **`Expires::Now` and `Expires::ToString`.** The wall clock is the parameter `now`, counted in hours, and the boost time formatting is the parameter `render`. `Expires` is modelled only as hours added.
- **`ETag::Random`.** `gettimeofday` is replaced by its two readings, passed as parameters.
- **Regular expressions.** The boost::regex calls are written out by hand:
  - the `Condition` pattern is restated as a scan, and `SearchMatchFound` proves that scan equal to the leftmost greedy match;
  - `ParseBoolValue` is equality with `true`;
  - the escaping in `Put(String)` replaces each `"` with `\"` (`QuoteEscape`), which is what the output model writes.
- **`SourceFromStream`.** `std::stringstream::readsome` and the stream state flags are not modelled. The stream source is the same byte source as `SourceFromArray`; a null stream is `None`.
- **Shared ownership.** `shared_ptr` sharing of fields, storages, handlers and components is not modelled, because stored objects are values. Two `Field` copies that share a storage are not seen to change together.
- **Validator internals.** The `Validator` is modelled by its result on a whole string; its iterator and step counters are internal.
- **`Request::Get<T>` for other types.** Only `std::string`, `int`, `int64_t` and `bool` are covered, as the callers use them.
- **Multipart close delimiter.** `--boundary--` is not modelled: the engine never looks for it, so the model has nothing of it either.
- `Text.TruncateString`: requires text that holds a character other than a space or a double quote. On other text the source throws; that path is `Text.TruncateOrThrow`.
- `CNumbers.Strtoul0`: states only the 64-bit range of the result in its contract; the digit reading is stated for decimal text by `StrtoulReadsDecimal`, not for octal or hex.
- `CNumbers.Atol`: states only the `long` range in its contract; the reading is stated for decimal text by `AtolReadsDecimal`.
- `HttpRequest.GetInt64`: states the `long` range of the result and the default for an empty value, not the value read.
- `HttpRouter.Router.WithRoot`: requires a root URL that `Uri::ParseVal` accepts. On `""` or `http:` the C++ constructor (`src/back-end/webapp_proto_http.cpp:1439-1444`) lets `std::out_of_range` escape; that throw is not modelled. The server passes a fixed, valid URL.
- `ComHttp.GetRouterFor`: requires the same of the root path, for the same reason, and does not model the throw either.
- `HttpRequest.ExtraDashMissed`: the delimiter scan restarts at 0 without a partial-match fallback, so `---b` followed by CRLF misses the delimiter. The model keeps this behaviour as written rather than correcting it.

## Findings

| source | as written | input that shows it | evidently intended | confidence | as-written member | corrected member |
|---|---|---|---|---|---|---|
| src/back-end/webapp_proto_http.cpp:1723-1749 | the `while (off < size)` loop of `ParseMultipartRequestBody` goes on while a pass consumes nothing: once a part-header line holds 512 characters, `ParseRequestHeader` returns 0 without progress (one pass is `MultipartStep`) | a multipart chunk whose part header has a line longer than 512 bytes | a pass that consumes nothing ends the chunk, and the chunk is counted as consumed | not executed | HttpRequest.LongPartLineStalls | HttpRequest.MultipartConsumesChunk |
| src/back-end/webapp_proto_http.cpp:681-688 | `StorageInMem::operator=` calls `Container::Assign`, which clears the segments and then copies from the source; when the source is the same storage it is already empty | `s = s` on a storage holding bytes | assigning a storage to itself keeps its contents | not executed | FieldStorage.StorageInMem.AssignFrom | FieldStorage.StorageInMem.Assign |
| src/back-end/webapp_com_http.cpp:98-102 | `Put(String)` escapes `"` but not a backslash (modelled by `QuoteEscape`) | the value `\"` is written as `"\\""`, which a JSON reader ends after the backslash | a backslash is escaped too (`JsonEscape`), so every string reads back | not executed | ComHttp.BackslashQuoteEndsEarly | ComHttp.JsonEscapeReadsBack |
| src/back-end/webapp_com_ctl.cpp:176-183 | `from_off` 0 is both "first pass" and "comma at 0", so a leading comma brings the loop back to 0 (one pass is `SelectStep`) | `fields` = `,a` | every piece between commas is selected and the loop ends | not executed | ComCtl.LeadingCommaRepeats | ComCtl.ParseRequestSelect |
| src/back-end/webapp_com_ctl.cpp:193-201 | the same for `&`; `find_first_of("&&")` also stops at a single `&`, the next pass then skips a character, and a trailing `&` makes the next `substr` throw (one pass is `WhereStep`, the whole loop `WhereAsWritten`) | `where` = `&a` (never ends), `a&b` (reads `a` and an empty piece), `a&` (throws) | conditions are separated by `&&` and the loop ends; on `&&`-joined conditions without `&` whose first is not empty, both agree (`WhereAsWrittenAgrees`) | not executed | ComCtl.LeadingAmpersandSpins | ComCtl.ParseRequestWhere |
