/**
 * The incremental request parser of webapp_proto_http.cpp:
 * `ParseRequestHeader`, `FindMultipartBoundary`,
 * `ParseMultipartRequestBody`, `ParseRequestBody` and `ParseRequest`,
 * threading `Request::State` from one chunk of bytes to the next, and the
 * `Request` getters.
 *
 * `ReqState` is `Request::State` as a value; each stage is a function from
 * the old state and a chunk to the new state (and the offset it consumed),
 * and class `Request` runs the stages in place with the source's loops,
 * proved to compute those functions.  An uncaught `std::out_of_range`
 * from the field parser is the `OutOfRange` outcome.
 */
module HttpRequest {
  import opened Text
  import opened HttpTables
  import opened HttpUri
  import opened HttpHeader
  import opened FieldStorage
  import CNumbers

  /** `uint8_t`. */
  type Uint8 = x: int | 0 <= x < 256

  /** `Request::State`, without its storage generator, which `Request` holds beside it. */
  datatype ReqState = ReqState(completeBody: bool, boundaryWasFound: bool, bodySize: nat,
                               headerLastLine: string, bodyLastMatch: Uint8,
                               fieldsPost: map<string, Field>, header: Header, postHeader: Header)

  /** A new `State`; its two headers read the clock, `now`. */
  function NewState(now: int): (s: ReqState)
    ensures !s.completeBody && !s.header.complete && s.bodySize == 0 && s.bodyLastMatch == 0
  {
    ReqState(false, false, 0, "", 0, map[], DefaultHeader(now), DefaultHeader(now))
  }

  /** `Request::Completed`. */
  predicate Completed(s: ReqState)
  {
    s.header.complete && s.completeBody
  }

  /** The body counters of `r` are those of `s`. */
  predicate SameBody(s: ReqState, r: ReqState)
  {
    r.completeBody == s.completeBody && r.bodySize == s.bodySize
  }

  // ---------------------------------------------------------------------------
  // ParseRequestHeader

  const CR: Byte := 0x0D
  const LF: Byte := 0x0A

  /** `kLineMaxLen`: a line longer than this stops the scan. */
  const LINE_MAX_LEN := 512

  /** Why a header scan stopped: the chunk ran out, a short line ended the header, or a line grew too long. */
  datatype Stop = EndOfData | EndOfHeader | LineTooLong

  /** Where a header scan stopped, the pending line and the header built so far. */
  datatype Scan = Scan(offs: nat, line: string, header: Header, stop: Stop)

  /**
   * What the scan relies on in `ParseHeaderField`: whatever it returns
   * keeps the `complete` flag it was given.
   */
  type FieldParser = f: (string, Header) -> Throws<(bool, Header)> |
    forall line, h :: f(line, h).Returns? ==> f(line, h).value.1.complete == h.complete
    witness (line: string, h: Header) => Returns((true, h))

  /**
   * The loop of `ParseRequestHeader` from index `i` of the chunk, with the
   * line collected so far and the header so far, for a given field parser.
   * CR is skipped; LF ends a line, and a line of fewer than two characters
   * ends the header, which is complete only when that LF sits past index 2
   * of this chunk; a longer line goes to the field parser, whose `false` is
   * ignored.
   */
  function ScanWith(field: FieldParser, bytes: seq<Byte>, i: nat, line: string, h: Header): (r: Throws<Scan>)
    requires i <= |bytes|
    ensures r.Returns? ==> i <= r.value.offs <= |bytes|
    ensures r.Returns? && r.value.stop == EndOfData ==>
              r.value.offs == |bytes| && (|line| <= LINE_MAX_LEN ==> |r.value.line| <= LINE_MAX_LEN)
    ensures r.Returns? && r.value.stop == EndOfHeader ==>
              i < r.value.offs && bytes[r.value.offs - 1] == LF && |r.value.line| < 2 &&
              (r.value.header.complete <==> h.complete || r.value.offs > 3)
    ensures r.Returns? && r.value.stop == LineTooLong ==>
              r.value.offs < |bytes| && |r.value.line| > LINE_MAX_LEN && bytes[r.value.offs] != LF
    ensures r.Returns? && r.value.stop != EndOfHeader ==> r.value.header.complete == h.complete
    decreases |bytes| - i
  {
    if i == |bytes| then Returns(Scan(i, line, h, EndOfData))
    else if bytes[i] == CR then ScanWith(field, bytes, i + 1, line, h)
    else if bytes[i] == LF then
      if |line| < 2 then Returns(Scan(i + 1, line, if i > 2 then h.(complete := true) else h, EndOfHeader))
      else
        match field(line, h)
        case OutOfRange => OutOfRange
        case Returns(res) => ScanWith(field, bytes, i + 1, "", res.1)
    else
      var longer := line + [bytes[i] as char];
      if |longer| > LINE_MAX_LEN then Returns(Scan(i, longer, h, LineTooLong))
      else ScanWith(field, bytes, i + 1, longer, h)
  }

  /** The scan of `ParseRequestHeader`, whose field parser is `ParseHeaderField`. */
  function ScanHeader(bytes: seq<Byte>, i: nat, line: string, h: Header): Throws<Scan>
    requires i <= |bytes|
  {
    ScanWith(HeaderFieldOf, bytes, i, line, h)
  }

  /**
   * `ParseRequestHeader` on a state: the scan starts from the saved line
   * with `complete` cleared; the pending line is saved unless the header
   * completed, and the offset returned is where the scan stopped.
   */
  function HeaderChunk(s: ReqState, bytes: seq<Byte>): (r: Throws<(nat, ReqState)>)
    ensures r.Returns? ==> r.value.0 <= |bytes| && SameBody(s, r.value.1)
  {
    match ScanHeader(bytes, 0, s.headerLastLine, s.header.(complete := false))
    case OutOfRange => OutOfRange
    case Returns(sc) =>
      Returns((sc.offs, s.(header := sc.header,
                           headerLastLine := if sc.header.complete then "" else sc.line)))
  }

  /** The non-CR bytes of a chunk, as characters. */
  function WithoutCR(bytes: seq<Byte>): (r: string)
    ensures |r| <= |bytes|
  {
    if bytes == [] then []
    else (if bytes[0] == CR then [] else [bytes[0] as char]) + WithoutCR(bytes[1..])
  }

  /**
   * A chunk with no LF that keeps the line within 512 characters is
   * consumed whole: its non-CR bytes are added to the pending line and
   * the header is untouched.
   */
  lemma {:induction false} UnfinishedLineSaved(field: FieldParser, bytes: seq<Byte>, i: nat, line: string, h: Header)
    requires i <= |bytes|
    requires forall k :: i <= k < |bytes| ==> bytes[k] != LF
    requires |line| + |bytes| - i <= LINE_MAX_LEN
    ensures ScanWith(field, bytes, i, line, h) == Returns(Scan(|bytes|, line + WithoutCR(bytes[i..]), h, EndOfData))
    decreases |bytes| - i
  {
    if i < |bytes| {
      assert bytes[i..] == [bytes[i]] + bytes[i + 1..];
      if bytes[i] == CR {
        UnfinishedLineSaved(field, bytes, i + 1, line, h);
        assert WithoutCR(bytes[i..]) == WithoutCR(bytes[i + 1..]);
      } else {
        var longer := line + [bytes[i] as char];
        UnfinishedLineSaved(field, bytes, i + 1, longer, h);
        assert WithoutCR(bytes[i..]) == [bytes[i] as char] + WithoutCR(bytes[i + 1..]);
        assert longer + WithoutCR(bytes[i + 1..]) == line + WithoutCR(bytes[i..]);
      }
    } else {
      assert WithoutCR(bytes[i..]) == [];
      assert line + [] == line;
    }
  }

  /**
   * When the first chunk runs out mid-header, scanning the two chunks
   * together goes on from where the first scan stopped, with its pending
   * line and header.
   */
  lemma {:induction false} ScanConcat(field: FieldParser, a: seq<Byte>, b: seq<Byte>, i: nat, line: string, h: Header)
    requires i <= |a|
    requires ScanWith(field, a, i, line, h).Returns? && ScanWith(field, a, i, line, h).value.stop == EndOfData
    ensures ScanWith(field, a + b, i, line, h) ==
            ScanWith(field, a + b, |a|, ScanWith(field, a, i, line, h).value.line, ScanWith(field, a, i, line, h).value.header)
    decreases |a| - i
  {
    if i < |a| {
      assert (a + b)[i] == a[i];
      if a[i] == CR {
        ScanConcat(field, a, b, i + 1, line, h);
      } else if a[i] == LF {
        ScanConcat(field, a, b, i + 1, "", field(line, h).value.1);
      } else {
        ScanConcat(field, a, b, i + 1, line + [a[i] as char], h);
      }
    }
  }

  /**
   * `ra` is the scan of the same bytes as `rb`, `n` positions further on:
   * the same outcome, stop, pending line and fields, with the offset
   * shifted by `n`; only `complete`, which looks at the offset, may differ.
   */
  predicate Shifted(ra: Throws<Scan>, rb: Throws<Scan>, n: nat)
  {
    ra.Returns? == rb.Returns? &&
    (rb.Returns? ==>
       ra.value.offs == n + rb.value.offs && ra.value.line == rb.value.line &&
       ra.value.stop == rb.value.stop &&
       ra.value.header == rb.value.header.(complete := ra.value.header.complete))
  }

  /**
   * Scanning the second chunk on its own sees the same bytes as scanning it
   * after the first, so the two scans are `Shifted` by the first chunk's length.
   */
  lemma {:induction false} ScanShift(field: FieldParser, a: seq<Byte>, b: seq<Byte>, j: nat, line: string, h: Header)
    requires j <= |b|
    ensures Shifted(ScanWith(field, a + b, |a| + j, line, h), ScanWith(field, b, j, line, h), |a|)
    decreases |b| - j
  {
    if j < |b| {
      assert (a + b)[|a| + j] == b[j];
      if b[j] == CR {
        ScanShift(field, a, b, j + 1, line, h);
      } else if b[j] == LF && |line| >= 2 && field(line, h).Returns? {
        ScanShift(field, a, b, j + 1, "", field(line, h).value.1);
      } else if b[j] != LF && |line + [b[j] as char]| <= LINE_MAX_LEN {
        ScanShift(field, a, b, j + 1, line + [b[j] as char], h);
      }
    }
  }

  /**
   * A blank line at the very start of a chunk (index 0, or index 1 after a
   * CR) ends the scan without completing the header, even when the lines
   * before it came in the previous chunk.
   */
  lemma BlankLineAtChunkStart(s: ReqState, bytes: seq<Byte>)
    requires |s.headerLastLine| < 2
    requires 0 < |bytes| && bytes[0] == LF
    ensures HeaderChunk(s, bytes) == Returns((1, s.(header := s.header.(complete := false))))
  {
  }

  /**
   * The scan of two chunks together, when the first runs out mid-header
   * and the scan of the second on its own completes the header: it stops
   * at the same place in the second chunk with the same result.
   */
  lemma JointScan(field: FieldParser, a: seq<Byte>, b: seq<Byte>, line: string, h: Header, first: Scan, second: Scan)
    requires !h.complete
    requires ScanWith(field, a, 0, line, h) == Returns(first) && first.stop == EndOfData
    requires ScanWith(field, b, 0, first.line, first.header) == Returns(second) && second.header.complete
    ensures ScanWith(field, a + b, 0, line, h) == Returns(second.(offs := |a| + second.offs))
  {
    ScanConcat(field, a, b, 0, line, h);
    ScanShift(field, a, b, 0, first.line, first.header);
    assert |a| + 0 == |a|;
    assert second.stop == EndOfHeader;
  }

  /**
   * Cutting a header into two chunks inside the header gives the same
   * result as one chunk whenever the second chunk completes it: the same
   * state (and, by `JointScan`, the offset shifted by the first chunk's
   * length).
   */
  lemma HeaderInTwoChunks(s: ReqState, a: seq<Byte>, b: seq<Byte>, s1: ReqState)
    requires ScanHeader(a, 0, s.headerLastLine, s.header.(complete := false)).Returns?
    requires ScanHeader(a, 0, s.headerLastLine, s.header.(complete := false)).value.stop == EndOfData
    requires HeaderChunk(s, a).Returns? && HeaderChunk(s, a).value.1 == s1
    requires HeaderChunk(s1, b).Returns? && HeaderChunk(s1, b).value.1.header.complete
    ensures HeaderChunk(s, a + b).Returns?
    ensures HeaderChunk(s, a + b).value.1 == HeaderChunk(s1, b).value.1
  {
    var h := s.header.(complete := false);
    var first := ScanHeader(a, 0, s.headerLastLine, h).value;
    ChunkState(s, a, first);
    var second := ScanHeader(b, 0, first.line, first.header).value;
    ChunkState(s1, b, second);
    JointScan(HeaderFieldOf, a, b, s.headerLastLine, h, first, second);
    ChunkState(s, a + b, second.(offs := |a| + second.offs));
  }

  /** `HeaderChunk` in terms of the scan it runs. */
  lemma ChunkState(s: ReqState, bytes: seq<Byte>, sc: Scan)
    requires ScanHeader(bytes, 0, s.headerLastLine, s.header.(complete := false)) == Returns(sc)
    ensures HeaderChunk(s, bytes).Returns? && HeaderChunk(s, bytes).value.0 == sc.offs
    ensures HeaderChunk(s, bytes).value.1 ==
            s.(header := sc.header, headerLastLine := if sc.header.complete then "" else sc.line)
    ensures !sc.header.complete ==> HeaderChunk(s, bytes).value.1.header.(complete := false) == sc.header
  {
  }

  // ---------------------------------------------------------------------------
  // FindMultipartBoundary

  /** The delimiter searched for: `"--" + boundary + CRLF`. */
  function Delimiter(boundary: string): (d: string)
    ensures |d| == |boundary| + 4
  {
    "--" + boundary + "\r\n"
  }

  /**
   * `kByte == kBoundary.at(match)`: `char` is signed, so a delimiter
   * character of 0x80 or more never equals an (unsigned) byte.
   */
  predicate ByteIs(b: Byte, c: char)
  {
    c as int < 128 && b == c as int
  }

  /**
   * One step of the match counter: it advances (in 8 bits) when the byte
   * is the next delimiter character and otherwise drops to 0; the byte
   * that broke a partial match is not tried again as a first character.
   */
  function NextMatch(delim: string, b: Byte, m: Uint8): Uint8
  {
    if m < |delim| && ByteIs(b, delim[m]) then (m + 1) % 256 else 0
  }

  /**
   * The counting loop from `off` with count `m`: the offset of the byte
   * that brings the count to the delimiter's length, with that count, or
   * none and the final count.
   */
  function MatchFrom(delim: string, bytes: seq<Byte>, off: nat, m: Uint8): (r: (Option<nat>, Uint8))
    requires off <= |bytes|
    ensures r.0.Some? ==> off <= r.0.value < |bytes| && r.1 == |delim|
    ensures |delim| >= 256 ==> r.0.None?
    decreases |bytes| - off
  {
    if off == |bytes| then (None, m)
    else
      var next := NextMatch(delim, bytes[off], m);
      if next == |delim| then (Some(off), next) else MatchFrom(delim, bytes, off + 1, next)
  }

  /** The last `m` bytes before `end` spell the first `m` delimiter characters. */
  ghost predicate Matched(delim: string, bytes: seq<Byte>, end: nat, m: nat)
  {
    m <= end <= |bytes| && m <= |delim| &&
    forall k :: 0 <= k < m ==> ByteIs(bytes[end - m + k], delim[k])
  }

  lemma MatchedStep(delim: string, bytes: seq<Byte>, off: nat, m: Uint8)
    requires off < |bytes| && Matched(delim, bytes, off, m)
    ensures Matched(delim, bytes, off + 1, NextMatch(delim, bytes[off], m))
  {
    var next := NextMatch(delim, bytes[off], m);
    if next != 0 {
      forall k | 0 <= k < next
        ensures ByteIs(bytes[off + 1 - next + k], delim[k])
      {
        if k < m {
          assert bytes[off + 1 - next + k] == bytes[off - m + k];
        }
      }
    }
  }

  /**
   * A delimiter is only reported where it really is: counting from
   * `Matched` state, a hit at `j` means the delimiter fills the bytes
   * ending at `j`.
   */
  lemma {:induction false} MatchSound(delim: string, bytes: seq<Byte>, off: nat, m: Uint8)
    requires off <= |bytes| && Matched(delim, bytes, off, m)
    requires MatchFrom(delim, bytes, off, m).0.Some?
    ensures Matched(delim, bytes, MatchFrom(delim, bytes, off, m).0.value + 1, |delim|)
    decreases |bytes| - off
  {
    MatchedStep(delim, bytes, off, m);
    var next := NextMatch(delim, bytes[off], m);
    if next != |delim| {
      MatchSound(delim, bytes, off + 1, next);
    }
  }

  /**
   * Counting from zero, a hit at `j` means the `|delim|` bytes ending at
   * `j` are the delimiter's characters.
   */
  lemma DelimiterFound(delim: string, bytes: seq<Byte>)
    requires MatchFrom(delim, bytes, 0, 0).0.Some?
    ensures |delim| <= MatchFrom(delim, bytes, 0, 0).0.value + 1
    ensures forall k :: 0 <= k < |delim| ==>
              ByteIs(bytes[MatchFrom(delim, bytes, 0, 0).0.value + 1 - |delim| + k], delim[k])
  {
    MatchSound(delim, bytes, 0, 0);
  }

  /** The bytes of `"---b" CRLF` hold the delimiter of boundary `b`, which the counter misses. */
  lemma ExtraDashMissed()
    ensures MatchFrom(Delimiter("b"), [45, 45, 45, 98, 13, 10], 0, 0).0.None?
  {
    var d := Delimiter("b");
    var bs: seq<Byte> := [45, 45, 45, 98, 13, 10];
    assert d == ['-', '-', 'b', '\r', '\n'];
    assert NextMatch(d, 45, 0) == 1;
    assert NextMatch(d, 45, 1) == 2;
    assert NextMatch(d, 45, 2) == 0;
    assert NextMatch(d, 98, 0) == 0;
    assert NextMatch(d, 13, 0) == 0;
    assert NextMatch(d, 10, 0) == 0;
    assert MatchFrom(d, bs, 5, 0) == (None, 0);
    assert MatchFrom(d, bs, 3, 0) == MatchFrom(d, bs, 4, 0) == MatchFrom(d, bs, 5, 0);
  }

  /**
   * The field the current part writes to: `fields_post[name]`, created on
   * demand and given a storage from the generator or else a new
   * `StorageInMem`.  A part without a name has no field.
   */
  function WithField(s: ReqState, gen: Option<ContentType -> Option<Store>>): (r: ReqState)
    ensures var name := s.postHeader.content.disposition.name;
            (name == "" ==> r == s) &&
            (name != "" ==> r == s.(fieldsPost := r.fieldsPost) && name in r.fieldsPost &&
                            !IsNull(r.fieldsPost[name]) &&
                            r.fieldsPost.Keys == s.fieldsPost.Keys + {name} &&
                            (forall k :: k in s.fieldsPost && k != name ==> r.fieldsPost[k] == s.fieldsPost[k]))
  {
    var name := s.postHeader.content.disposition.name;
    if name == "" then s
    else
      var f := if name in s.fieldsPost then s.fieldsPost[name] else NULL_FIELD;
      var f1 := if IsNull(f) && gen.Some? then UseStorage(f, gen.value(s.postHeader.content.ctype)).1 else f;
      var f2 := if IsNull(f1) then UseStorage(f1, Some(EmptyStore(IN_MEM_NAME))).1 else f1;
      s.(fieldsPost := s.fieldsPost[name := f2])
  }

  /** `Field::Append` on `fields_post[name]`. */
  function AppendTo(s: ReqState, name: string, data: seq<Byte>): (r: ReqState)
    requires name in s.fieldsPost && |data| < USIZE_MOD
  {
    s.(fieldsPost := s.fieldsPost[name := FieldAppend(s.fieldsPost[name], data).1])
  }

  /**
   * `FindMultipartBoundary` on a state: with an empty boundary nothing
   * happens; otherwise the count resumes from `body_last_match`.  On a hit
   * at `j` the bytes before the CRLF that precedes the delimiter go to the
   * part's field and the offset past the delimiter is returned; with no
   * hit the whole chunk goes to the field.  The count is saved either way
   * (so after a hit it is the delimiter's length).
   */
  function FindBoundary(boundary: string, bytes: seq<Byte>, s: ReqState,
                        gen: Option<ContentType -> Option<Store>>): (r: (nat, ReqState))
    requires |bytes| < USIZE_MOD
    ensures r.0 <= |bytes|
    ensures boundary != [] && bytes != [] ==> r.0 > 0
    ensures boundary == [] ==> r == (0, s)
    ensures SameBody(s, r.1)
  {
    if boundary == [] then (0, s)
    else
      var s1 := WithField(s, gen);
      var name := s.postHeader.content.disposition.name;
      var (found, m) := MatchFrom(Delimiter(boundary), bytes, 0, s.bodyLastMatch);
      match found
      case Some(j) =>
        var s2 := if name != "" && j > m then AppendTo(s1, name, bytes[..j - (m + 1)]) else s1;
        (j + 1, s2.(bodyLastMatch := m, boundaryWasFound := true))
      case None =>
        var s2 := if name != "" then AppendTo(s1, name, bytes) else s1;
        (|bytes|, s2.(bodyLastMatch := m, boundaryWasFound := false))
  }

  /** The bytes a state's field for `name` holds (none when it is missing or null). */
  function FieldBytes(s: ReqState, name: string): seq<Byte>
  {
    if name in s.fieldsPost && !IsNull(s.fieldsPost[name]) then StoreBytes(s.fieldsPost[name].value.value) else []
  }

  /**
   * With no delimiter in the chunk, `FindBoundary` consumes it whole and
   * adds all of it to the part's field.
   */
  lemma BoundaryMissAppendsChunk(boundary: string, bytes: seq<Byte>, s: ReqState,
                                 gen: Option<ContentType -> Option<Store>>, name: string)
    requires |bytes| < USIZE_MOD && boundary != []
    requires name == s.postHeader.content.disposition.name && name != ""
    requires MatchFrom(Delimiter(boundary), bytes, 0, s.bodyLastMatch).0.None?
    ensures FindBoundary(boundary, bytes, s, gen).0 == |bytes|
    ensures !FindBoundary(boundary, bytes, s, gen).1.boundaryWasFound
    ensures FieldBytes(FindBoundary(boundary, bytes, s, gen).1, name) == FieldBytes(WithField(s, gen), name) + bytes
  {
    AppendToBytes(WithField(s, gen), name, bytes);
  }

  /** Counting from zero, a delimiter ending at `j` gives the offset past it. */
  lemma BoundaryHitOffset(boundary: string, bytes: seq<Byte>, s: ReqState,
                          gen: Option<ContentType -> Option<Store>>, j: nat)
    requires |bytes| < USIZE_MOD && boundary != [] && s.bodyLastMatch == 0
    requires MatchFrom(Delimiter(boundary), bytes, 0, 0).0 == Some(j)
    ensures FindBoundary(boundary, bytes, s, gen).0 == j + 1
    ensures FindBoundary(boundary, bytes, s, gen).1.boundaryWasFound
  {
  }

  /**
   * Counting from zero, a delimiter ending at `j` adds to the part's field
   * the bytes before the two that precede the delimiter.
   */
  lemma BoundaryHitAppendsPrefix(boundary: string, bytes: seq<Byte>, s: ReqState,
                                 gen: Option<ContentType -> Option<Store>>, name: string, j: nat)
    requires |bytes| < USIZE_MOD && boundary != [] && s.bodyLastMatch == 0
    requires name == s.postHeader.content.disposition.name && name != ""
    requires MatchFrom(Delimiter(boundary), bytes, 0, 0).0 == Some(j) && j > |boundary| + 4
    ensures FieldBytes(FindBoundary(boundary, bytes, s, gen).1, name) ==
            FieldBytes(WithField(s, gen), name) + bytes[..j - |boundary| - 5]
  {
    var m := |boundary| + 4;
    assert MatchFrom(Delimiter(boundary), bytes, 0, 0).1 == m;
    AppendToBytes(WithField(s, gen), name, bytes[..j - (m + 1)]);
  }

  /** A delimiter that starts the chunk adds nothing to the part's field. */
  lemma BoundaryHitAppendsNothing(boundary: string, bytes: seq<Byte>, s: ReqState,
                                  gen: Option<ContentType -> Option<Store>>, name: string, j: nat)
    requires |bytes| < USIZE_MOD && boundary != [] && s.bodyLastMatch == 0
    requires name == s.postHeader.content.disposition.name
    requires MatchFrom(Delimiter(boundary), bytes, 0, 0).0 == Some(j) && j <= |boundary| + 4
    ensures FieldBytes(FindBoundary(boundary, bytes, s, gen).1, name) == FieldBytes(WithField(s, gen), name)
  {
    assert MatchFrom(Delimiter(boundary), bytes, 0, 0).1 == |boundary| + 4;
  }

  /** An append to a field that holds a storage adds exactly its bytes. */
  lemma AppendToBytes(s: ReqState, name: string, data: seq<Byte>)
    requires name in s.fieldsPost && !IsNull(s.fieldsPost[name]) && |data| < USIZE_MOD
    ensures FieldBytes(AppendTo(s, name, data), name) == FieldBytes(s, name) + data
  {
    ConcatSnoc(s.fieldsPost[name].value.value.segments, data);
  }

  // ---------------------------------------------------------------------------
  // ParseMultipartRequestBody

  /**
   * The header pass of the loop body: the part header resumes from
   * `post_header` unless that one is complete, is scanned by
   * `ParseRequestHeader`, and is kept as the new `post_header`.
   */
  function HeaderPass(bytes: seq<Byte>, off: nat, s: ReqState): (r: Throws<(nat, bool, ReqState)>)
    requires off <= |bytes|
    ensures r.Returns? ==> off <= r.value.0 <= |bytes| && !r.value.1 && SameBody(s, r.value.2)
  {
    var s1 := if !s.postHeader.complete then s.(header := s.postHeader) else s;
    match HeaderChunk(s1, bytes[off..])
    case OutOfRange => OutOfRange
    case Returns((k, s2)) => Returns((off + k, false, s2.(postHeader := s2.header)))
  }

  /**
   * One pass of the loop body of `ParseMultipartRequestBody` at `off`, as
   * written: after a complete part header, or before any delimiter, look
   * for the next delimiter (a hit starts a fresh part header, read with
   * the clock `now`) and stop at the end of the chunk or when nothing was
   * consumed; then scan a part header.  The result is the new offset,
   * whether the pass ended with `break`, and the new state.
   */
  function MultipartStep(boundary: string, bytes: seq<Byte>, off: nat, s: ReqState,
                         gen: Option<ContentType -> Option<Store>>, now: int): (r: Throws<(nat, bool, ReqState)>)
    requires off < |bytes| < USIZE_MOD
    ensures r.Returns? ==> off <= r.value.0 <= |bytes| && SameBody(s, r.value.2)
  {
    if s.postHeader.complete || !s.boundaryWasFound then
      var (p, s1) := FindBoundary(boundary, bytes[off..], s, gen);
      var s2 := if s1.boundaryWasFound then s1.(postHeader := DefaultHeader(now)) else s1;
      if off + p >= |bytes| || p == 0 then Returns((off + p, true, s2))
      else HeaderPass(bytes, off + p, s2)
    else HeaderPass(bytes, off, s)
  }

  /**
   * A pass that makes no progress: inside a part header whose pending line
   * already holds 512 characters, a byte other than CR or LF is added to
   * the line, the scan stops at once, and the pass ends where it began
   * with the same conditions (one character longer).  Left as written,
   * the `while` loop repeats this pass for ever.
   */
  lemma LongPartLineStalls(boundary: string, bytes: seq<Byte>, off: nat, s: ReqState,
                           gen: Option<ContentType -> Option<Store>>, now: int)
    requires off < |bytes| < USIZE_MOD
    requires s.boundaryWasFound && !s.postHeader.complete
    requires |s.headerLastLine| >= LINE_MAX_LEN && bytes[off] != CR && bytes[off] != LF
    ensures MultipartStep(boundary, bytes, off, s, gen, now).Returns?
    ensures MultipartStep(boundary, bytes, off, s, gen, now).value.0 == off
    ensures !MultipartStep(boundary, bytes, off, s, gen, now).value.1
    ensures MultipartStep(boundary, bytes, off, s, gen, now).value.2.boundaryWasFound
    ensures !MultipartStep(boundary, bytes, off, s, gen, now).value.2.postHeader.complete
    ensures |MultipartStep(boundary, bytes, off, s, gen, now).value.2.headerLastLine| > LINE_MAX_LEN
  {
    var h := s.postHeader.(complete := false);
    assert h == s.postHeader;
    assert bytes[off..][0] == bytes[off];
    assert ScanHeader(bytes[off..], 0, s.headerLastLine, h) ==
           Returns(Scan(0, s.headerLastLine + [bytes[off] as char], h, LineTooLong));
  }

  /**
   * The loop of `ParseMultipartRequestBody` from `off`, corrected so that a
   * pass which consumes nothing ends the chunk (see `LongPartLineStalls`):
   * the rest of the chunk is then counted as consumed.
   */
  function MultipartLoop(boundary: string, bytes: seq<Byte>, off: nat, s: ReqState,
                         gen: Option<ContentType -> Option<Store>>, now: int): (r: Throws<(nat, ReqState)>)
    requires off <= |bytes| < USIZE_MOD
    ensures r.Returns? ==> off <= r.value.0 <= |bytes| && SameBody(s, r.value.1)
    decreases |bytes| - off
  {
    if off == |bytes| then Returns((off, s))
    else
      match MultipartStep(boundary, bytes, off, s, gen, now)
      case OutOfRange => OutOfRange
      case Returns((next, brk, s1)) =>
        if brk then Returns((next, s1))
        else if next == off then Returns((|bytes|, s1))
        else MultipartLoop(boundary, bytes, next, s1, gen, now)
  }

  /**
   * With a non-empty boundary the corrected loop consumes the whole chunk.
   */
  lemma {:induction false} MultipartConsumesChunk(boundary: string, bytes: seq<Byte>, off: nat, s: ReqState,
                                                  gen: Option<ContentType -> Option<Store>>, now: int)
    requires off <= |bytes| < USIZE_MOD && boundary != []
    requires MultipartLoop(boundary, bytes, off, s, gen, now).Returns?
    ensures MultipartLoop(boundary, bytes, off, s, gen, now).value.0 == |bytes|
    decreases |bytes| - off
  {
    if off < |bytes| {
      var step := MultipartStep(boundary, bytes, off, s, gen, now).value;
      if !step.1 && step.0 != off {
        MultipartConsumesChunk(boundary, bytes, step.0, step.2, gen, now);
      }
    }
  }

  /**
   * `ParseMultipartRequestBody` on a state: run the loop over the chunk,
   * add what it consumed to `body_size` (in 32 bits), put back the request
   * header the loop used as scratch, and complete the body when the count
   * equals Content-Length.
   */
  function MultipartBody(bytes: seq<Byte>, s: ReqState, gen: Option<ContentType -> Option<Store>>,
                         now: int): (r: Throws<ReqState>)
    requires |bytes| < USIZE_MOD
    ensures r.Returns? ==> r.value.header == s.header
    ensures r.Returns? && r.value.completeBody && !s.completeBody ==> r.value.bodySize == s.header.content.length
  {
    match MultipartLoop(s.header.content.ctype.boundary, bytes, 0, s, gen, now)
    case OutOfRange => OutOfRange
    case Returns((off, s1)) => Returns(ChunkCounted(s1, s.header, off))
  }

  /**
   * After the loop: `off` more bytes of body (in 32 bits), the request
   * header put back, and the body complete when the count reaches
   * Content-Length.
   */
  function ChunkCounted(s: ReqState, header: Header, off: nat): (r: ReqState)
    ensures r.header == header && r.bodySize == (s.bodySize + off) % USIZE_MOD
    ensures r.completeBody == (s.completeBody || r.bodySize == header.content.length)
  {
    var size := (s.bodySize + off) % USIZE_MOD;
    var s2 := s.(bodySize := size, header := header);
    if size == header.content.length then s2.(completeBody := true) else s2
  }

  /** With a non-empty boundary, `body_size` grows by the chunk's length, modulo 2^32. */
  lemma MultipartCountsChunk(bytes: seq<Byte>, s: ReqState, gen: Option<ContentType -> Option<Store>>, now: int)
    requires |bytes| < USIZE_MOD && s.header.content.ctype.boundary != []
    requires MultipartBody(bytes, s, gen, now).Returns?
    ensures MultipartBody(bytes, s, gen, now).value.bodySize == (s.bodySize + |bytes|) % USIZE_MOD
  {
    MultipartConsumesChunk(s.header.content.ctype.boundary, bytes, 0, s, gen, now);
  }

  // ---------------------------------------------------------------------------
  // ParseRequest

  /**
   * `ParseRequest` on a state: an empty chunk is refused; an incomplete
   * header is scanned first (and an incomplete result ends the call);
   * Content-Length 0 completes the body at once; otherwise the rest of
   * the chunk goes to the body parser, which only handles multipart
   * bodies.  The result is the returned flag and the new state.
   */
  function ParseRequestOf(s: ReqState, bytes: seq<Byte>, gen: Option<ContentType -> Option<Store>>,
                          now: int): (r: Throws<(bool, ReqState)>)
    requires |bytes| < USIZE_MOD
    ensures r.Returns? ==> (!r.value.0 <==> bytes == [])
    ensures bytes == [] ==> r == Returns((false, s))
  {
    if bytes == [] then Returns((false, s))
    else
      var hr := if !s.header.complete then HeaderChunk(s, bytes) else Returns((0, s));
      match hr
      case OutOfRange => OutOfRange
      case Returns((bodyOff, s1)) =>
        if !s1.header.complete then Returns((true, s1))
        else
          var s2 := if s1.header.content.length == 0 then s1.(completeBody := true) else s1;
          if s2.completeBody then Returns((true, s2))
          else
            match RequestBody(bytes[bodyOff..], s2, gen, now)
            case OutOfRange => OutOfRange
            case Returns(s3) => Returns((true, s3))
  }

  /** `ParseRequestBody`: only a multipart body is parsed; any other leaves the state as it is. */
  function RequestBody(bytes: seq<Byte>, s: ReqState, gen: Option<ContentType -> Option<Store>>,
                       now: int): (r: Throws<ReqState>)
    requires |bytes| < USIZE_MOD
    ensures s.header.content.ctype.name != MultipartType ==> r == Returns(s)
  {
    if s.header.content.ctype.name == MultipartType then MultipartBody(bytes, s, gen, now) else Returns(s)
  }

  /**
   * The body is completed only by a Content-Length of 0 or by a byte count
   * equal to Content-Length, and once complete it stays complete.
   */
  lemma BodyCompletion(s: ReqState, bytes: seq<Byte>, gen: Option<ContentType -> Option<Store>>, now: int)
    requires |bytes| < USIZE_MOD && ParseRequestOf(s, bytes, gen, now).Returns?
    ensures s.completeBody ==> ParseRequestOf(s, bytes, gen, now).value.1.completeBody
    ensures !s.completeBody && ParseRequestOf(s, bytes, gen, now).value.1.completeBody ==>
              ParseRequestOf(s, bytes, gen, now).value.1.header.complete &&
              (ParseRequestOf(s, bytes, gen, now).value.1.header.content.length == 0 ||
               ParseRequestOf(s, bytes, gen, now).value.1.bodySize ==
               ParseRequestOf(s, bytes, gen, now).value.1.header.content.length)
  {
  }

  /**
   * A body that is not multipart, with a non-zero Content-Length, is never
   * completed: once the header is complete, further chunks change nothing.
   */
  lemma PlainBodyNeverCompletes(s: ReqState, bytes: seq<Byte>, gen: Option<ContentType -> Option<Store>>, now: int)
    requires |bytes| < USIZE_MOD && bytes != []
    requires s.header.complete && !s.completeBody
    requires s.header.content.length > 0 && s.header.content.ctype.name != MultipartType
    ensures ParseRequestOf(s, bytes, gen, now) == Returns((true, s))
    ensures !Completed(ParseRequestOf(s, bytes, gen, now).value.1)
  {
  }

  /** A Content-Length of 0 completes the request with its header. */
  lemma ZeroLengthCompletes(s: ReqState, bytes: seq<Byte>, gen: Option<ContentType -> Option<Store>>, now: int)
    requires |bytes| < USIZE_MOD && bytes != []
    requires ParseRequestOf(s, bytes, gen, now).Returns?
    requires ParseRequestOf(s, bytes, gen, now).value.1.header.complete
    requires ParseRequestOf(s, bytes, gen, now).value.1.header.content.length == 0
    ensures Completed(ParseRequestOf(s, bytes, gen, now).value.1)
  {
  }

  // ---------------------------------------------------------------------------
  // Request getters

  /** `Request::Get(name)`: the query value of the request target, or the empty string. */
  function Get(s: ReqState, name: string): (v: string)
    ensures name !in s.header.line.target.query ==> v == ""
  {
    if name in s.header.line.target.query then s.header.line.target.query[name] else ""
  }

  /** `Get<std::string>(name, def)`: the default replaces a missing or empty value. */
  function GetOr(s: ReqState, name: string, def: string): (v: string)
    ensures v == def || v == Get(s, name)
    ensures v == def <==> Get(s, name) == "" || Get(s, name) == def
  {
    if Get(s, name) == "" then def else Get(s, name)
  }

  /** `Get<int>(name, def)`: `atol` of the value, narrowed to 32 bits, or the default for an empty value. */
  function GetInt(s: ReqState, name: string, def: int): (v: int)
    ensures Get(s, name) == "" ==> v == def
    ensures Get(s, name) != "" ==> v == CNumbers.ToInt32(CNumbers.Atol(Get(s, name)))
  {
    if Get(s, name) == "" then def else CNumbers.ToInt32(CNumbers.Atol(Get(s, name)))
  }

  /** `Get<int64_t>(name, def)`: `atoll` of the value, or the default for an empty value. */
  function GetInt64(s: ReqState, name: string, def: int): (v: int)
    ensures Get(s, name) == "" ==> v == def
    ensures Get(s, name) != "" ==> CNumbers.LONG_MIN <= v <= CNumbers.LONG_MAX
  {
    if Get(s, name) == "" then def else CNumbers.Atol(Get(s, name))
  }

  /** `Get<bool>(name, def)`: `ParseBoolValue` matches the whole value against `true`. */
  function GetBool(s: ReqState, name: string, def: bool): (v: bool)
    ensures Get(s, name) == "" ==> v == def
    ensures Get(s, name) != "" ==> (v <==> Get(s, name) == "true")
  {
    if Get(s, name) == "" then def else Get(s, name) == "true"
  }

  /** `Request::Post(name)`: the field of that name, or none. */
  function Post(s: ReqState, name: string): (f: Option<Field>)
    ensures f.Some? <==> name in s.fieldsPost
    ensures f.Some? ==> f.value == s.fieldsPost[name]
  {
    if name in s.fieldsPost then Some(s.fieldsPost[name]) else None
  }

  // ---------------------------------------------------------------------------
  // The request object

  /**
   * `ProtocolHTTP::Request`: its `State` and the storage generator it
   * holds.  The parse stages update the state in place.
   */
  class Request {
    var state: ReqState
    var generator: Option<ContentType -> Option<Store>>

    constructor (now: int)
      ensures state == NewState(now) && generator.None?
    {
      state := NewState(now);
      generator := None;
    }

    /** `UseStorageGenerator`. */
    method UseStorageGenerator(g: ContentType -> Option<Store>)
      modifies this
      ensures state == old(state) && generator == Some(g)
    {
      generator := Some(g);
    }

    /** `ResetState`: a new `State`, which drops the generator too. */
    method ResetState(now: int)
      modifies this
      ensures state == NewState(now) && generator.None?
    {
      state := NewState(now);
      generator := None;
    }

    /** `ParseRequestHeader`, the loop over the chunk. */
    method ParseRequestHeader(bytes: seq<Byte>) returns (r: Throws<nat>)
      modifies this
      ensures generator == old(generator)
      ensures HeaderChunk(old(state), bytes).OutOfRange? ==> r.OutOfRange?
      ensures HeaderChunk(old(state), bytes).Returns? ==>
                r.Returns? && r.value == HeaderChunk(old(state), bytes).value.0 &&
                state == HeaderChunk(old(state), bytes).value.1
    {
      var line := state.headerLastLine;
      var h := state.header.(complete := false);
      ghost var total := ScanHeader(bytes, 0, line, h);
      var offs := 0;
      var stop := EndOfData;
      var done := false;
      while !done && offs < |bytes|
        invariant offs <= |bytes|
        invariant !done ==> ScanHeader(bytes, offs, line, h) == total
        invariant done ==> total == Returns(Scan(offs, line, h, stop))
        decreases if done then 0 else 1, |bytes| - offs
      {
        var b := bytes[offs];
        if b == CR {
          offs := offs + 1;
        } else if b == LF {
          if |line| < 2 {
            if offs > 2 {
              h := h.(complete := true);
            }
            offs := offs + 1;
            stop := EndOfHeader;
            done := true;
          } else {
            var res := HeaderFieldOf(line, h);
            if res.OutOfRange? {
              return OutOfRange;
            }
            h := res.value.1;
            line := "";
            offs := offs + 1;
          }
        } else {
          line := line + [b as char];
          if |line| > LINE_MAX_LEN {
            stop := LineTooLong;
            done := true;
          } else {
            offs := offs + 1;
          }
        }
      }
      state := state.(header := h, headerLastLine := if h.complete then "" else line);
      r := Returns(offs);
    }

    /** `FindMultipartBoundary`, the counting loop over the chunk. */
    method FindMultipartBoundary(boundary: string, bytes: seq<Byte>) returns (off: nat)
      requires |bytes| < USIZE_MOD
      modifies this
      ensures generator == old(generator)
      ensures off == FindBoundary(boundary, bytes, old(state), generator).0
      ensures state == FindBoundary(boundary, bytes, old(state), generator).1
    {
      if boundary == [] {
        return 0;
      }
      var name := state.postHeader.content.disposition.name;
      state := WithField(state, generator);
      ghost var withField := state;
      var delim := Delimiter(boundary);
      var m := state.bodyLastMatch;
      ghost var total := MatchFrom(delim, bytes, 0, m);
      state := state.(boundaryWasFound := false);
      off := 0;
      var found := false;
      while !found && off < |bytes|
        invariant off <= |bytes|
        invariant !found ==> MatchFrom(delim, bytes, off, m) == total
        invariant found ==> 0 < off && total.0 == Some(off - 1) && total.1 == m && m == |delim|
        decreases if found then 0 else 1, |bytes| - off
      {
        m := NextMatch(delim, bytes[off], m);
        if m == |delim| {
          found := true;
        }
        off := off + 1;
      }
      // The source appends the part's last bytes and records the hit just before leaving the loop.
      if found {
        if name != "" && off - 1 > m {
          state := AppendTo(state, name, bytes[..off - 1 - (m as int + 1)]);
        }
        state := state.(bodyLastMatch := 0, boundaryWasFound := true);
      }
      state := state.(bodyLastMatch := m);
      if !found && name != "" {
        state := AppendTo(state, name, bytes);
      }
    }

    /**
     * One pass of the loop body of `ParseMultipartRequestBody` at `off`;
     * `brk` is the `break` after the delimiter search.
     */
    method MultipartPass(boundary: string, bytes: seq<Byte>, off: nat, now: int) returns (r: Throws<(nat, bool)>)
      requires off < |bytes| < USIZE_MOD
      modifies this
      ensures generator == old(generator)
      ensures var m := MultipartStep(boundary, bytes, off, old(state), generator, now);
              (m.OutOfRange? ==> r.OutOfRange?) &&
              (m.Returns? ==> r == Returns((m.value.0, m.value.1)) && state == m.value.2)
    {
      var next := off;
      if state.postHeader.complete || !state.boundaryWasFound {
        var p := FindMultipartBoundary(boundary, bytes[off..]);
        if state.boundaryWasFound {
          state := state.(postHeader := DefaultHeader(now));
        }
        next := off + p;
        if next >= |bytes| || p == 0 {
          return Returns((next, true));
        }
      }
      r := PartHeaderPass(bytes, next);
    }

    /** The header half of a pass: resume the part header and scan it from `off`. */
    method PartHeaderPass(bytes: seq<Byte>, off: nat) returns (r: Throws<(nat, bool)>)
      requires off <= |bytes| < USIZE_MOD
      modifies this
      ensures generator == old(generator)
      ensures HeaderPass(bytes, off, old(state)).OutOfRange? ==> r.OutOfRange?
      ensures HeaderPass(bytes, off, old(state)).Returns? ==>
                r == Returns((HeaderPass(bytes, off, old(state)).value.0, false)) &&
                state == HeaderPass(bytes, off, old(state)).value.2
    {
      if !state.postHeader.complete {
        state := state.(header := state.postHeader);
      }
      var k := ParseRequestHeader(bytes[off..]);
      if k.OutOfRange? {
        return OutOfRange;
      }
      state := state.(postHeader := state.header);
      r := Returns((off + k.value, false));
    }

    /**
     * `ParseMultipartRequestBody`, with the loop corrected as `MultipartLoop`
     * is: a pass that consumes nothing ends the chunk.
     */
    method ParseMultipartRequestBody(bytes: seq<Byte>, now: int) returns (r: Throws<bool>)
      requires |bytes| < USIZE_MOD
      modifies this
      ensures generator == old(generator)
      ensures MultipartBody(bytes, old(state), generator, now).OutOfRange? ==> r.OutOfRange?
      ensures MultipartBody(bytes, old(state), generator, now).Returns? ==>
                r == Returns(true) && state == MultipartBody(bytes, old(state), generator, now).value
    {
      var saved := state.header;
      var consumed := MultipartChunk(saved.content.ctype.boundary, bytes, now);
      if consumed.OutOfRange? {
        return OutOfRange;
      }
      state := ChunkCounted(state, saved, consumed.value);
      r := Returns(true);
    }

    /** The `while` loop of `ParseMultipartRequestBody`: the count of bytes it consumed. */
    method MultipartChunk(boundary: string, bytes: seq<Byte>, now: int) returns (r: Throws<nat>)
      requires |bytes| < USIZE_MOD
      modifies this
      ensures generator == old(generator)
      ensures var m := MultipartLoop(boundary, bytes, 0, old(state), generator, now);
              (m.OutOfRange? ==> r.OutOfRange?) &&
              (m.Returns? ==> r == Returns(m.value.0) && state == m.value.1)
    {
      ghost var total := MultipartLoop(boundary, bytes, 0, state, generator, now);
      var off := 0;
      var done := false;
      while !done && off < |bytes|
        invariant off <= |bytes| && generator == old(generator)
        invariant !done ==> MultipartLoop(boundary, bytes, off, state, generator, now) == total
        invariant done ==> total.Returns? && total.value.0 == off && total.value.1 == state
        decreases if done then 0 else 1, |bytes| - off
      {
        var pass := MultipartPass(boundary, bytes, off, now);
        if pass.OutOfRange? {
          return OutOfRange;
        }
        var (next, brk) := pass.value;
        if brk {
          done := true;
        } else if next == off {
          // As written, this pass would repeat for ever (`LongPartLineStalls`).
          done := true;
          next := |bytes|;
        }
        off := next;
      }
      r := Returns(off);
    }

    /** `ParseRequestBody`. */
    method ParseRequestBody(bytes: seq<Byte>, now: int) returns (r: Throws<bool>)
      requires |bytes| < USIZE_MOD
      modifies this
      ensures generator == old(generator)
      ensures RequestBody(bytes, old(state), generator, now).OutOfRange? ==> r.OutOfRange?
      ensures RequestBody(bytes, old(state), generator, now).Returns? ==>
                r == Returns(true) && state == RequestBody(bytes, old(state), generator, now).value
    {
      if state.header.content.ctype.name == MultipartType {
        r := ParseMultipartRequestBody(bytes, now);
      } else {
        r := Returns(true);
      }
    }

    /** `ProtocolHTTP::ParseRequest` on this request. */
    method ParseRequest(bytes: seq<Byte>, now: int) returns (r: Throws<bool>)
      requires |bytes| < USIZE_MOD
      modifies this
      ensures generator == old(generator)
      ensures ParseRequestOf(old(state), bytes, generator, now).OutOfRange? ==> r.OutOfRange?
      ensures ParseRequestOf(old(state), bytes, generator, now).Returns? ==>
                r == Returns(ParseRequestOf(old(state), bytes, generator, now).value.0) &&
                state == ParseRequestOf(old(state), bytes, generator, now).value.1
    {
      if bytes == [] {
        return Returns(false);
      }
      var bodyOff := 0;
      if !state.header.complete {
        var k := ParseRequestHeader(bytes);
        if k.OutOfRange? {
          return OutOfRange;
        }
        bodyOff := k.value;
        if !state.header.complete {
          return Returns(true);
        }
      }
      if state.header.content.length == 0 {
        state := state.(completeBody := true);
      }
      if !state.completeBody {
        r := ParseRequestBody(bytes[bodyOff..], now);
        if r.Returns? {
          r := Returns(true);
        }
        return;
      }
      r := Returns(true);
    }
  }
}