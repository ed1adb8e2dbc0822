/**
 * `Uri::CheckPath` of webapp_proto_http.cpp: the path stage of the
 * request-target parser.  When the cursor is on a `/`, the text up to the
 * first `?` or `#` is cut at every `/`; empty segments are skipped, every
 * other segment must be made of path characters and is percent-decoded.
 */
module UriPath {
  import opened Text
  import opened Validator
  import opened HttpUri
  import Percent

  /**
   * The segments from the boundary `b` (the cursor or a `/`) up to `end`
   * (the first `?` or `#`, or the end of the text): `(ok, decoded
   * segments, final cursor)`.  Empty segments are skipped; the first
   * segment with a character outside the path alphabet stops the walk with
   * the cursor on the boundary before it and the path read so far dropped.
   */
  function PathFrom(val: string, b: nat, end: Option<nat>): (w: (bool, seq<string>, Option<nat>))
    requires Walkable(val, '/', b, end)
    ensures InRange(w.2, |val|)
    decreases |val| - b
  {
    var next := NextCut(val, '/', b, end);
    var seg := Piece(val, '/', b, end);
    NextBoundary(val, '/', b, end);
    var rest := if next == end then (true, [], end) else PathFrom(val, next.value, end);
    if seg == [] then rest
    else if !Valid(seg, SegmentChars) then (false, [], Some(b))
    else (rest.0, [Percent.Decode(seg)] + rest.1, rest.2)
  }

  /** Where the path stops: the first `?` or `#` after the cursor. */
  function PathEnd(val: string, o: nat): (e: Option<nat>)
    ensures e.Some? ==> o < e.value < |val| && val[e.value] in {'?', '#'}
  {
    Earliest(FindFirstOf(val, {'?'}, o + 1), FindFirstOf(val, {'#'}, o + 1))
  }

  /**
   * `CheckPath`: clears the path; when the cursor is on a `/`, reads the
   * segments up to the first `?` or `#` and leaves the cursor there.
   * `at()` on a cursor past the end throws.
   */
  function ParsePath(u: Uri, val: string): (r: Throws<Parsed>)
    ensures r.Returns? ==> r.value.uri.scheme == u.scheme && r.value.uri.authority == u.authority &&
                           r.value.uri.query == u.query && r.value.uri.fragment == u.fragment
    ensures r.OutOfRange? <==> u.offset.Some? && u.offset.value >= |val|
    ensures r.Returns? && r.value.ok ==> InRange(r.value.uri.offset, |val|)
  {
    if u.offset.None? then Returns(Parsed(true, u.(path := [])))
    else if u.offset.value >= |val| then OutOfRange
    else if val[u.offset.value] != '/' then Returns(Parsed(true, u.(path := [])))
    else
      var w := PathFrom(val, u.offset.value, PathEnd(val, u.offset.value));
      Returns(Parsed(w.0, u.(path := w.1, offset := w.2)))
  }

  // ---------------------------------------------------------------------------
  // Reference reading

  /**
   * Reference reading of a path: of the pieces between `/` separators,
   * empty ones are skipped, the first one outside the segment alphabet
   * fails the path (dropping what was read), and the others are decoded.
   */
  function Segments(pieces: seq<string>): (bool, seq<string>)
  {
    if pieces == [] then (true, [])
    else if pieces[0] == [] then Segments(pieces[1..])
    else if !Valid(pieces[0], SegmentChars) then (false, [])
    else
      var rest := Segments(pieces[1..]);
      (rest.0, [Percent.Decode(pieces[0])] + rest.1)
  }

  /** The cursor walk reads the text up to the stop as `Segments` of its `/`-split. */
  lemma {:induction false} PathFromSplit(val: string, b: nat, end: Option<nat>)
    requires Walkable(val, '/', b, end)
    ensures b + 1 <= Pos(end, |val|) <= |val|
    ensures var w := PathFrom(val, b, end);
            (w.0, w.1) == Segments(Split(val[b + 1..Pos(end, |val|)], '/'))
    decreases |val| - b
  {
    var seg := Piece(val, '/', b, end);
    if NextCut(val, '/', b, end) == end {
      CutIsLast(val, '/', b, end);
      PathLast(val, b, end);
      SegmentsCons(seg, []);
    } else {
      CutIsInner(val, '/', b, end);
      var n := NextCut(val, '/', b, end).value;
      PathFromSplit(val, n, end);
      PathNext(val, b, end);
      SegmentsCons(seg, Split(val[n + 1..Pos(end, |val|)], '/'));
    }
  }

  /** The walk's last piece. */
  lemma PathLast(val: string, b: nat, end: Option<nat>)
    requires Walkable(val, '/', b, end) && NextCut(val, '/', b, end) == end
    ensures var seg := Piece(val, '/', b, end);
            PathFrom(val, b, end) ==
              if seg == [] then (true, [], end)
              else if !Valid(seg, SegmentChars) then (false, [], Some(b))
              else (true, [Percent.Decode(seg)], end)
  {
    assert [Percent.Decode(Piece(val, '/', b, end))] + [] == [Percent.Decode(Piece(val, '/', b, end))];
  }

  /** The walk's inner pieces: the piece, then the walk from the next boundary. */
  lemma PathNext(val: string, b: nat, end: Option<nat>)
    requires Walkable(val, '/', b, end) && NextCut(val, '/', b, end) != end
    ensures NextCut(val, '/', b, end).Some? && Walkable(val, '/', NextCut(val, '/', b, end).value, end)
    ensures var seg := Piece(val, '/', b, end);
            var rest := PathFrom(val, NextCut(val, '/', b, end).value, end);
            PathFrom(val, b, end) ==
              if seg == [] then rest
              else if !Valid(seg, SegmentChars) then (false, [], Some(b))
              else (rest.0, [Percent.Decode(seg)] + rest.1, rest.2)
  {
    NextBoundary(val, '/', b, end);
  }

  lemma SegmentsCons(seg: string, tail: seq<string>)
    ensures Segments([seg] + tail) ==
              if seg == [] then Segments(tail)
              else if !Valid(seg, SegmentChars) then (false, [])
              else (Segments(tail).0, [Percent.Decode(seg)] + Segments(tail).1)
  {
    assert ([seg] + tail)[0] == seg && ([seg] + tail)[1..] == tail;
  }

  /** A path without empty or invalid pieces keeps one decoded segment per piece. */
  lemma {:induction false} SegmentsOfValidPieces(pieces: seq<string>)
    requires forall i :: 0 <= i < |pieces| ==> pieces[i] != [] && Valid(pieces[i], SegmentChars)
    ensures Segments(pieces).0
    ensures |Segments(pieces).1| == |pieces|
    ensures forall i :: 0 <= i < |pieces| ==> Segments(pieces).1[i] == Percent.Decode(pieces[i])
  {
    if pieces != [] {
      SegmentsOfValidPieces(pieces[1..]);
      var rest := Segments(pieces[1..]);
      assert Segments(pieces).1 == [Percent.Decode(pieces[0])] + rest.1;
    }
  }

  // ---------------------------------------------------------------------------
  // The CheckPath loop

  /**
   * What is left of the path walk: continued from the cursor `off` after
   * the segments read so far, it gives `final`.
   */
  ghost predicate PathRemains(val: string, end: Option<nat>, off: Option<nat>,
                              path: seq<string>, final: (bool, seq<string>, Option<nat>))
  {
    if off == end then final == (true, path, end)
    else
      off.Some? && Walkable(val, '/', off.value, end) &&
      var w := PathFrom(val, off.value, end);
      final == (w.0, path + w.1, w.2)
  }

  /**
   * The loop tests the cursor against `?` and `#` separately; a cursor that
   * never passes the earlier of the two has reached it exactly when it
   * equals either of them.
   */
  lemma AtEarliest(qm: Option<nat>, ch: Option<nat>, off: Option<nat>)
    requires off == Earliest(qm, ch) || (off.Some? && (Earliest(qm, ch).Some? ==> off.value < Earliest(qm, ch).value))
    ensures (off != ch && off != qm) <==> off != Earliest(qm, ch)
  {
  }

  lemma PathSkipsEmpty(val: string, end: Option<nat>, b: nat,
                       path: seq<string>, final: (bool, seq<string>, Option<nat>))
    requires PathRemains(val, end, Some(b), path, final) && Some(b) != end
    requires Piece(val, '/', b, end) == []
    ensures PathRemains(val, end, NextCut(val, '/', b, end), path, final)
  {
    NextBoundary(val, '/', b, end);
    assert path + [] == path;
  }

  lemma PathTakesSegment(val: string, end: Option<nat>, b: nat,
                         path: seq<string>, final: (bool, seq<string>, Option<nat>))
    requires PathRemains(val, end, Some(b), path, final) && Some(b) != end
    requires Piece(val, '/', b, end) != [] && Valid(Piece(val, '/', b, end), SegmentChars)
    ensures PathRemains(val, end, NextCut(val, '/', b, end),
                        path + [Percent.Decode(Piece(val, '/', b, end))], final)
  {
    NextBoundary(val, '/', b, end);
    var next := NextCut(val, '/', b, end);
    var rest := if next == end then (true, [], end) else PathFrom(val, next.value, end);
    var d := Percent.Decode(Piece(val, '/', b, end));
    assert PathFrom(val, b, end) == (rest.0, [d] + rest.1, rest.2);
    assert path + ([d] + rest.1) == (path + [d]) + rest.1;
    if next == end {
      assert path + [d] + [] == path + [d];
    }
  }

  lemma PathRejectsSegment(val: string, end: Option<nat>, b: nat,
                           path: seq<string>, final: (bool, seq<string>, Option<nat>))
    requires PathRemains(val, end, Some(b), path, final) && Some(b) != end
    requires Piece(val, '/', b, end) != [] && !Valid(Piece(val, '/', b, end), SegmentChars)
    ensures final == (false, path, Some(b))
  {
    assert PathFrom(val, b, end) == (false, [], Some(b));
    assert path + [] == path;
  }

  /**
   * The search at the head of the `CheckPath` loop body: the next `/` after
   * the boundary `b`, moved back to the `?` or `#` when it lies beyond
   * them, and the raw segment in between.
   */
  method NextSegment(val: string, b: nat, questionMark: Option<nat>, crosshatch: Option<nat>)
    returns (off: Option<nat>, encoded: string)
    requires Walkable(val, '/', b, Earliest(questionMark, crosshatch))
    requires questionMark.Some? ==> questionMark.value < |val|
    requires crosshatch.Some? ==> crosshatch.value < |val|
    ensures off == NextCut(val, '/', b, Earliest(questionMark, crosshatch))
    ensures encoded == Piece(val, '/', b, Earliest(questionMark, crosshatch))
  {
    off := FindFirstOf(val, {'/'}, b + 1);
    if questionMark.Some? && (off.None? || off.value > questionMark.value) {
      off := questionMark;
    }
    if crosshatch.Some? && (off.None? || off.value > crosshatch.value) {
      off := crosshatch;
    }
    CapTwice(FindFirstOf(val, {'/'}, b + 1), questionMark, crosshatch);
    NextBoundary(val, '/', b, Earliest(questionMark, crosshatch));
    encoded := val[b + 1 .. Pos(off, |val|)];
  }

  /** The loop of `CheckPath`, computing `ParsePath`. */
  method CheckPath(u: Uri, val: string) returns (r: Throws<Parsed>)
    ensures r == ParsePath(u, val)
  {
    if u.offset.None? || (u.offset.value < |val| && val[u.offset.value] != '/') {
      return Returns(Parsed(true, u.(path := [])));
    }
    if u.offset.value >= |val| {
      return OutOfRange;
    }
    var o := u.offset.value;
    var path: seq<string> := [];
    var offset: Option<nat> := u.offset;
    var off: Option<nat> := Some(o);
    var questionMark := FindFirstOf(val, {'?'}, o + 1);
    var crosshatch := FindFirstOf(val, {'#'}, o + 1);
    ghost var end := PathEnd(val, o);
    ghost var final := PathFrom(val, o, end);
    assert [] + final.1 == final.1;
    while off != crosshatch && off != questionMark
      invariant offset == off
      invariant PathRemains(val, end, off, path, final)
      decreases |val| - Pos(off, |val|)
    {
      AtEarliest(questionMark, crosshatch, off);
      var b := offset.value;
      NextBoundary(val, '/', b, end);
      var encoded;
      off, encoded := NextSegment(val, b, questionMark, crosshatch);
      if encoded == [] {
        PathSkipsEmpty(val, end, b, path, final);
        offset := off;
        continue;
      }
      if !Valid(encoded, SegmentChars) {
        PathRejectsSegment(val, end, b, path, final);
        return Returns(Parsed(false, u.(path := path, offset := offset)));
      }
      PathTakesSegment(val, end, b, path, final);
      var decoded := Percent.DecodeString(encoded);
      path := path + [decoded];
      offset := off;
    }
    AtEarliest(questionMark, crosshatch, off);
    return Returns(Parsed(true, u.(path := path, offset := off)));
  }
}
