/**
 * `Uri::CheckQuery` of webapp_proto_http.cpp: the query stage of the
 * request-target parser.  When the cursor is on a `?`, the text up to the
 * first `#` is cut at every `&`; each pair must be made of query
 * characters and is split at its first `=` into a decoded key and value,
 * inserted with `std::map::insert` (the first pair with a key wins).
 */
module UriQuery {
  import opened Text
  import opened Validator
  import opened HttpUri
  import Percent

  /** The key of a query pair: the decoded text before its first `=`. */
  function PairKey(piece: string): string
  {
    Percent.Decode(UpTo(piece, FindFirstOf(piece, {'='}, 0)))
  }

  /**
   * The value of a query pair: the decoded text after its first `=`, or
   * the whole pair when it has none (`substr(npos + 1)` is `substr(0)`).
   */
  function PairValue(piece: string): string
  {
    var eq := FindFirstOf(piece, {'='}, 0);
    Percent.Decode(if eq.None? then piece else piece[eq.value + 1..])
  }

  /** The insertion of one query pair. */
  function InsertPair(acc: map<string, string>, piece: string): map<string, string>
  {
    MapInsert(acc, PairKey(piece), PairValue(piece))
  }

  /**
   * A pair `k=v` whose key holds no `=` splits back into its decoded key
   * and value (further `=` belong to the value); a pair without `=` is
   * both its own key and its own value.
   */
  lemma PairSplitsAtFirstEquals(k: string, v: string)
    requires '=' !in k
    ensures PairKey(k + "=" + v) == Percent.Decode(k)
    ensures PairValue(k + "=" + v) == Percent.Decode(v)
    ensures '=' !in v ==> PairKey(v) == Percent.Decode(v) == PairValue(v)
  {
    var piece := k + "=" + v;
    FindFirstOfAt(piece, '=', |k|);
    assert piece[..|k|] == k;
    assert piece[|k| + 1..] == v;
    if '=' !in v {
      FindFirstOfAbsent(v, '=');
    }
  }

  /** The first `=` of `s` is at `i` when `s[i]` is one and none comes before. */
  lemma {:induction false} FindFirstOfAt(s: string, c: char, i: nat)
    requires i < |s| && s[i] == c && c !in s[..i]
    ensures FindFirstOf(s, {c}, 0) == Some(i)
  {
    assert forall j :: 0 <= j < i ==> s[j] == s[..i][j];
  }

  lemma {:induction false} FindFirstOfAbsent(s: string, c: char)
    requires c !in s
    ensures FindFirstOf(s, {c}, 0).None?
  {
    assert forall j :: 0 <= j < |s| ==> s[j] != c;
  }

  /**
   * The pairs from the boundary `b` (the `?` or an `&`) up to `end` (the
   * first `#`, or the end of the text), inserted into `acc`: `(ok, query,
   * final cursor)`.  Empty pairs are not skipped.  A pair with a character
   * outside the query alphabet stops the walk; earlier pairs stay.
   */
  function QueryFrom(val: string, b: nat, end: Option<nat>, acc: map<string, string>)
    : (w: (bool, map<string, string>, Option<nat>))
    requires Walkable(val, '&', b, end)
    ensures InRange(w.2, |val|)
    decreases |val| - b
  {
    var next := NextCut(val, '&', b, end);
    var piece := Piece(val, '&', b, end);
    NextBoundary(val, '&', b, end);
    if !Valid(piece, QueryChars) then (false, acc, Some(b))
    else if next == end then (true, InsertPair(acc, piece), end)
    else QueryFrom(val, next.value, end, InsertPair(acc, piece))
  }

  /**
   * `CheckQuery`: clears the query; when the cursor is on a `?`, reads the
   * pairs up to the first `#` and leaves the cursor there.
   */
  function ParseQuery(u: Uri, val: string): (r: Throws<Parsed>)
    ensures r.Returns? ==> r.value.uri.scheme == u.scheme && r.value.uri.authority == u.authority &&
                           r.value.uri.path == u.path && r.value.uri.fragment == u.fragment
    ensures r.OutOfRange? <==> u.offset.Some? && u.offset.value >= |val|
    ensures r.Returns? && r.value.ok ==> InRange(r.value.uri.offset, |val|)
  {
    if u.offset.None? then Returns(Parsed(true, u.(query := map[])))
    else if u.offset.value >= |val| then OutOfRange
    else if val[u.offset.value] != '?' then Returns(Parsed(true, u.(query := map[])))
    else
      var w := QueryFrom(val, u.offset.value, FindFirstOf(val, {'#'}, u.offset.value + 1), map[]);
      Returns(Parsed(w.0, u.(query := w.1, offset := w.2)))
  }

  // ---------------------------------------------------------------------------
  // Reference reading

  /**
   * Reference reading of a query: the pieces between `&` separators are
   * inserted in order, and the first one outside the query alphabet stops
   * the walk with a failure, keeping the earlier pairs.
   */
  function Pairs(pieces: seq<string>, acc: map<string, string>): (bool, map<string, string>)
  {
    if pieces == [] then (true, acc)
    else if !Valid(pieces[0], QueryChars) then (false, acc)
    else Pairs(pieces[1..], InsertPair(acc, pieces[0]))
  }

  /** The cursor walk reads the text up to the stop as `Pairs` of its `&`-split. */
  lemma {:induction false} QueryFromSplit(val: string, b: nat, end: Option<nat>, acc: map<string, string>)
    requires Walkable(val, '&', b, end)
    ensures b + 1 <= Pos(end, |val|) <= |val|
    ensures var w := QueryFrom(val, b, end, acc);
            (w.0, w.1) == Pairs(Split(val[b + 1..Pos(end, |val|)], '&'), acc)
    decreases |val| - b
  {
    var piece := Piece(val, '&', b, end);
    if NextCut(val, '&', b, end) == end {
      CutIsLast(val, '&', b, end);
      QueryLast(val, b, end, acc);
      PairsCons(piece, [], acc);
    } else {
      CutIsInner(val, '&', b, end);
      var n := NextCut(val, '&', b, end).value;
      QueryNext(val, b, end, acc);
      PairsCons(piece, Split(val[n + 1..Pos(end, |val|)], '&'), acc);
      if Valid(piece, QueryChars) {
        QueryFromSplit(val, n, end, InsertPair(acc, piece));
      }
    }
  }

  /** The walk's last pair. */
  lemma QueryLast(val: string, b: nat, end: Option<nat>, acc: map<string, string>)
    requires Walkable(val, '&', b, end) && NextCut(val, '&', b, end) == end
    ensures var piece := Piece(val, '&', b, end);
            QueryFrom(val, b, end, acc) ==
              if !Valid(piece, QueryChars) then (false, acc, Some(b)) else (true, InsertPair(acc, piece), end)
  {
  }

  /** The walk's inner pairs: the pair, then the walk from the next boundary. */
  lemma QueryNext(val: string, b: nat, end: Option<nat>, acc: map<string, string>)
    requires Walkable(val, '&', b, end) && NextCut(val, '&', b, end) != end
    ensures NextCut(val, '&', b, end).Some? && Walkable(val, '&', NextCut(val, '&', b, end).value, end)
    ensures var piece := Piece(val, '&', b, end);
            QueryFrom(val, b, end, acc) ==
              if !Valid(piece, QueryChars) then (false, acc, Some(b))
              else QueryFrom(val, NextCut(val, '&', b, end).value, end, InsertPair(acc, piece))
  {
    NextBoundary(val, '&', b, end);
  }

  lemma PairsCons(piece: string, tail: seq<string>, acc: map<string, string>)
    ensures Pairs([piece] + tail, acc) ==
              if !Valid(piece, QueryChars) then (false, acc) else Pairs(tail, InsertPair(acc, piece))
  {
    assert ([piece] + tail)[0] == piece && ([piece] + tail)[1..] == tail;
  }

  /** Pairs read earlier keep their values: later pairs never overwrite a key. */
  lemma {:induction false} PairsKeepEarlier(pieces: seq<string>, acc: map<string, string>)
    ensures acc.Keys <= Pairs(pieces, acc).1.Keys
    ensures forall k :: k in acc ==> Pairs(pieces, acc).1[k] == acc[k]
  {
    if pieces != [] && Valid(pieces[0], QueryChars) {
      PairsKeepEarlier(pieces[1..], InsertPair(acc, pieces[0]));
    }
  }

  /**
   * When every pair is valid the walk succeeds, and a key gets the value of
   * the first pair that carries it.
   */
  lemma {:induction false} PairsFirstWins(pieces: seq<string>, i: nat)
    requires forall j :: 0 <= j < |pieces| ==> Valid(pieces[j], QueryChars)
    requires i < |pieces| && forall j :: 0 <= j < i ==> PairKey(pieces[j]) != PairKey(pieces[i])
    ensures Pairs(pieces, map[]).0
    ensures PairKey(pieces[i]) in Pairs(pieces, map[]).1
    ensures Pairs(pieces, map[]).1[PairKey(pieces[i])] == PairValue(pieces[i])
  {
    PairsFrom(pieces, map[], i);
  }

  lemma {:induction false} PairsFrom(pieces: seq<string>, acc: map<string, string>, i: nat)
    requires forall j :: 0 <= j < |pieces| ==> Valid(pieces[j], QueryChars)
    requires i < |pieces| && forall j :: 0 <= j < i ==> PairKey(pieces[j]) != PairKey(pieces[i])
    requires PairKey(pieces[i]) !in acc
    ensures Pairs(pieces, acc).0
    ensures PairKey(pieces[i]) in Pairs(pieces, acc).1
    ensures Pairs(pieces, acc).1[PairKey(pieces[i])] == PairValue(pieces[i])
  {
    var next := InsertPair(acc, pieces[0]);
    if i == 0 {
      PairsKeepEarlier(pieces[1..], next);
      PairsAllValid(pieces[1..], next);
    } else {
      PairsFrom(pieces[1..], next, i - 1);
    }
  }

  lemma {:induction false} PairsAllValid(pieces: seq<string>, acc: map<string, string>)
    requires forall j :: 0 <= j < |pieces| ==> Valid(pieces[j], QueryChars)
    ensures Pairs(pieces, acc).0
  {
    if pieces != [] {
      PairsAllValid(pieces[1..], InsertPair(acc, pieces[0]));
    }
  }

  // ---------------------------------------------------------------------------
  // The CheckQuery loop

  /**
   * What is left of the query walk: continued from the cursor `off` with
   * the pairs read so far, it gives `final`.
   */
  ghost predicate QueryRemains(val: string, end: Option<nat>, off: Option<nat>,
                               query: map<string, string>, final: (bool, map<string, string>, Option<nat>))
  {
    if off == end then final == (true, query, end)
    else off.Some? && Walkable(val, '&', off.value, end) && final == QueryFrom(val, off.value, end, query)
  }

  lemma QueryTakesPair(val: string, end: Option<nat>, b: nat, query: map<string, string>,
                       final: (bool, map<string, string>, Option<nat>))
    requires QueryRemains(val, end, Some(b), query, final) && Some(b) != end
    requires Valid(Piece(val, '&', b, end), QueryChars)
    ensures QueryRemains(val, end, NextCut(val, '&', b, end), InsertPair(query, Piece(val, '&', b, end)), final)
  {
    NextBoundary(val, '&', b, end);
  }

  lemma QueryRejectsPair(val: string, end: Option<nat>, b: nat, query: map<string, string>,
                         final: (bool, map<string, string>, Option<nat>))
    requires QueryRemains(val, end, Some(b), query, final) && Some(b) != end
    requires !Valid(Piece(val, '&', b, end), QueryChars)
    ensures final == (false, query, Some(b))
  {
  }

  /**
   * One pass of the `CheckQuery` loop from the boundary `b`: finds the next
   * `&` (or stops at the `#`), validates the pair in between and, when it
   * is valid, decodes its key and value and inserts them.
   */
  method ReadPair(val: string, b: nat, crosshatch: Option<nat>, query: map<string, string>)
    returns (off: Option<nat>, valid: bool, inserted: map<string, string>)
    requires Walkable(val, '&', b, crosshatch)
    ensures off == NextCut(val, '&', b, crosshatch)
    ensures valid == Valid(Piece(val, '&', b, crosshatch), QueryChars)
    ensures valid ==> inserted == InsertPair(query, Piece(val, '&', b, crosshatch))
  {
    off := FindFirstOf(val, {'&'}, b + 1);
    if crosshatch.Some? && (off.None? || off.value > crosshatch.value) {
      off := crosshatch;
    }
    NextBoundary(val, '&', b, crosshatch);
    var encoded := val[b + 1 .. Pos(off, |val|)];
    assert encoded == Piece(val, '&', b, crosshatch);
    valid := Valid(encoded, QueryChars);
    inserted := query;
    if valid {
      var key, value := DecodePair(encoded);
      inserted := MapInsert(query, key, value);
    }
  }

  /** The key before the first `=` and the value after it, both percent-decoded. */
  method DecodePair(encoded: string) returns (key: string, value: string)
    ensures key == PairKey(encoded) && value == PairValue(encoded)
  {
    var eq := FindFirstOf(encoded, {'='}, 0);
    key := Percent.DecodeString(UpTo(encoded, eq));
    value := Percent.DecodeString(if eq.None? then encoded else encoded[eq.value + 1..]);
  }

  /** The loop of `CheckQuery`, computing `ParseQuery`. */
  method CheckQuery(u: Uri, val: string) returns (r: Throws<Parsed>)
    ensures r == ParseQuery(u, val)
  {
    if u.offset.None? || (u.offset.value < |val| && val[u.offset.value] != '?') {
      return Returns(Parsed(true, u.(query := map[])));
    }
    if u.offset.value >= |val| {
      return OutOfRange;
    }
    var crosshatch := FindFirstOf(val, {'#'}, u.offset.value + 1);
    var ok, query, offset := ReadPairs(val, u.offset.value, crosshatch);
    return Returns(Parsed(ok, u.(query := query, offset := offset)));
  }

  /** The pairs from the `?` at `o` up to the `#`, read pass by pass. */
  method ReadPairs(val: string, o: nat, crosshatch: Option<nat>)
    returns (ok: bool, query: map<string, string>, offset: Option<nat>)
    requires Walkable(val, '&', o, crosshatch)
    ensures (ok, query, offset) == QueryFrom(val, o, crosshatch, map[])
  {
    query := map[];
    offset := Some(o);
    var off: Option<nat> := Some(o);
    ghost var final := QueryFrom(val, o, crosshatch, map[]);
    while off != crosshatch
      invariant offset == off
      invariant QueryRemains(val, crosshatch, off, query, final)
      decreases |val| - Pos(off, |val|)
    {
      var b := offset.value;
      NextBoundary(val, '&', b, crosshatch);
      var valid, inserted;
      off, valid, inserted := ReadPair(val, b, crosshatch, query);
      if !valid {
        QueryRejectsPair(val, crosshatch, b, query, final);
        return false, query, offset;
      }
      QueryTakesPair(val, crosshatch, b, query, final);
      query := inserted;
      offset := off;
    }
    ok := true;
  }
}
