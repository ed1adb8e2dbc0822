/**
 * Shared vocabulary of the HTTP engine: bytes, the `std::string` search
 * primitives the parsers are built from (with `npos` as `None`), the
 * out-of-range exception that `substr`/`at` raise, and the small string
 * helpers of webapp_proto_http.cpp (`UpperSymbolsToLower`, `TruncateString`).
 */
module Text {

  /** `Protocol::Byte` is `uint8_t`. */
  type Byte = b: int | 0 <= b < 256

  /** `USize` is `uint32_t`: counters of that type wrap modulo 2^32. */
  const USIZE_MOD: int := 0x1_0000_0000

  datatype Option<T> = None | Some(value: T)

  /**
   * The outcome of code that may raise `std::out_of_range` from
   * `std::string::substr` or `std::string::at`.  Nothing in the engine
   * catches it, so the model only records that it happened.
   */
  datatype Throws<T> = Returns(value: T) | OutOfRange

  /** Bytes reinterpreted as characters, as `(char)kByte` does. */
  function ToChars(bs: seq<Byte>): (s: string)
    ensures |s| == |bs|
    ensures forall i :: 0 <= i < |bs| ==> s[i] as int == bs[i]
  {
    if bs == [] then [] else [bs[0] as char] + ToChars(bs[1..])
  }

  /** `std::map::insert`: a key already present keeps its value. */
  function MapInsert<K, V>(m: map<K, V>, key: K, value: V): (r: map<K, V>)
    ensures r.Keys == m.Keys + {key}
    ensures forall k :: k in m ==> r[k] == m[k]
    ensures key !in m ==> r[key] == value
  {
    if key in m then m else m[key := value]
  }

  // ---------------------------------------------------------------------------
  // std::string search primitives.  `None` stands for `std::string::npos`;
  // a start position past the end finds nothing, as in the standard library.

  /** `s.find_first_of(cs, from)`. */
  function FindFirstOf(s: string, cs: set<char>, from: nat): (r: Option<nat>)
    ensures r.Some? ==> from <= r.value < |s| && s[r.value] in cs
    ensures r.Some? ==> forall k :: from <= k < r.value ==> s[k] !in cs
    ensures r.None? ==> forall k :: from <= k < |s| ==> s[k] !in cs
    decreases |s| - from
  {
    if from >= |s| then None
    else if s[from] in cs then Some(from)
    else FindFirstOf(s, cs, from + 1)
  }

  /** The first hit at or after `from` is `i` when `s[i]` is in `cs` and nothing before it is. */
  lemma FindFirstAt(s: string, cs: set<char>, from: nat, i: nat)
    requires from <= i < |s| && s[i] in cs
    requires forall k :: from <= k < i ==> s[k] !in cs
    ensures FindFirstOf(s, cs, from) == Some(i)
  {
  }

  /** There is no hit at or after `from` when no character from there on is in `cs`. */
  lemma {:induction false} FindNone(s: string, cs: set<char>, from: nat)
    requires forall k :: from <= k < |s| ==> s[k] !in cs
    ensures FindFirstOf(s, cs, from).None?
    decreases |s| - from
  {
    if from < |s| {
      FindNone(s, cs, from + 1);
    }
  }

  /** `s.find_first_not_of(cs, from)`. */
  function FindFirstNotOf(s: string, cs: set<char>, from: nat): (r: Option<nat>)
    ensures r.Some? ==> from <= r.value < |s| && s[r.value] !in cs
    ensures r.Some? ==> forall k :: from <= k < r.value ==> s[k] in cs
    ensures r.None? ==> forall k :: from <= k < |s| ==> s[k] in cs
    decreases |s| - from
  {
    if from >= |s| then None
    else if s[from] !in cs then Some(from)
    else FindFirstNotOf(s, cs, from + 1)
  }

  /** `s.find_last_not_of(cs)`, searching the first `upto` characters. */
  function FindLastNotOf(s: string, cs: set<char>, upto: nat): (r: Option<nat>)
    requires upto <= |s|
    ensures r.Some? ==> r.value < upto && s[r.value] !in cs
    ensures r.Some? ==> forall k :: r.value < k < upto ==> s[k] in cs
    ensures r.None? ==> forall k :: 0 <= k < upto ==> s[k] in cs
  {
    if upto == 0 then None
    else if s[upto - 1] !in cs then Some(upto - 1)
    else FindLastNotOf(s, cs, upto - 1)
  }

  /** `s.substr(pos)` for a position that may be `npos`-shifted to the end. */
  function Rest(s: string, pos: nat): string
  {
    if pos <= |s| then s[pos..] else []
  }

  /** The prefix of `s` up to an optional position (`substr(0, pos)`). */
  function UpTo(s: string, pos: Option<nat>): (r: string)
    ensures pos.Some? && pos.value <= |s| ==> r == s[..pos.value]
    ensures pos.None? ==> r == s
  {
    match pos
    case None => s
    case Some(p) => if p <= |s| then s[..p] else s
  }

  // ---------------------------------------------------------------------------
  // UpperSymbolsToLower

  predicate IsUpper(c: char) { 'A' <= c <= 'Z' }

  function LowerChar(c: char): char
  {
    if IsUpper(c) then (c as int + 32) as char else c
  }

  /** `UpperSymbolsToLower`: ASCII upper-case letters become lower-case. */
  function Lower(s: string): (r: string)
    ensures |r| == |s|
    ensures forall i :: 0 <= i < |s| ==> r[i] == LowerChar(s[i])
  {
    if s == [] then [] else [LowerChar(s[0])] + Lower(s[1..])
  }

  /** Text without upper-case letters is its own lower-case form. */
  lemma LowerNoUpper(s: string)
    requires forall i :: 0 <= i < |s| ==> !IsUpper(s[i])
    ensures Lower(s) == s
  {
    assert forall i :: 0 <= i < |s| ==> Lower(s)[i] == s[i];
  }

  lemma {:induction false} LowerIdempotent(s: string)
    ensures Lower(Lower(s)) == Lower(s)
  {
    var l := Lower(s);
    var ll := Lower(l);
    assert forall i :: 0 <= i < |l| ==> ll[i] == l[i];
  }

  // ---------------------------------------------------------------------------
  // TruncateString

  const BLANK: set<char> := {' ', '"'}

  /** Some character of `s` is neither a space nor a double quote. */
  predicate HasContent(s: string)
  {
    exists i :: 0 <= i < |s| && s[i] !in BLANK
  }

  /**
   * `TruncateString`: strips spaces and double quotes from both ends.  On a
   * string with no other character the source computes `substr(npos, 1)`
   * and throws, so such input is excluded here; callers that can meet it
   * use `TruncateOrThrow`.
   */
  function TruncateString(s: string): (r: string)
    requires HasContent(s)
    ensures |r| > 0 && r[0] !in BLANK && r[|r| - 1] !in BLANK
  {
    ContentBounds(s);
    s[FindFirstNotOf(s, BLANK, 0).value..FindLastNotOf(s, BLANK, |s|).value + 1]
  }

  /** What is stripped from either end is spaces and double quotes only. */
  lemma TruncateStrips(s: string)
    requires HasContent(s)
    ensures exists i, j :: 0 <= i <= j <= |s| && TruncateString(s) == s[i..j]
                           && (forall k :: 0 <= k < i ==> s[k] in BLANK)
                           && (forall k :: j <= k < |s| ==> s[k] in BLANK)
  {
    ContentBounds(s);
    var i := FindFirstNotOf(s, BLANK, 0).value;
    var j := FindLastNotOf(s, BLANK, |s|).value + 1;
    assert TruncateString(s) == s[i..j];
  }

  /** A text with content has a first and a last non-blank character, in that order. */
  lemma ContentBounds(s: string)
    requires HasContent(s)
    ensures FindFirstNotOf(s, BLANK, 0).Some? && FindLastNotOf(s, BLANK, |s|).Some?
    ensures FindFirstNotOf(s, BLANK, 0).value <= FindLastNotOf(s, BLANK, |s|).value
  {
    var i :| 0 <= i < |s| && s[i] !in BLANK;
    assert FindFirstNotOf(s, BLANK, 0).value <= i;
  }

  /** Stripping adds no character: one absent from `s` is absent from the result. */
  lemma TruncateWithout(s: string, c: char)
    requires HasContent(s) && forall k :: 0 <= k < |s| ==> s[k] != c
    ensures c !in TruncateString(s)
  {
    ContentBounds(s);
    var f := FindFirstNotOf(s, BLANK, 0).value;
    var t := TruncateString(s);
    forall k | 0 <= k < |t|
      ensures t[k] != c
    {
      assert t[k] == s[f + k];
    }
  }

  /** `TruncateString` at a call site that can receive blank input. */
  function TruncateOrThrow(s: string): (r: Throws<string>)
    ensures r.OutOfRange? <==> !HasContent(s)
    ensures r.Returns? ==> r.value == TruncateString(s)
  {
    if HasContent(s) then Returns(TruncateString(s)) else OutOfRange
  }

  lemma {:induction false} TruncateIdempotent(s: string)
    requires HasContent(s)
    ensures HasContent(TruncateString(s))
    ensures TruncateString(TruncateString(s)) == TruncateString(s)
  {
    var t := TruncateString(s);
    assert t[0] !in BLANK;
    assert FindFirstNotOf(t, BLANK, 0) == Some(0);
    assert FindLastNotOf(t, BLANK, |t|) == Some(|t| - 1);
    assert t[0..|t|] == t;
  }

  /** A string that neither starts nor ends with a blank is its own stripped form. */
  lemma TruncatePlain(s: string)
    requires |s| > 0 && s[0] !in BLANK && s[|s| - 1] !in BLANK
    ensures HasContent(s) && TruncateString(s) == s
  {
    assert FindFirstNotOf(s, BLANK, 0) == Some(0);
    assert FindLastNotOf(s, BLANK, |s|) == Some(|s| - 1);
    assert s[0..|s|] == s;
  }

  // ---------------------------------------------------------------------------
  // Decimal numerals (stream output of unsigned integers)

  predicate IsDigit(c: char) { '0' <= c <= '9' }

  function DigitChar(d: nat): (c: char)
    requires d < 10
    ensures IsDigit(c) && c as int - '0' as int == d
  {
    ('0' as int + d) as char
  }

  /** What `operator<<` writes for an unsigned value. */
  function DecimalString(n: nat): (s: string)
    ensures |s| > 0
    ensures forall i :: 0 <= i < |s| ==> IsDigit(s[i])
    ensures n > 0 ==> s[0] != '0'
  {
    if n < 10 then [DigitChar(n)] else DecimalString(n / 10) + [DigitChar(n % 10)]
  }

  /** The value of a string of decimal digits. */
  function DigitsValue(s: string): nat
    requires forall i :: 0 <= i < |s| ==> IsDigit(s[i])
  {
    if s == [] then 0
    else
      assert IsDigit(s[|s| - 1]);
      10 * DigitsValue(s[..|s| - 1]) + (s[|s| - 1] as int - '0' as int)
  }

  lemma {:induction false} DecimalRoundTrip(n: nat)
    ensures DigitsValue(DecimalString(n)) == n
  {
    if n >= 10 {
      DecimalRoundTrip(n / 10);
      var s := DecimalString(n);
      assert s[..|s| - 1] == DecimalString(n / 10);
    }
  }

  /** Items joined with a separator between neighbours. */
  function Join(items: seq<string>, sep: string): string
  {
    if items == [] then []
    else if |items| == 1 then items[0]
    else items[0] + sep + Join(items[1..], sep)
  }

  lemma {:induction false} JoinSnoc(items: seq<string>, x: string, sep: string)
    requires items != []
    ensures Join(items + [x], sep) == Join(items, sep) + sep + x
  {
    if |items| > 1 {
      assert (items + [x])[1..] == items[1..] + [x];
      JoinSnoc(items[1..], x, sep);
    }
  }

  /**
   * `s` cut at every occurrence of `c`: the pieces between separators, in
   * order, including empty ones.
   */
  function Split(s: string, c: char): (r: seq<string>)
    ensures |r| > 0
    decreases |s|
  {
    var k := FindFirstOf(s, {c}, 0);
    if k.None? then [s] else [s[..k.value]] + Split(s[k.value + 1..], c)
  }

  /** Splitting loses nothing: the pieces hold no separator and join back to `s`. */
  lemma {:induction false} SplitJoin(s: string, c: char)
    ensures forall i :: 0 <= i < |Split(s, c)| ==> c !in Split(s, c)[i]
    ensures Join(Split(s, c), [c]) == s
    decreases |s|
  {
    var k := FindFirstOf(s, {c}, 0);
    if k.Some? {
      var rest := s[k.value + 1..];
      SplitJoin(rest, c);
      var r := Split(s, c);
      assert r == [s[..k.value]] + Split(rest, c);
      assert r[1..] == Split(rest, c);
      assert s == s[..k.value] + [c] + rest;
      forall i | 0 <= i < |r| ensures c !in r[i] {
        if i == 0 {
          assert forall j :: 0 <= j < k.value ==> s[..k.value][j] == s[j];
        } else {
          assert r[i] == Split(rest, c)[i - 1];
        }
      }
    } else {
      assert forall j :: 0 <= j < |s| ==> s[j] != c;
    }
  }

  /** Searching a slice is searching the whole string from the slice's start. */
  lemma FindInSlice(s: string, cs: set<char>, lo: nat, hi: nat)
    requires lo <= hi <= |s|
    ensures var f := FindFirstOf(s, cs, lo);
            FindFirstOf(s[lo..hi], cs, 0) ==
              if f.Some? && f.value < hi then Some(f.value - lo) else None
  {
    var t := s[lo..hi];
    var f := FindFirstOf(s, cs, lo);
    if f.Some? && f.value < hi {
      FindFirstAt(t, cs, 0, f.value - lo);
    } else {
      FindNone(t, cs, 0);
    }
  }

  /** Splitting a slice `s[lo..hi]`: its first piece ends at the first separator before `hi`. */
  lemma SplitSlice(s: string, c: char, lo: nat, hi: nat)
    requires lo <= hi <= |s|
    ensures var f := FindFirstOf(s, {c}, lo);
            Split(s[lo..hi], c) ==
              if f.Some? && f.value < hi then [s[lo..f.value]] + Split(s[f.value + 1..hi], c)
              else [s[lo..hi]]
  {
    var t := s[lo..hi];
    var f := FindFirstOf(s, {c}, lo);
    FindInSlice(s, {c}, lo, hi);
    if f.Some? && f.value < hi {
      assert t[..f.value - lo] == s[lo..f.value];
      assert t[f.value - lo + 1..] == s[f.value + 1..hi];
    }
  }

  /** Dropping the first character of a concatenation drops it from the left part. */
  lemma DropFirst(a: string, b: string)
    requires |a| > 0
    ensures (a + b)[1..] == a[1..] + b
  {
  }

  /** A text without the separator is one piece. */
  lemma SplitNone(a: string, c: char)
    requires c !in a
    ensures Split(a, c) == [a]
  {
    forall i | 0 <= i < |a|
      ensures a[i] != c
    {
      assert a[i] in a;
    }
  }

  /** A separator after a piece without one cuts exactly there. */
  lemma SplitCons(a: string, c: char, rest: string)
    requires c !in a
    ensures Split(a + [c] + rest, c) == [a] + Split(rest, c)
  {
    var s := a + [c] + rest;
    forall j | 0 <= j < |a|
      ensures s[j] !in {c}
    {
      assert s[j] == a[j];
    }
    FindFirstAt(s, {c}, 0, |a|);
    assert s[..|a|] == a;
    assert s[|a| + 1..] == rest;
  }

  /** Splitting a suffix `s[lo..]`: its first piece ends at the first separator from `lo`. */
  lemma SplitFrom(s: string, c: char, lo: nat)
    requires lo <= |s|
    ensures var f := FindFirstOf(s, {c}, lo);
            Split(s[lo..], c) ==
              if f.Some? then [s[lo..f.value]] + Split(s[f.value + 1..], c) else [s[lo..]]
  {
    SplitSlice(s, c, lo, |s|);
    assert s[lo..|s|] == s[lo..];
    var f := FindFirstOf(s, {c}, lo);
    if f.Some? {
      assert s[f.value + 1..|s|] == s[f.value + 1..];
    }
  }

  // ---------------------------------------------------------------------------
  // Loops that may throw part-way

  /** `f` applied to each item in order; the first exception ends the run. */
  function MapThrows<A, B>(f: A -> Throws<B>, xs: seq<A>): Throws<seq<B>>
  {
    if xs == [] then Returns([])
    else if f(xs[0]).OutOfRange? then OutOfRange
    else
      var rest := MapThrows(f, xs[1..]);
      if rest.OutOfRange? then OutOfRange else Returns([f(xs[0]).value] + rest.value)
  }

  /** A run throws exactly when some item does; otherwise it holds each item's value, in order. */
  lemma {:induction false} MapThrowsItems<A, B>(f: A -> Throws<B>, xs: seq<A>)
    ensures MapThrows(f, xs).OutOfRange? <==> exists i :: 0 <= i < |xs| && f(xs[i]).OutOfRange?
    ensures var r := MapThrows(f, xs);
            r.Returns? ==> |r.value| == |xs| && forall i :: 0 <= i < |xs| ==> f(xs[i]) == Returns(r.value[i])
  {
    if xs != [] {
      MapThrowsItems(f, xs[1..]);
      assert forall i :: 1 <= i < |xs| ==> xs[1..][i - 1] == xs[i];
      if f(xs[0]).Returns? && MapThrows(f, xs[1..]).OutOfRange? {
        var j :| 0 <= j < |xs[1..]| && f(xs[1..][j]).OutOfRange?;
        assert f(xs[j + 1]).OutOfRange?;
      }
    }
  }

  /** What a loop returns when `done` is already collected and the rest gives `r`. */
  function AfterDone<B>(done: seq<B>, r: Throws<seq<B>>): Throws<seq<B>>
  {
    if r.OutOfRange? then OutOfRange else Returns(done + r.value)
  }

  /** A run over one item is that item's result. */
  lemma MapThrowsOne<A, B>(f: A -> Throws<B>, x: A)
    ensures MapThrows(f, [x]) == if f(x).OutOfRange? then OutOfRange else Returns([f(x).value])
  {
    assert [x][1..] == [];
    assert MapThrows(f, [x][1..]) == Returns([]);
    if f(x).Returns? {
      assert [f(x).value] + [] == [f(x).value];
    }
  }

  /** A run where every item returns collects exactly those values. */
  lemma {:induction false} MapThrowsAll<A, B>(f: A -> Throws<B>, xs: seq<A>, ys: seq<B>)
    requires |xs| == |ys|
    requires forall i :: 0 <= i < |xs| ==> f(xs[i]) == Returns(ys[i])
    ensures MapThrows(f, xs) == Returns(ys)
  {
    if xs != [] {
      assert f(xs[0]) == Returns(ys[0]);
      MapThrowsAll(f, xs[1..], ys[1..]);
      assert [ys[0]] + ys[1..] == ys;
    }
  }

  /** A run over `[x] + xs` is `x`'s result followed by the run over `xs`. */
  lemma MapThrowsCons<A, B>(f: A -> Throws<B>, x: A, xs: seq<A>)
    ensures MapThrows(f, [x] + xs) ==
              if f(x).OutOfRange? then OutOfRange else AfterDone([f(x).value], MapThrows(f, xs))
  {
    assert ([x] + xs)[0] == x;
    assert ([x] + xs)[1..] == xs;
  }

  /** Collecting `a` and then `b` in front of a run is collecting `a + b`. */
  lemma AfterDoneAppend<B>(a: seq<B>, b: seq<B>, r: Throws<seq<B>>)
    ensures AfterDone(a, AfterDone(b, r)) == AfterDone(a + b, r)
  {
    if r.Returns? {
      assert a + (b + r.value) == (a + b) + r.value;
    }
  }

  /** Before the first step nothing is collected. */
  lemma AfterNothing<B>(r: Throws<seq<B>>)
    ensures AfterDone([], r) == r
  {
    if r.Returns? {
      assert [] + r.value == r.value;
    }
  }

  /** After the last step the collection is what was collected. */
  lemma AfterAll<B>(done: seq<B>)
    ensures AfterDone(done, Returns([])) == Returns(done)
  {
    assert done + [] == done;
  }

  /** One step of such a loop: the head item either throws or joins what is collected. */
  lemma MapThrowsStep<A, B>(f: A -> Throws<B>, done: seq<B>, xs: seq<A>)
    requires xs != []
    ensures AfterDone(done, MapThrows(f, xs)) ==
              if f(xs[0]).OutOfRange? then OutOfRange
              else AfterDone(done + [f(xs[0]).value], MapThrows(f, xs[1..]))
  {
    var rest := MapThrows(f, xs[1..]);
    if f(xs[0]).Returns? && rest.Returns? {
      assert done + ([f(xs[0]).value] + rest.value) == (done + [f(xs[0]).value]) + rest.value;
    }
  }

  /** The piece of `s` from `from` up to the separator at `next`, or to the end. */
  function PieceFrom(s: string, from: nat, next: Option<nat>): (r: string)
    requires from <= |s| && (next.Some? ==> from <= next.value <= |s|)
    ensures |r| <= |s| - from
  {
    if next.None? then s[from..] else s[from..next.value]
  }

  /**
   * What a loop that hops from one `c` to the next collects, starting at
   * the separator at `cur` (nothing when `cur` is `npos`): `f` of the
   * piece up to the next `c` (or the end), then on from that `c`; the
   * first exception ends the loop.
   */
  function MapPieces<B>(f: string -> Throws<B>, s: string, c: char, cur: Option<nat>): Throws<seq<B>>
    requires cur.Some? ==> cur.value < |s|
    decreases if cur.None? then 0 else |s| - cur.value
  {
    if cur.None? then Returns([])
    else
      var next := FindFirstOf(s, {c}, cur.value + 1);
      var piece := PieceFrom(s, cur.value + 1, next);
      if f(piece).OutOfRange? then OutOfRange
      else AfterDone([f(piece).value], MapPieces(f, s, c, next))
  }

  /** One hop, with what is already collected in front. */
  lemma MapPiecesStep<B>(f: string -> Throws<B>, s: string, c: char, k: nat, done: seq<B>,
                         next: Option<nat>, piece: string)
    requires k < |s| && next == FindFirstOf(s, {c}, k + 1)
    requires piece == PieceFrom(s, k + 1, next)
    ensures f(piece).OutOfRange? ==> AfterDone(done, MapPieces(f, s, c, Some(k))).OutOfRange?
    ensures f(piece).Returns? ==>
              AfterDone(done, MapPieces(f, s, c, Some(k))) ==
              AfterDone(done + [f(piece).value], MapPieces(f, s, c, next))
  {
    if f(piece).Returns? {
      MapPiecesHop(f, s, c, k, next, piece);
      AfterDoneAppend(done, [f(piece).value], MapPieces(f, s, c, next));
    }
  }

  /** A hop whose piece returns puts its value in front of the hops after it. */
  lemma MapPiecesHop<B>(f: string -> Throws<B>, s: string, c: char, k: nat, next: Option<nat>, piece: string)
    requires k < |s| && next == FindFirstOf(s, {c}, k + 1)
    requires piece == PieceFrom(s, k + 1, next)
    requires f(piece).Returns?
    ensures MapPieces(f, s, c, Some(k)) == AfterDone([f(piece).value], MapPieces(f, s, c, next))
  {
  }

  /**
   * The hopping loop itself: from the separator at `off`, hand each piece
   * to `f` and collect the results, stopping at the first exception.
   */
  method CollectPieces<B>(f: string -> Throws<B>, s: string, c: char, off: Option<nat>) returns (r: Throws<seq<B>>)
    requires off.Some? ==> off.value < |s|
    ensures r == MapPieces(f, s, c, off)
  {
    var done: seq<B> := [];
    var cur := off;
    AfterNothing(MapPieces(f, s, c, off));
    while cur.Some?
      invariant cur.Some? ==> cur.value < |s|
      invariant AfterDone(done, MapPieces(f, s, c, cur)) == MapPieces(f, s, c, off)
      decreases if cur.None? then 0 else |s| - cur.value
    {
      var next := FindFirstOf(s, {c}, cur.value + 1);
      var piece := PieceFrom(s, cur.value + 1, next);
      MapPiecesStep(f, s, c, cur.value, done, next, piece);
      var x := f(piece);
      if x.OutOfRange? {
        return OutOfRange;
      }
      done := done + [x.value];
      cur := next;
    }
    AfterAll(done);
    return Returns(done);
  }

  /** The hopping loop applies `f` to the pieces `Split` cuts after `cur`. */
  lemma {:induction false} MapPiecesSplit<B>(f: string -> Throws<B>, s: string, c: char, k: nat)
    requires k < |s|
    ensures MapPieces(f, s, c, Some(k)) == MapThrows(f, Split(s[k + 1..], c))
    decreases |s| - k
  {
    match FindFirstOf(s, {c}, k + 1)
    case None =>
      PiecesLast(f, s, c, k);
    case Some(n) =>
      MapPiecesSplit(f, s, c, n);
      PiecesNext(f, s, c, k, n);
  }

  /** The last piece runs to the end of `s`. */
  lemma PiecesLast<B>(f: string -> Throws<B>, s: string, c: char, k: nat)
    requires k < |s| && FindFirstOf(s, {c}, k + 1).None?
    ensures MapPieces(f, s, c, Some(k)) == MapThrows(f, Split(s[k + 1..], c))
  {
    SplitFrom(s, c, k + 1);
    MapThrowsCons(f, s[k + 1..], []);
    assert [s[k + 1..]] + [] == [s[k + 1..]];
  }

  /** With no separator after `k` there is one piece, the rest of `s`. */
  lemma PiecesOne<B>(f: string -> Throws<B>, s: string, c: char, k: nat)
    requires k < |s| && FindFirstOf(s, {c}, k + 1).None? && f(s[k + 1..]).Returns?
    ensures MapPieces(f, s, c, Some(k)) == Returns([f(s[k + 1..]).value])
  {
    MapPiecesHop(f, s, c, k, None, s[k + 1..]);
    assert [f(s[k + 1..]).value] + [] == [f(s[k + 1..]).value];
  }

  /** An inner piece runs to the next separator, and the rest agrees if it did from there. */
  lemma PiecesNext<B>(f: string -> Throws<B>, s: string, c: char, k: nat, n: nat)
    requires k < |s| && FindFirstOf(s, {c}, k + 1) == Some(n)
    requires MapPieces(f, s, c, Some(n)) == MapThrows(f, Split(s[n + 1..], c))
    ensures MapPieces(f, s, c, Some(k)) == MapThrows(f, Split(s[k + 1..], c))
  {
    SplitAt(s, c, k + 1, n);
    PiecesHop(f, s, c, k, n);
    HopMatches(f, s[k + 1..n], Split(s[n + 1..], c), MapPieces(f, s, c, Some(k)), MapPieces(f, s, c, Some(n)));
  }

  /** A first separator at `n` from `lo` ends the first piece of `s[lo..]`. */
  lemma SplitAt(s: string, c: char, lo: nat, n: nat)
    requires lo <= |s| && FindFirstOf(s, {c}, lo) == Some(n)
    ensures Split(s[lo..], c) == [s[lo..n]] + Split(s[n + 1..], c)
  {
    FindInSuffix(s, {c}, lo, n);
    SplitHead(s[lo..], c, n - lo);
    SuffixSlices(s, lo, n - lo);
  }

  /** The first hit from `lo` is the first hit in the suffix from `lo`, shifted. */
  lemma FindInSuffix(s: string, cs: set<char>, lo: nat, n: nat)
    requires lo <= |s| && FindFirstOf(s, cs, lo) == Some(n)
    ensures FindFirstOf(s[lo..], cs, 0) == Some(n - lo)
  {
    var t := s[lo..];
    forall j | 0 <= j < n - lo
      ensures t[j] !in cs
    {
      assert t[j] == s[lo + j];
    }
    assert t[n - lo] == s[n];
    FindFirstAt(t, cs, 0, n - lo);
  }

  /** A first separator at `k` ends the first piece. */
  lemma SplitHead(t: string, c: char, k: nat)
    requires FindFirstOf(t, {c}, 0) == Some(k)
    ensures Split(t, c) == [t[..k]] + Split(t[k + 1..], c)
  {
  }

  /** Cutting a suffix `s[lo..]` at `k` cuts `s` at `lo + k`. */
  lemma SuffixSlices(s: string, lo: nat, k: nat)
    requires lo + k < |s|
    ensures s[lo..][..k] == s[lo..lo + k]
    ensures s[lo..][k + 1..] == s[lo + k + 1..]
  {
  }

  /** A hop that agrees with the run over the rest agrees with the run over the piece and the rest. */
  lemma HopMatches<B>(f: string -> Throws<B>, piece: string, tail: seq<string>, here: Throws<seq<B>>, there: Throws<seq<B>>)
    requires there == MapThrows(f, tail)
    requires here == if f(piece).OutOfRange? then OutOfRange else AfterDone([f(piece).value], there)
    ensures here == MapThrows(f, [piece] + tail)
  {
    MapThrowsCons(f, piece, tail);
  }

  /** The hopping loop from `k`, when the next separator is at `n`. */
  lemma PiecesHop<B>(f: string -> Throws<B>, s: string, c: char, k: nat, n: nat)
    requires k < |s| && FindFirstOf(s, {c}, k + 1) == Some(n)
    ensures MapPieces(f, s, c, Some(k)) ==
              if f(s[k + 1..n]).OutOfRange? then OutOfRange
              else AfterDone([f(s[k + 1..n]).value], MapPieces(f, s, c, Some(n)))
  {
    if f(s[k + 1..n]).Returns? {
      MapPiecesHop(f, s, c, k, Some(n), s[k + 1..n]);
    }
  }

  /** Stripping: a leading blank character does not change the result. */
  lemma TruncateSkipsBlank(c: char, v: string)
    requires c in BLANK && HasContent(v)
    ensures HasContent([c] + v)
    ensures TruncateString([c] + v) == TruncateString(v)
  {
    ConsContent(c, v);
    ContentBounds(v);
    var f := FindFirstNotOf(v, BLANK, 0).value;
    var l := FindLastNotOf(v, BLANK, |v|).value;
    ConsBounds(c, v, f, l);
    ConsSlice(c, v, f, l + 1);
  }

  /** A blank put in front moves the first and the last content character one place on. */
  lemma ConsBounds(c: char, v: string, f: nat, l: nat)
    requires c in BLANK
    requires FindFirstNotOf(v, BLANK, 0) == Some(f) && FindLastNotOf(v, BLANK, |v|) == Some(l)
    ensures FindFirstNotOf([c] + v, BLANK, 0) == Some(f + 1)
    ensures FindLastNotOf([c] + v, BLANK, |[c] + v|) == Some(l + 1)
  {
    FirstNotOfShift(c, v);
    LastNotOfShift(c, v, |v|);
  }

  lemma ConsContent(c: char, v: string)
    requires HasContent(v)
    ensures HasContent([c] + v)
  {
    var i :| 0 <= i < |v| && v[i] !in BLANK;
    assert ([c] + v)[i + 1] == v[i];
  }

  lemma ConsSlice(c: char, v: string, a: nat, b: nat)
    requires a <= b <= |v|
    ensures ([c] + v)[a + 1..b + 1] == v[a..b]
  {
  }

  lemma {:induction false} FirstNotOfShift(c: char, v: string)
    requires c in BLANK
    ensures var f := FindFirstNotOf(v, BLANK, 0);
            FindFirstNotOf([c] + v, BLANK, 0) == if f.None? then None else Some(f.value + 1)
  {
    var w := [c] + v;
    assert w[0] in BLANK;
    FirstNotOfFrom(c, v, 0);
  }

  lemma {:induction false} FirstNotOfFrom(c: char, v: string, k: nat)
    requires k <= |v|
    ensures var f := FindFirstNotOf(v, BLANK, k);
            FindFirstNotOf([c] + v, BLANK, k + 1) == if f.None? then None else Some(f.value + 1)
    decreases |v| - k
  {
    var w := [c] + v;
    if k < |v| {
      assert w[k + 1] == v[k];
      FirstNotOfFrom(c, v, k + 1);
    }
  }

  lemma {:induction false} LastNotOfShift(c: char, v: string, upto: nat)
    requires c in BLANK && upto <= |v|
    ensures var l := FindLastNotOf(v, BLANK, upto);
            FindLastNotOf([c] + v, BLANK, upto + 1) == if l.None? then None else Some(l.value + 1)
  {
    var w := [c] + v;
    if upto > 0 {
      assert w[upto] == v[upto - 1];
      LastNotOfShift(c, v, upto - 1);
    }
  }
}
