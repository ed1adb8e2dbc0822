/**
 * The request of a data table (webapp_com_ctl.cpp, `DataIFace::Request`):
 * the `fields` cell names the columns to select, comma-separated, and the
 * `where` cell holds conditions separated by `&&`, each a field, a
 * comparison and a value (`size>=10`).
 */
module ComCtl {
  import opened Text
  import opened EnumSerializer
  import opened Components

  // ---------------------------------------------------------------------------
  // Conditions

  /** `Condition::Type`. */
  datatype Logic = Unknown | Eq | Lt | Gt | EqOrLt | EqOrGt

  /** What the founder of the comparison table adds, in order. */
  const CONDITION_ADDS: seq<(string, Logic)> :=
    [("=", Eq), ("<", Lt), (">", Gt), ("<=", EqOrLt), (">=", EqOrGt)]

  const CONDITION_TYPES: map<string, Logic> :=
    map["=" := Eq, "<" := Lt, ">" := Gt, "<=" := EqOrLt, ">=" := EqOrGt]

  /** The table is the founder's: five operators, each with its own comparison. */
  lemma ConditionTypesFounded()
    ensures Founded(CONDITION_ADDS) == CONDITION_TYPES
  {
    var a := CONDITION_ADDS;
    assert a[..4][..3] == a[..3] && a[..3][..2] == a[..2] && a[..2][..1] == a[..1] && a[..1][..0] == [];
    assert Founded(a[..1]) == map["=" := Eq];
    assert Founded(a[..2]) == map["=" := Eq, "<" := Lt];
    assert Founded(a[..3]) == map["=" := Eq, "<" := Lt, ">" := Gt];
    assert Founded(a[..4]) == map["=" := Eq, "<" := Lt, ">" := Gt, "<=" := EqOrLt];
    assert a[..5] == a && a[..|a| - 1] == a[..4];
  }

  /**
   * `ParseConditionType`: the comparison the operator names.  For any
   * other text `Find` leaves the result variable as it was, uninitialised:
   * that is `None` here.
   */
  function ParseConditionType(op: string): (r: Option<Logic>)
    ensures r.Some? <==> op in CONDITION_TYPES
    ensures r.Some? ==> r.value == CONDITION_TYPES[op] && r.value != Unknown
  {
    var (found, v) := Lookup(CONDITION_TYPES, op, Some(Unknown));
    if found then v else None
  }

  /** A condition: the field, the comparison and the value it is compared with. */
  datatype Condition = Condition(field: string, logic: Option<Logic>, value: string)

  /** What a text the pattern does not match leaves: no field, `kUnknown`, no value. */
  const NO_MATCH := Condition("", Some(Unknown), "")

  const OPS: set<char> := {'=', '<', '>'}

  /**
   * The pattern `([^=<>]+)([=<>]{1,2})(.+)` matches `text` from `s`: the
   * field `text[s..e]` holds no operator character, the operator
   * `text[e..e + k]` has one or two of them, and a value of at least one
   * character follows.
   */
  ghost predicate Matches(text: string, s: int, e: int, k: int)
  {
    0 <= s < e && 1 <= k <= 2 && e + k < |text| &&
    (forall i :: s <= i < e ==> text[i] !in OPS) &&
    (forall i :: e <= i < e + k ==> text[i] in OPS)
  }

  /**
   * The match `regex_search` reports: the leftmost one, and of those
   * starting there the one the greedy groups take.
   */
  ghost predicate IsSearchMatch(text: string, s: int, e: int, k: int)
  {
    Matches(text, s, e, k) &&
    forall s', e', k' :: Matches(text, s', e', k') ==> s <= s' && (s' == s ==> e' == e && k' <= k)
  }

  /**
   * `Condition(cond_text)`: the field runs from the first non-operator
   * character to the next operator character; the operator takes a second
   * operator character when one follows and leaves a value behind it; the
   * value is the rest.
   */
  function ParseCondition(text: string): (c: Condition)
    ensures c == NO_MATCH || c.field != ""
  {
    match FindFirstNotOf(text, OPS, 0)
    case None => NO_MATCH
    case Some(s) =>
      match FindFirstOf(text, OPS, s)
      case None => NO_MATCH
      case Some(e) =>
        if e + 1 >= |text| then NO_MATCH
        else
          var k := if text[e + 1] in OPS && e + 2 < |text| then 2 else 1;
          Condition(text[s..e], ParseConditionType(text[e..e + k]), text[e + k..])
  }

  /** Wherever the pattern matches, the condition is not `NO_MATCH`. */
  lemma MatchIsFound(text: string, s: int, e: int, k: int)
    requires Matches(text, s, e, k)
    ensures ParseCondition(text) != NO_MATCH
  {
    assert text[s] !in OPS;
    var s0 := FindFirstNotOf(text, OPS, 0).value;
    assert text[e] in OPS;
    var e0 := FindFirstOf(text, OPS, s0).value;
    if s < e0 {
      assert e0 == e;
    }
    var k0 := if text[e0 + 1] in OPS && e0 + 2 < |text| then 2 else 1;
    assert ParseCondition(text) == Condition(text[s0..e0], ParseConditionType(text[e0..e0 + k0]), text[e0 + k0..]);
  }

  /** When the pattern matches nowhere, the condition is `NO_MATCH`, and only then. */
  lemma NoMatchAnywhere(text: string)
    requires ParseCondition(text) == NO_MATCH
    ensures forall s, e, k :: !Matches(text, s, e, k)
  {
    forall s, e, k | Matches(text, s, e, k)
      ensures false
    {
      MatchIsFound(text, s, e, k);
    }
  }

  /** When it matches, the condition holds the groups of the match `regex_search` reports. */
  lemma SearchMatchFound(text: string)
    requires ParseCondition(text) != NO_MATCH
    ensures exists s, e, k :: IsSearchMatch(text, s, e, k) &&
              ParseCondition(text) == Condition(text[s..e], ParseConditionType(text[e..e + k]), text[e + k..])
  {
    var s := FindFirstNotOf(text, OPS, 0).value;
    var e := FindFirstOf(text, OPS, s).value;
    var k := if text[e + 1] in OPS && e + 2 < |text| then 2 else 1;
    assert Matches(text, s, e, k);
    forall s', e', k' | Matches(text, s', e', k')
      ensures s <= s' && (s' == s ==> e' == e && k' <= k)
    {
      assert text[s'] !in OPS;
      if s' == s {
        assert text[e'] in OPS;
        assert e <= e';
        assert text[e] in OPS;
      }
    }
    assert IsSearchMatch(text, s, e, k);
  }

  /** The one-character comparisons the table knows, as `field<op>value` conditions. */
  lemma ConditionExamples()
    ensures ParseCondition("field_0" + "=" + "10") == Condition("field_0", Some(Eq), "10")
    ensures ParseCondition("field_1" + "<" + "11") == Condition("field_1", Some(Lt), "11")
    ensures ParseCondition("field_2" + ">" + "12") == Condition("field_2", Some(Gt), "12")
  {
    FieldName('0');
    FieldName('1');
    FieldName('2');
    OneCharOperator("field_0", '=', "10");
    OneCharOperator("field_1", '<', "11");
    OneCharOperator("field_2", '>', "12");
  }

  /** The two-character operators of the same test. */
  lemma TwoCharConditionExamples()
    ensures ParseCondition("field_3" + "<=" + "13") == Condition("field_3", Some(EqOrLt), "13")
    ensures ParseCondition("field_4" + ">=" + "14") == Condition("field_4", Some(EqOrGt), "14")
  {
    FieldName('3');
    FieldName('4');
    TwoCharOperator("field_3", '<', '=', "13");
    TwoCharOperator("field_4", '>', '=', "14");
  }


  /** `==` is no operator of the table: the field and value are found, the comparison is not. */
  lemma DoubleEqualsHasNoComparison()
    ensures ParseCondition("field_0" + "==" + "9") == Condition("field_0", None, "9")
  {
    FieldName('0');
    TwoCharOperator("field_0", '=', '=', "9");
  }

  /** The field names of the examples hold no operator character. */
  lemma FieldName(d: char)
    requires '0' <= d <= '9'
    ensures forall i :: 0 <= i < |"field_" + [d]| ==> ("field_" + [d])[i] !in OPS
  {
  }

  /** A field without operator characters, an operator character, a value not starting with one. */
  lemma OneCharOperator(field: string, op: char, value: string)
    requires field != [] && value != [] && op in OPS && value[0] !in OPS
    requires forall i :: 0 <= i < |field| ==> field[i] !in OPS
    ensures ParseCondition(field + [op] + value) == Condition(field, ParseConditionType([op]), value)
  {
    var t := field + [op] + value;
    assert t[0] == field[0];
    FindFirstAt(t, OPS, 0, |field|);
    assert t[|field| + 1] == value[0];
    assert t[..|field|] == field && t[|field|..|field| + 1] == [op] && t[|field| + 1..] == value;
  }

  lemma TwoCharOperator(field: string, op1: char, op2: char, value: string)
    requires field != [] && value != [] && op1 in OPS && op2 in OPS
    requires forall i :: 0 <= i < |field| ==> field[i] !in OPS
    ensures ParseCondition(field + [op1, op2] + value) == Condition(field, ParseConditionType([op1, op2]), value)
  {
    var t := field + [op1, op2] + value;
    assert t[0] == field[0];
    FindFirstAt(t, OPS, 0, |field|);
    assert t[|field| + 1] == op2;
    assert t[..|field|] == field && t[|field|..|field| + 2] == [op1, op2] && t[|field| + 2..] == value;
  }

  // ---------------------------------------------------------------------------
  // The `fields` cell

  /**
   * One pass of `ParseRequestSelect`'s loop as written: the piece it
   * inserts and the next `from_off` (`None` for `npos`).  The start is one
   * past `from_off`, except when `from_off` is 0.
   */
  function SelectStep(text: string, from: nat): (r: (string, Option<nat>))
    requires from <= |text|
  {
    var start := from + (if from > 0 then 1 else 0);
    var comma := FindFirstOf(text, {','}, start);
    (if comma.Some? then text[start..comma.value] else Rest(text, start), comma)
  }

  /**
   * As written, a `fields` value starting with a comma inserts the empty
   * name and comes back to `from_off` 0: the loop never ends.
   */
  lemma LeadingCommaRepeats(text: string)
    requires text != [] && text[0] == ','
    ensures SelectStep(text, 0) == ("", Some(0))
  {
  }

  /** The names a `fields` value selects: its pieces between commas. */
  function SelectedFields(text: string): set<string>
  {
    set p | p in Split(text, ',')
  }

  /** The names from `start` on: the piece up to the next comma, then the names after it. */
  lemma SelectedFrom(text: string, start: nat)
    requires start <= |text|
    ensures var comma := FindFirstOf(text, {','}, start);
            SelectedFields(text[start..]) ==
              if comma.Some? then {text[start..comma.value]} + SelectedFields(text[comma.value + 1..])
              else {text[start..]}
  {
    SplitFrom(text, ',', start);
  }

  /** A name without a comma, then a comma: that name, then the names after it. */
  lemma SelectedCons(name: string, rest: string)
    requires ',' !in name
    ensures SelectedFields(name + [','] + rest) == {name} + SelectedFields(rest)
  {
    SplitCons(name, ',', rest);
  }

  /**
   * `ParseRequestSelect`, with the first pass told apart by a flag instead
   * of by `from_off` being 0: every piece between commas is inserted.
   */
  method ParseRequestSelect(text: string) returns (fields: set<string>)
    ensures fields == SelectedFields(text)
  {
    fields := {};
    var from: Option<nat> := Some(0);
    var first := true;
    while from.Some?
      invariant first ==> from == Some(0) && fields == {}
      invariant !first && from.Some? ==>
                  from.value < |text| && fields + SelectedFields(text[from.value + 1..]) == SelectedFields(text)
      invariant from.None? ==> fields == SelectedFields(text)
      decreases if from.None? then 0 else |text| + 2 - from.value - (if first then 0 else 1)
    {
      var start := if first then 0 else from.value + 1;
      var comma := FindFirstOf(text, {','}, start);
      SelectedFrom(text, start);
      assert text[0..] == text;
      if comma.Some? {
        fields := fields + {text[start..comma.value]};
      } else {
        fields := fields + {text[start..]};
      }
      from := comma;
      first := false;
    }
  }

  /** Names without commas, joined by commas, are all selected. */
  lemma SelectExample()
    ensures SelectedFields("field_0" + "," + "field_1" + "," + "field_2") == {"field_0", "field_1", "field_2"}
  {
    var f0, f1, f2 := "field_0", "field_1", "field_2";
    assert ',' !in f0 && ',' !in f1 && ',' !in f2;
    SplitNone(f2, ',');
    SelectedCons(f1, f2);
    SelectedCons(f0, f1 + [','] + f2);
    assert f0 + "," + f1 + "," + f2 == f0 + [','] + (f1 + [','] + f2);
  }

  // ---------------------------------------------------------------------------
  // The `where` cell

  /**
   * One pass of `ParseRequestWhere`'s loop as written: the start is two
   * past `from_off` (except when it is 0), and `find_first_of("&&")`
   * stops at any single `&`.  A start past the end makes `substr` throw.
   */
  function WhereStep(text: string, from: nat): (r: Throws<(string, Option<nat>)>)
    ensures r.OutOfRange? <==> from + (if from > 0 then 2 else 0) > |text|
  {
    var start := from + (if from > 0 then 2 else 0);
    if start > |text| then OutOfRange
    else
      var amper := FindFirstOf(text, {'&'}, start);
      Returns((if amper.Some? then text[start..amper.value] else text[start..], amper))
  }

  /** As written, a `where` value starting with `&` comes back to `from_off` 0: the loop never ends. */
  lemma LeadingAmpersandRepeats(text: string)
    requires text != [] && text[0] == '&'
    ensures WhereStep(text, 0) == Returns(("", Some(0)))
  {
  }

  /**
   * As written, a single `&` separates conditions, and one at the end
   * makes the next pass throw `std::out_of_range`.
   */
  lemma SingleAmpersandExamples()
    ensures WhereStep("a&b", 0) == Returns(("a", Some(1)))
    ensures WhereStep("a&b", 1) == Returns(("", None))
    ensures WhereStep("a&", 0) == Returns(("a", Some(1)))
    ensures WhereStep("a&", 1).OutOfRange?
  {
    assert FindFirstOf("a&b", {'&'}, 0) == Some(1);
    assert FindFirstOf("a&", {'&'}, 0) == Some(1);
    assert "a&b"[0..1] == "a" && "a&"[0..1] == "a";
    assert "a&b"[3..] == "";
  }

  /**
   * The whole loop of `ParseRequestWhere` as written, from `from_off` equal
   * to `from`: the piece of each pass, in order, or the `std::out_of_range`
   * a pass throws.  The loop need not end, so at most `fuel` passes run;
   * `None` means they were not enough.
   */
  function WhereAsWritten(text: string, from: nat, fuel: nat): (r: Option<Throws<seq<string>>>)
    decreases fuel
  {
    if fuel == 0 then None
    else
      match WhereStep(text, from)
      case OutOfRange => Some(OutOfRange)
      case Returns(step) =>
        if step.1.None? then Some(Returns([step.0]))
        else
          match WhereAsWritten(text, step.1.value, fuel - 1)
          case None => None
          case Some(OutOfRange) => Some(OutOfRange)
          case Some(Returns(rest)) => Some(Returns([step.0] + rest))
  }

  /** As written, a `where` value starting with `&` runs out of any number of passes. */
  lemma {:induction false} LeadingAmpersandSpins(text: string, fuel: nat)
    requires text != [] && text[0] == '&'
    ensures WhereAsWritten(text, 0, fuel).None?
    decreases fuel
  {
    if fuel > 0 {
      LeadingAmpersandRepeats(text);
      LeadingAmpersandSpins(text, fuel - 1);
    }
  }

  /**
   * As written, `a&b` gives `a` and then an empty piece, since the next
   * pass starts two past the single `&`; `a&` throws on its second pass.
   */
  lemma SingleAmpersandRuns()
    ensures WhereAsWritten("a&b", 0, 2) == Some(Returns(["a", ""]))
    ensures WhereAsWritten("a&", 0, 2) == Some(OutOfRange)
  {
    SingleAmpersandExamples();
    WhereAsWrittenLast("a&b", 1, 1, "");
    WhereAsWrittenNext("a&b", 0, 2, ["a", ""], 1);
    assert WhereAsWritten("a&", 1, 1) == Some(OutOfRange);
  }

  /**
   * On pieces without `&` joined by `&&`, the pass starting at `start`
   * stops at the `&&` after the first piece, or reaches the end.
   */
  lemma {:induction false} WhereStepOnJoin(text: string, start: nat, ps: seq<string>)
    requires start <= |text| && text[start..] == Join(ps, "&&")
    requires ps != [] && forall i :: 0 <= i < |ps| ==> '&' !in ps[i]
    ensures |ps| == 1 ==> FindFirstOf(text, {'&'}, start).None? && text[start..] == ps[0]
    ensures |ps| > 1 ==> var k := start + |ps[0]|;
              k + 2 <= |text| && FindFirstOf(text, {'&'}, start) == Some(k) && text[start..k] == ps[0] &&
              text[k..k + 2] == "&&" && text[k + 2..] == Join(ps[1..], "&&")
  {
    if |ps| == 1 {
      forall k | start <= k < |text|
        ensures text[k] !in {'&'}
      {
        assert text[k] == text[start..][k - start] == ps[0][k - start];
      }
      FindNone(text, {'&'}, start);
    } else {
      var k := start + |ps[0]|;
      var rest := Join(ps[1..], "&&");
      assert text[start..] == ps[0] + "&&" + rest;
      assert text[start..k] == text[start..][..|ps[0]|] == ps[0];
      assert text[k..k + 2] == text[start..][|ps[0]|..|ps[0]| + 2] == "&&";
      assert text[k + 2..] == text[start..][|ps[0]| + 2..] == rest;
      forall j | start <= j < k
        ensures text[j] !in {'&'}
      {
        assert text[j] == ps[0][j - start];
      }
      assert text[k] == "&&"[0];
      FindFirstAt(text, {'&'}, start, k);
    }
  }

  /** The pass from a `from_off` on the first `&` of a `&&` reads the first piece after it. */
  lemma WhereStepAfterPair(text: string, from: nat, ps: seq<string>)
    requires 0 < from && from + 2 <= |text| && text[from + 2..] == Join(ps, "&&")
    requires ps != [] && forall i :: 0 <= i < |ps| ==> '&' !in ps[i]
    ensures |ps| == 1 ==> WhereStep(text, from) == Returns((ps[0], None))
    ensures |ps| > 1 ==> WhereStep(text, from) == Returns((ps[0], Some(from + 2 + |ps[0]|)))
    ensures |ps| > 1 ==> var k := from + 2 + |ps[0]|;
              k + 2 <= |text| && text[k..k + 2] == "&&" && text[k + 2..] == Join(ps[1..], "&&")
    ensures forall i :: 0 <= i < |ps[1..]| ==> '&' !in ps[1..][i]
  {
    WhereStepOnJoin(text, from + 2, ps);
    forall i | 0 <= i < |ps[1..]|
      ensures '&' !in ps[1..][i]
    {
      assert ps[1..][i] == ps[i + 1];
    }
  }

  /** A pass that finds no `&` ends the loop with its piece. */
  lemma WhereAsWrittenLast(text: string, from: nat, fuel: nat, piece: string)
    requires fuel > 0 && WhereStep(text, from) == Returns((piece, None))
    ensures WhereAsWritten(text, from, fuel) == Some(Returns([piece]))
  {
  }

  /** A pass that finds an `&` is followed by the passes from there. */
  lemma WhereAsWrittenNext(text: string, from: nat, fuel: nat, ps: seq<string>, next: nat)
    requires fuel > 0 && ps != [] && WhereStep(text, from) == Returns((ps[0], Some(next)))
    requires WhereAsWritten(text, next, fuel - 1) == Some(Returns(ps[1..]))
    ensures WhereAsWritten(text, from, fuel) == Some(Returns(ps))
  {
    assert [ps[0]] + ps[1..] == ps;
  }

  /** From a `from_off` on the first `&` of a `&&`, the passes read back the pieces after it. */
  lemma {:induction false} WhereRunOnJoin(text: string, from: nat, ps: seq<string>)
    requires 0 < from && from + 2 <= |text| && text[from + 2..] == Join(ps, "&&")
    requires ps != [] && forall i :: 0 <= i < |ps| ==> '&' !in ps[i]
    ensures WhereAsWritten(text, from, |ps|) == Some(Returns(ps))
    decreases |ps|, 1
  {
    WhereStepAfterPair(text, from, ps);
    if |ps| == 1 {
      WhereAsWrittenLast(text, from, 1, ps[0]);
      assert [ps[0]] == ps;
    } else {
      WhereRunOnJoinMore(text, from, ps);
    }
  }

  /** The case of `WhereRunOnJoin` with a `&&` still ahead. */
  lemma {:induction false} WhereRunOnJoinMore(text: string, from: nat, ps: seq<string>)
    requires 0 < from && from + 2 <= |text| && text[from + 2..] == Join(ps, "&&")
    requires |ps| > 1 && forall i :: 0 <= i < |ps| ==> '&' !in ps[i]
    ensures WhereAsWritten(text, from, |ps|) == Some(Returns(ps))
    decreases |ps|, 0
  {
    WhereStepAfterPair(text, from, ps);
    var k := from + 2 + |ps[0]|;
    WhereRunOnJoin(text, k, ps[1..]);
    WhereAsWrittenNext(text, from, |ps|, ps, k);
  }

  /**
   * Where the loop as written is not thrown off (no piece holds an `&`,
   * and the first is not empty unless it is the only one), it reads the
   * same pieces as the corrected reading, one pass per piece.
   */
  lemma {:induction false} WhereAsWrittenAgrees(pieces: seq<string>)
    requires pieces != [] && forall i :: 0 <= i < |pieces| ==> '&' !in pieces[i]
    requires |pieces| > 1 ==> pieces[0] != ""
    ensures WhereAsWritten(Join(pieces, "&&"), 0, |pieces|) == Some(Returns(WherePieces(Join(pieces, "&&"), 0)))
  {
    var text := Join(pieces, "&&");
    WherePiecesOfJoin(pieces);
    assert text[0..] == text;
    WhereStepOnJoin(text, 0, pieces);
    if |pieces| == 1 {
      assert WhereStep(text, 0) == Returns((pieces[0], None));
      WhereAsWrittenLast(text, 0, 1, pieces[0]);
      assert [pieces[0]] == pieces;
    } else {
      var k := |pieces[0]|;
      assert WhereStep(text, 0) == Returns((pieces[0], Some(k)));
      WhereRunOnJoin(text, k, pieces[1..]);
      WhereAsWrittenNext(text, 0, |pieces|, pieces, k);
    }
  }

  /** `&&` starts at `i`. */
  predicate PairAt(text: string, i: nat)
  {
    i + 1 < |text| && text[i] == '&' && text[i + 1] == '&'
  }

  /** The first `&&` at or after `from`. */
  function FindPair(text: string, from: nat): (r: Option<nat>)
    ensures r.Some? ==> from <= r.value && r.value + 2 <= |text| && text[r.value] == '&' && text[r.value + 1] == '&'
    ensures r.Some? ==> forall i :: from <= i < r.value ==> !PairAt(text, i)
    decreases |text| - from
  {
    if from + 2 > |text| then None
    else if text[from] == '&' && text[from + 1] == '&' then Some(from)
    else FindPair(text, from + 1)
  }

  /** The pieces of `text[start..]` between the `&&` separators, read left to right. */
  function WherePieces(text: string, start: nat): (ps: seq<string>)
    requires start <= |text|
    ensures |ps| > 0
    decreases |text| - start
  {
    match FindPair(text, start)
    case None => [text[start..]]
    case Some(k) => [text[start..k]] + WherePieces(text, k + 2)
  }

  /** Nothing is lost: the pieces joined with `&&` give the text back. */
  lemma {:induction false} WherePiecesJoin(text: string, start: nat)
    requires start <= |text|
    ensures Join(WherePieces(text, start), "&&") == text[start..]
    decreases |text| - start
  {
    match FindPair(text, start)
    case None =>
    case Some(k) =>
      WherePiecesJoin(text, k + 2);
      var ps := WherePieces(text, start);
      assert ps[1..] == WherePieces(text, k + 2);
      assert text[start..] == text[start..k] + "&&" + text[k + 2..];
  }

  /** The conditions of a sequence of pieces, in order. */
  function ParseAll(pieces: seq<string>): (cs: seq<Condition>)
    ensures |cs| == |pieces|
  {
    if pieces == [] then [] else [ParseCondition(pieces[0])] + ParseAll(pieces[1..])
  }

  /**
   * The loop of `ParseRequestWhere` as a function, for a given reader of
   * one piece: what was read so far, then what is read from each piece
   * from `start` on.
   */
  function WhereFrom<B>(f: string -> B, text: string, start: nat, acc: seq<B>): seq<B>
    requires start <= |text|
    decreases |text| - start
  {
    match FindPair(text, start)
    case None => acc + [f(text[start..])]
    case Some(k) => WhereFrom(f, text, k + 2, acc + [f(text[start..k])])
  }

  /** The loop reads the conditions of the pieces, in order, after those it already holds. */
  lemma {:induction false} WhereFromPieces(text: string, start: nat, acc: seq<Condition>)
    requires start <= |text|
    ensures WhereFrom(ParseCondition, text, start, acc) == acc + ParseAll(WherePieces(text, start))
    decreases |text| - start
  {
    var ps := WherePieces(text, start);
    assert ParseAll(ps) == [ParseCondition(ps[0])] + ParseAll(ps[1..]);
    match FindPair(text, start)
    case None =>
    case Some(k) =>
      WhereFromPieces(text, k + 2, acc + [ParseCondition(text[start..k])]);
      assert ps[1..] == WherePieces(text, k + 2);
  }

  /** The conditions a `where` value holds. */
  function WhereConditions(text: string): seq<Condition>
  {
    ParseAll(WherePieces(text, 0))
  }

  /**
   * `ParseRequestWhere`, with each piece starting after the previous
   * separator (rather than two past a position that is 0 on the first
   * pass) and the separator searched as the two characters `&&`: one
   * condition for each piece between separators.
   */
  method ParseRequestWhere(text: string) returns (conds: seq<Condition>)
    ensures conds == WhereConditions(text)
  {
    conds := ReadWherePieces(ParseCondition, text);
    WhereFromPieces(text, 0, []);
  }

  /** The loop of `ParseRequestWhere`: hop from one `&&` to the next, reading each piece with `f`. */
  method ReadWherePieces<B>(f: string -> B, text: string) returns (out: seq<B>)
    ensures out == WhereFrom(f, text, 0, [])
  {
    out := [];
    var start: nat := 0;
    var amper := FindPair(text, 0);
    while amper.Some?
      invariant start <= |text| && amper == FindPair(text, start)
      invariant WhereFrom(f, text, start, out) == WhereFrom(f, text, 0, [])
      decreases |text| - start
    {
      var k := amper.value;
      out := out + [f(text[start..k])];
      start := k + 2;
      amper := FindPair(text, start);
    }
    out := out + [f(text[start..])];
  }

  /** A pair at `i` with none between `from` and `i` is the first. */
  lemma {:induction false} FindPairAt(text: string, from: nat, i: nat)
    requires from <= i && i + 2 <= |text| && text[i] == '&' && text[i + 1] == '&'
    requires forall j :: from <= j < i ==> text[j] != '&'
    ensures FindPair(text, from) == Some(i)
    decreases i - from
  {
    if from < i {
      FindPairAt(text, from + 1, i);
    }
  }

  /** A text from `from` on without `&` has no pair. */
  lemma {:induction false} FindPairNone(text: string, from: nat)
    requires forall j :: from <= j < |text| ==> text[j] != '&'
    ensures FindPair(text, from).None?
    decreases |text| - from
  {
    if from + 2 <= |text| {
      FindPairNone(text, from + 1);
    }
  }

  /** A piece without `&`, then `&&`: that piece, then the pieces after it. */
  lemma PiecesCons(a: string, rest: string)
    requires '&' !in a
    ensures WherePieces(a + "&&" + rest, 0) == [a] + WherePieces(rest, 0)
  {
    var t := a + "&&" + rest;
    forall j | 0 <= j < |a|
      ensures t[j] != '&'
    {
      assert t[j] == a[j];
    }
    FindPairAt(t, 0, |a|);
    assert t[..|a|] == a;
    WherePiecesShift(a + "&&", rest, 0);
  }

  /** The pieces of a suffix do not depend on what comes before it. */
  lemma {:induction false} WherePiecesShift(p: string, rest: string, start: nat)
    requires start <= |rest|
    ensures WherePieces(p + rest, |p| + start) == WherePieces(rest, start)
    decreases |rest| - start
  {
    FindPairShift(p, rest, start);
    match FindPair(rest, start)
    case None =>
      ShiftLastPiece(p, rest, start);
    case Some(k) =>
      WherePiecesShift(p, rest, k + 2);
      ShiftNextPiece(p, rest, start, k);
  }

  lemma ShiftLastPiece(p: string, rest: string, start: nat)
    requires start <= |rest| && FindPair(rest, start).None? && FindPair(p + rest, |p| + start).None?
    ensures WherePieces(p + rest, |p| + start) == WherePieces(rest, start)
  {
    LastPiece(p + rest, |p| + start);
    LastPiece(rest, start);
    ConcatSuffix(p, rest, start);
  }

  /** A suffix of the second part of `p + rest` is that suffix of `rest`. */
  lemma ConcatSuffix(p: string, rest: string, i: nat)
    requires i <= |rest|
    ensures (p + rest)[|p| + i..] == rest[i..]
  {
  }

  lemma ShiftNextPiece(p: string, rest: string, start: nat, k: nat)
    requires start <= |rest| && FindPair(rest, start) == Some(k) && FindPair(p + rest, |p| + start) == Some(|p| + k)
    requires WherePieces(p + rest, |p| + (k + 2)) == WherePieces(rest, k + 2)
    ensures WherePieces(p + rest, |p| + start) == WherePieces(rest, start)
  {
    NextPiece(p + rest, |p| + start, |p| + k);
    NextPiece(rest, start, k);
    ConcatSlice(p, rest, start, k);
  }

  /** A slice of the second part of `p + rest` is that slice of `rest`. */
  lemma ConcatSlice(p: string, rest: string, i: nat, j: nat)
    requires i <= j <= |rest|
    ensures (p + rest)[|p| + i..|p| + j] == rest[i..j]
  {
  }

  lemma LastPiece(text: string, start: nat)
    requires start <= |text| && FindPair(text, start).None?
    ensures WherePieces(text, start) == [text[start..]]
  {
  }

  lemma NextPiece(text: string, start: nat, k: nat)
    requires start <= |text| && FindPair(text, start) == Some(k)
    ensures WherePieces(text, start) == [text[start..k]] + WherePieces(text, k + 2)
  {
  }

  lemma {:induction false} FindPairShift(p: string, rest: string, start: nat)
    requires start <= |rest|
    ensures var f := FindPair(rest, start);
            FindPair(p + rest, |p| + start) == if f.Some? then Some(|p| + f.value) else None
    decreases |rest| - start
  {
    var t := p + rest;
    if start + 2 <= |rest| {
      assert t[|p| + start] == rest[start] && t[|p| + start + 1] == rest[start + 1];
      FindPairShift(p, rest, start + 1);
    }
  }

  /** A text without `&` is one piece. */
  lemma PiecesNone(a: string)
    requires '&' !in a
    ensures WherePieces(a, 0) == [a]
  {
    forall j | 0 <= j < |a|
      ensures a[j] != '&'
    {
      assert a[j] in a;
    }
    FindPairNone(a, 0);
    assert a[0..] == a;
  }

  /**
   * Conditions joined by `&&` are read back one by one, as long as none of
   * them holds an `&` of its own.
   */
  lemma {:induction false} WherePiecesOfJoin(pieces: seq<string>)
    requires pieces != [] && forall i :: 0 <= i < |pieces| ==> '&' !in pieces[i]
    ensures WherePieces(Join(pieces, "&&"), 0) == pieces
  {
    if |pieces| == 1 {
      PiecesNone(pieces[0]);
    } else {
      WherePiecesOfJoin(pieces[1..]);
      var rest := Join(pieces[1..], "&&");
      assert Join(pieces, "&&") == pieces[0] + "&&" + rest;
      PiecesCons(pieces[0], rest);
      assert [pieces[0]] + pieces[1..] == pieces;
    }
  }

  // ---------------------------------------------------------------------------
  // The request object

  /** `DataIFace::Request`: the names to select and the conditions, replaced cell by cell. */
  class Request {
    var select: set<string>
    var conditions: seq<Condition>

    constructor ()
      ensures select == {} && conditions == []
    {
      select := {};
      conditions := [];
    }

    /** `ParseInData`: each of the `fields` and `where` cells, when the input has it, replaces what it parses to. */
    method ParseInData(input: Input)
      modifies this
      ensures select == if input.hasCell("fields") then SelectedFields(input.getString("fields")) else old(select)
      ensures conditions == if input.hasCell("where") then WhereConditions(input.getString("where")) else old(conditions)
    {
      if input.hasCell("fields") {
        select := ParseRequestSelect(input.getString("fields"));
      }
      if input.hasCell("where") {
        conditions := ParseRequestWhere(input.getString("where"));
      }
    }

    /** `NeedToSelectThis`. */
    predicate NeedToSelectThis(field: string)
      reads this
    {
      field in select
    }

    /** `SelectWhere`. */
    function SelectWhere(): seq<Condition>
      reads this
    {
      conditions
    }
  }

  /** A request built from a `fields` cell selects exactly the names between its commas. */
  method SelectFromInput(input: Input, field: string) returns (selected: bool)
    ensures input.hasCell("fields") ==> (selected <==> field in Split(input.getString("fields"), ','))
    ensures !input.hasCell("fields") ==> !selected
  {
    var req := new Request();
    req.ParseInData(input);
    selected := req.NeedToSelectThis(field);
  }
}
