/**
 * The header builders of webapp_proto_http.cpp: the `Expires` shifts, the
 * `CacheControl` directive list (section 5.2 of RFC 7234) and the `ETag`
 * entity tag (section 2.3 of RFC 7232).
 *
 * An `Expires` value is a time in whole hours on the wall clock; reading
 * the clock (`Now`) and rendering the time (`ToString`) stay outside the
 * model.
 */
module HttpDirectives {
  import opened Text

  // ---------------------------------------------------------------------------
  // Expires

  /** `Expires::Hour`, `Expires::Day` and `Expires::Week` with their `USize` count. */
  datatype Shift = Hours(n: nat) | Days(n: nat) | Weeks(n: nat)

  predicate ShiftOk(s: Shift)
  {
    s.n < USIZE_MOD
  }

  /**
   * The hours a shift adds.  The day and week forms multiply the `USize`
   * count in `USize`, so the product wraps modulo 2^32.
   */
  function ShiftHours(s: Shift): (h: nat)
    requires ShiftOk(s)
    ensures h < USIZE_MOD
    ensures s.Hours? ==> h == s.n
    ensures s.Days? && s.n * 24 < USIZE_MOD ==> h == 24 * s.n
    ensures s.Weeks? && s.n * 168 < USIZE_MOD ==> h == 168 * s.n
  {
    match s
    case Hours(n) => n
    case Days(n) => (n * 24) % USIZE_MOD
    case Weeks(n) => ((n * 24) % USIZE_MOD * 7) % USIZE_MOD
  }

  predicate ShiftsOk(shifts: seq<Shift>)
  {
    forall i :: 0 <= i < |shifts| ==> ShiftOk(shifts[i])
  }

  /** A chain of shifts applied in order, as `exp.Hour().Day()` does. */
  function Shifted(t: int, shifts: seq<Shift>): int
    requires ShiftsOk(shifts)
    decreases shifts
  {
    if shifts == [] then t else Shifted(t + ShiftHours(shifts[0]), shifts[1..])
  }

  /** The hours a chain adds in total. */
  function TotalHours(shifts: seq<Shift>): nat
    requires ShiftsOk(shifts)
  {
    if shifts == [] then 0 else ShiftHours(shifts[0]) + TotalHours(shifts[1..])
  }

  /** A chain of shifts adds the sum of its hours. */
  lemma {:induction false} ShiftedAddsTotal(t: int, shifts: seq<Shift>)
    requires ShiftsOk(shifts)
    ensures Shifted(t, shifts) == t + TotalHours(shifts)
    decreases shifts
  {
    if shifts != [] {
      ShiftedAddsTotal(t + ShiftHours(shifts[0]), shifts[1..]);
    }
  }

  lemma {:induction false} TotalHoursAppend(a: seq<Shift>, b: seq<Shift>)
    requires ShiftsOk(a) && ShiftsOk(b)
    ensures ShiftsOk(a + b)
    ensures TotalHours(a + b) == TotalHours(a) + TotalHours(b)
  {
    if a != [] {
      assert (a + b)[0] == a[0] && (a + b)[1..] == a[1..] + b;
      TotalHoursAppend(a[1..], b);
    } else {
      assert a + b == b;
    }
  }

  /** The order of two chains of shifts does not matter. */
  lemma ShiftsCommute(t: int, a: seq<Shift>, b: seq<Shift>)
    requires ShiftsOk(a) && ShiftsOk(b)
    ensures ShiftsOk(a + b) && ShiftsOk(b + a)
    ensures Shifted(t, a + b) == Shifted(t, b + a)
  {
    TotalHoursAppend(a, b);
    TotalHoursAppend(b, a);
    ShiftedAddsTotal(t, a + b);
    ShiftedAddsTotal(t, b + a);
  }

  /** One hour, one day, one week, then one hour and one day: 218 hours. */
  lemma ShiftSequence(t: int)
    ensures Shifted(t, [Hours(1), Days(1), Weeks(1), Hours(1), Days(1)]) == t + 218
  {
    var s := [Hours(1), Days(1), Weeks(1), Hours(1), Days(1)];
    assert ShiftsOk(s);
    ShiftedAddsTotal(t, s);
    assert s[1..][1..][1..][1..][1..] == [];
  }

  /** A day count whose hours exceed `USize` wraps: 178956971 days add 8 hours. */
  lemma DayCountWraps()
    ensures ShiftHours(Days(178956971)) == 8
  {
  }

  // ---------------------------------------------------------------------------
  // CacheControl

  /** `PushToStrList`: an empty directive is dropped; others join the list after ", ". */
  function PushToStrList(val: string, out: string): string
  {
    if val == [] then out
    else if out == [] then val
    else out + ", " + val
  }

  predicate AllNonEmpty(items: seq<string>)
  {
    forall i :: 0 <= i < |items| ==> items[i] != []
  }

  /** Pushing onto a joined list of non-empty directives joins one more. */
  lemma PushJoins(items: seq<string>, val: string)
    requires AllNonEmpty(items)
    ensures val == [] ==> PushToStrList(val, Join(items, ", ")) == Join(items, ", ")
    ensures val != [] ==> PushToStrList(val, Join(items, ", ")) == Join(items + [val], ", ")
  {
    if val != [] {
      if items == [] {
        assert items + [val] == [val];
      } else {
        assert Join(items, ", ") != [] by {
          if |items| > 1 {
            assert |Join(items, ", ")| >= |items[0]|;
          }
        }
        JoinSnoc(items, val, ", ");
      }
    }
  }

  /** The directives of the Cache-Control header. */
  const MUST_REVALIDATE := "must-revalidate"
  const NO_CACHE := "no-cache"
  const NO_STORE := "no-store"

  function MaxAgeDirective(seconds: nat): string
  {
    "max-age=" + DecimalString(seconds)
  }

  /**
   * `CacheControl`: the directive text, built in place.  The text is the
   * pushed directives joined with ", ".
   */
  class CacheControl {
    var directive: string
    ghost var directives: seq<string>

    ghost predicate Valid()
      reads this
    {
      AllNonEmpty(directives) && directive == Join(directives, ", ")
    }

    constructor ()
      ensures Valid() && directives == [] && directive == ""
    {
      directive := "";
      directives := [];
    }

    /** `Reset`. */
    method Reset()
      modifies this
      ensures Valid() && directives == [] && directive == ""
    {
      directive := "";
      directives := [];
    }

    method Push(val: string)
      requires Valid()
      modifies this
      ensures Valid()
      ensures directives == old(directives) + (if val == [] then [] else [val])
      ensures directive == PushToStrList(val, old(directive))
    {
      PushJoins(directives, val);
      directive := PushToStrList(val, directive);
      if val != [] {
        directives := directives + [val];
      }
    }

    /** `MaxAge`: `max-age=` and the seconds in decimal. */
    method MaxAge(seconds: nat)
      requires Valid()
      modifies this
      ensures Valid() && directives == old(directives) + [MaxAgeDirective(seconds)]
    {
      Push(MaxAgeDirective(seconds));
    }

    method NoStore()
      requires Valid()
      modifies this
      ensures Valid() && directives == old(directives) + [NO_STORE]
    {
      Push(NO_STORE);
    }

    method NoCache()
      requires Valid()
      modifies this
      ensures Valid() && directives == old(directives) + [NO_CACHE]
    {
      Push(NO_CACHE);
    }

    method MustRevalidate()
      requires Valid()
      modifies this
      ensures Valid() && directives == old(directives) + [MUST_REVALIDATE]
    {
      Push(MUST_REVALIDATE);
    }
  }

  /** `Reset().NoCache().NoStore()` gives "no-cache, no-store". */
  lemma NoCacheNoStore()
    ensures Join([NO_CACHE, NO_STORE], ", ") == "no-cache, no-store"
    ensures PushToStrList(NO_STORE, PushToStrList(NO_CACHE, "")) == "no-cache, no-store"
  {
    assert [NO_CACHE, NO_STORE][1..] == [NO_STORE];
  }

  // ---------------------------------------------------------------------------
  // ETag

  /** `ETag::Predefined`: a non-empty value is put in double quotes; the empty one stays empty. */
  function PredefinedTag(val: string): (r: string)
    ensures val == [] ==> r == []
    ensures val != [] ==> |r| == |val| + 2 && r[0] == '"' && r[|r| - 1] == '"' && r[1..|r| - 1] == val
  {
    if val == [] then val else "\"" + val + "\""
  }

  /** A non-empty predefined tag never reads back as the bare value. */
  lemma PredefinedIsNotVerbatim(val: string)
    requires val != []
    ensures PredefinedTag(val) != val
  {
    assert |PredefinedTag(val)| == |val| + 2;
  }

  /** `s` back to front. */
  function Reversed(s: string): (r: string)
    ensures |r| == |s|
    ensures forall i :: 0 <= i < |s| ==> r[i] == s[|s| - 1 - i]
  {
    if s == [] then [] else Reversed(s[1..]) + [s[0]]
  }

  lemma {:induction false} ReversedSnoc(s: string, c: char)
    ensures Reversed(s + [c]) == [c] + Reversed(s)
  {
    if s != [] {
      assert (s + [c])[1..] == s[1..] + [c];
      ReversedSnoc(s[1..], c);
    } else {
      assert Reversed([c]) == Reversed([]) + [c];
    }
  }

  lemma {:induction false} ReversedTwice(s: string)
    ensures Reversed(Reversed(s)) == s
  {
    if s != [] {
      ReversedTwice(s[1..]);
      ReversedSnoc(Reversed(s[1..]), s[0]);
      assert [s[0]] + s[1..] == s;
    }
  }

  /**
   * `NumToStr`: the decimal digits of a `uint32_t`, least significant
   * first (the do-while loop appends `num % 10` and divides).
   */
  method NumToStr(num: nat) returns (res: string)
    requires num < USIZE_MOD
    ensures res == Reversed(DecimalString(num))
  {
    res := [DigitChar(num % 10)];
    var n := num / 10;
    assert Reversed(res) == res by {
      assert Reversed(res) == Reversed(res[1..]) + [res[0]];
    }
    while n > 0
      invariant DecimalString(num) == (if n > 0 then DecimalString(n) else []) + Reversed(res)
      decreases n
    {
      var d := DigitChar(n % 10);
      ReversedSnoc(res, d);
      if n < 10 {
        assert DecimalString(n) == [d];
      } else {
        assert DecimalString(n) == DecimalString(n / 10) + [d];
      }
      res := res + [d];
      n := n / 10;
    }
    assert DecimalString(num) == Reversed(res);
    ReversedTwice(res);
  }

  /** Reversing `NumToStr`'s text gives back the number. */
  lemma NumToStrReadsBack(num: nat)
    ensures DigitsValue(Reversed(Reversed(DecimalString(num)))) == num
  {
    ReversedTwice(DecimalString(num));
    DecimalRoundTrip(num);
  }

  /** `ETag`: the tag text, replaced in place. */
  class ETag {
    var value: string

    constructor ()
      ensures value == ""
    {
      value := "";
    }

    method Predefined(val: string)
      modifies this
      ensures value == PredefinedTag(val)
    {
      if |val| > 0 {
        value := "\"" + val + "\"";
      } else {
        value := val;
      }
    }

    /**
     * `Random`: the clock's seconds and microseconds, each written by
     * `NumToStr`, in double quotes.  The clock reading is the parameters.
     */
    method Random(sec: nat, usec: nat)
      requires sec < USIZE_MOD && usec < USIZE_MOD
      modifies this
      ensures value == "\"" + Reversed(DecimalString(sec)) + Reversed(DecimalString(usec)) + "\""
      ensures |value| > 3 && value[0] == '"' && value[|value| - 1] == '"'
    {
      var s := NumToStr(sec);
      var u := NumToStr(usec);
      value := "\"" + s + u + "\"";
    }
  }
}
