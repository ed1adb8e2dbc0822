/**
 * `enum_serializer::Collection` of enum_serializer.hpp: a name-to-value
 * table filled once by a founder callback, looked up by name, and searched
 * backwards by value.  The table is a `std::map<std::string, T>`, so it
 * keeps the first value added for a name and is walked in key order: the
 * backward search answers the least name (in `std::string` order) that
 * maps to the value, or `""` when there is none.
 */
module EnumSerializer {
  import opened Text

  // ---------------------------------------------------------------------------
  // The key order of std::map<std::string, T>

  /** `a <= b` in `std::string` comparison order: character by character, a prefix first. */
  predicate LexLe(a: string, b: string)
    decreases |a|
  {
    a == [] || (b != [] && (a[0] < b[0] || (a[0] == b[0] && LexLe(a[1..], b[1..]))))
  }

  lemma {:induction false} LexTotal(a: string, b: string)
    ensures LexLe(a, b) || LexLe(b, a)
    decreases |a|
  {
    if a != [] && b != [] && a[0] == b[0] {
      LexTotal(a[1..], b[1..]);
    }
  }

  lemma {:induction false} LexRefl(a: string)
    ensures LexLe(a, a)
    decreases |a|
  {
    if a != [] {
      LexRefl(a[1..]);
    }
  }

  lemma {:induction false} LexTrans(a: string, b: string, c: string)
    requires LexLe(a, b) && LexLe(b, c)
    ensures LexLe(a, c)
    decreases |a|
  {
    if a != [] && a[0] == b[0] && b[0] == c[0] {
      LexTrans(a[1..], b[1..], c[1..]);
    }
  }

  lemma {:induction false} LexAntisym(a: string, b: string)
    requires LexLe(a, b) && LexLe(b, a)
    ensures a == b
    decreases |a|
  {
    if a != [] {
      LexAntisym(a[1..], b[1..]);
      assert a == [a[0]] + a[1..] && b == [b[0]] + b[1..];
    }
  }

  // ---------------------------------------------------------------------------
  // Table contents

  /** The table after the founder's `Add` calls, in order: the first value for a name stays. */
  function Founded<T>(adds: seq<(string, T)>): map<string, T>
  {
    if adds == [] then map[]
    else MapInsert(Founded(adds[..|adds| - 1]), adds[|adds| - 1].0, adds[|adds| - 1].1)
  }

  /**
   * The names of a founded table are the names added, and each has the
   * value of its first `Add`.
   */
  lemma {:induction false} FoundedFirstWins<T>(adds: seq<(string, T)>, i: nat)
    requires i < |adds| && forall j :: 0 <= j < i ==> adds[j].0 != adds[i].0
    ensures adds[i].0 in Founded(adds) && Founded(adds)[adds[i].0] == adds[i].1
  {
    var last := |adds| - 1;
    if i < last {
      FoundedFirstWins(adds[..last], i);
    } else {
      FoundedLacks(adds[..last], adds[i].0);
    }
  }

  /** The table's names are exactly the names added. */
  lemma {:induction false} FoundedKeys<T>(adds: seq<(string, T)>)
    ensures Founded(adds).Keys == set i | 0 <= i < |adds| :: adds[i].0
  {
    if adds != [] {
      var last := |adds| - 1;
      FoundedKeys(adds[..last]);
      assert forall i :: 0 <= i < last ==> adds[..last][i] == adds[i];
    }
  }

  /** A name never added is not in the table. */
  lemma {:induction false} FoundedLacks<T>(adds: seq<(string, T)>, name: string)
    requires forall j :: 0 <= j < |adds| ==> adds[j].0 != name
    ensures name !in Founded(adds)
  {
    if adds != [] {
      FoundedLacks(adds[..|adds| - 1], name);
    }
  }

  // ---------------------------------------------------------------------------
  // Lookups

  /**
   * `Find(name, out)`: `out` is the caller's output argument, `None` when it
   * is null and `Some(v)` when it holds `v`.  The answer is whether the
   * name was found, with the output's value after the call.
   */
  function Lookup<T>(m: map<string, T>, name: string, out: Option<T>): (r: (bool, Option<T>))
    ensures r.0 <==> out.Some? && name in m
    ensures r.0 ==> r.1 == Some(m[name])
    ensures !r.0 ==> r.1 == out
  {
    if out.None? then (false, out)
    else if name in m then (true, Some(m[name]))
    else (false, out)
  }

  /** What `Find(value)` answers: the least name mapped to `value`, or `""`. */
  ghost predicate FirstNameFor<T>(m: map<string, T>, value: T, name: string)
  {
    if exists k :: k in m && m[k] == value then
      name in m && m[name] == value && forall k :: k in m && m[k] == value ==> LexLe(name, k)
    else name == ""
  }

  /** There is one answer for each value. */
  lemma FirstNameUnique<T>(m: map<string, T>, value: T, n1: string, n2: string)
    requires FirstNameFor(m, value, n1) && FirstNameFor(m, value, n2)
    ensures n1 == n2
  {
    if exists k :: k in m && m[k] == value {
      LexAntisym(n1, n2);
    }
  }

  /**
   * `Find(value)`: walks the table for an entry with that value.  The
   * walk visits every key once and keeps the least matching one, which is
   * the entry an in-order walk meets first.
   */
  method NameOf<T(==)>(m: map<string, T>, value: T) returns (name: string)
    ensures FirstNameFor(m, value, name)
  {
    var keys := m.Keys;
    var best: Option<string> := None;
    while keys != {}
      invariant keys <= m.Keys
      invariant best.Some? ==> best.value in m && m[best.value] == value
      invariant forall k :: k in m && k !in keys && m[k] == value ==> best.Some? && LexLe(best.value, k)
      decreases |keys|
    {
      var k :| k in keys;
      if m[k] == value {
        LexRefl(k);
        if best.None? {
          best := Some(k);
        } else if !LexLe(best.value, k) {
          var old_best := best.value;
          LexTotal(old_best, k);
          forall j | j in m && j !in keys && m[j] == value
            ensures LexLe(k, j)
          {
            LexTrans(k, old_best, j);
          }
          best := Some(k);
        }
      }
      keys := keys - {k};
    }
    if best.Some? {
      name := best.value;
    } else {
      name := "";
    }
  }

  /**
   * Looking a name up and searching its value back gives a name with the
   * same value, and the name itself when no two names share a value.
   */
  lemma RoundTrip<T>(m: map<string, T>, name: string, back: string)
    requires name in m
    requires FirstNameFor(m, Lookup(m, name, Some(m[name])).1.value, back)
    ensures back in m && m[back] == m[name]
    ensures (forall a, b :: a in m && b in m && m[a] == m[b] ==> a == b) ==> back == name
  {
    assert name in m && m[name] == m[name];
  }

  // ---------------------------------------------------------------------------
  // The collection object

  class Collection<T(==)> {
    var entries: map<string, T>

    /** Runs the founder once on the new, empty collection; the founder's effect is its `Add` calls. */
    constructor(founder: seq<(string, T)>)
      ensures entries == Founded(founder)
    {
      entries := map[];
      new;
      var i := 0;
      while i < |founder|
        invariant 0 <= i <= |founder|
        invariant entries == Founded(founder[..i])
      {
        Add(founder[i].0, founder[i].1);
        assert founder[..i + 1][..i] == founder[..i];
        i := i + 1;
      }
      assert founder[..|founder|] == founder;
    }

    /** `Add`: inserts the pair unless the name is already there. */
    method Add(name: string, value: T)
      modifies this
      ensures entries == MapInsert(old(entries), name, value)
    {
      entries := MapInsert(entries, name, value);
    }

    function Find(name: string, out: Option<T>): (bool, Option<T>)
      reads this
    {
      Lookup(entries, name, out)
    }

    method FindName(value: T) returns (name: string)
      ensures FirstNameFor(entries, value, name)
    {
      name := NameOf(entries, value);
    }
  }
}
