/**
 * The component tree of webapp_com.cpp.  A component (`Com`) has a name,
 * a type, a table of named actions and the state of the last action it ran
 * (its `Process`); a group also holds child components by name, and the
 * manager is the root group.  A request names a component by a slash
 * path; the component runs the requested action and then publishes
 * itself to an output.
 *
 * A component is a value here: the tree is held by the `Manager` object,
 * whose `HandleInput` replaces the addressed component by its new state.
 * An output is the sequence of `Item`s written to it; how a particular
 * output renders them is up to that output (see the JSON one in
 * com_http.dfy).  What a subclass of `Com` adds is its own state, seen
 * through what its `PublishAttributes` writes (`own`).
 */
module Components {
  import opened Text
  import opened EnumSerializer

  // ---------------------------------------------------------------------------
  // Outputs

  /** One call on a `Com::Output`: a `Put` of a named value or an `Append` of a sub-output. */
  datatype Item =
    | PutInteger(name: string, i: int)
    | PutBoolean(name: string, b: bool)
    | PutString(name: string, s: string)
    | AppendOutput(name: string, sub: seq<Item>)

  /** `Com::Attribute`. */
  const TYPE := "type"
  const NAME := "name"
  const LABEL := "label"
  const ACTION := "action"
  const OPTION := "option"
  const ASYNC := "async"

  const NOTIFICATION := "notification"
  const SYNC := "sync"

  /** The `Com::Input` a request is read through. */
  datatype Input = Input(hasCell: string -> bool, getInteger: string -> int,
                         getBoolean: string -> bool, getString: string -> string)

  // ---------------------------------------------------------------------------
  // Process

  /** `Process::Status`; `Failed` is `kError`. */
  datatype Status = InWork | Finished | Failed

  function StatusName(s: Status): (name: string)
    ensures name in {"in work", "finished", "error"}
  {
    match s
    case InWork => "in work"
    case Finished => "finished"
    case Failed => "error"
  }

  const UNKNOWN_PROGRESS: int := -1

  /**
   * `Com::Process`: the state an action leaves.  `action` is the iterator
   * to the action that produced it, by name; `None` is `_actions.end()`.
   */
  datatype Process = Process(status: Status, progress: int, message: string,
                             action: Option<string>, needToNotify: bool)

  /** `Process()`: a finished process with nothing to report. */
  function QuietProcess(): (p: Process)
    ensures p.status == Finished && p.progress == 0 && !p.needToNotify
  {
    Process(Finished, 0, "", None, false)
  }

  /**
   * `Process(status, progress)` and `Process(status, message, progress)`:
   * a process that is reported at the next publication.  The first form
   * has the empty message; the progress defaults to `UNKNOWN_PROGRESS`.
   */
  function ReportedProcess(status: Status, message: string, progress: int): (p: Process)
    ensures p.status == status && p.message == message && p.progress == progress && p.needToNotify
  {
    Process(status, progress, message, None, true)
  }

  /**
   * `Process::Publish`: the progress is clamped to 100 in the process
   * itself; it is written only when positive, then the status name and the
   * message.
   */
  function PublishProcess(p: Process): (r: (Process, seq<Item>))
    ensures r.0.progress <= 100 && (p.progress <= 100 ==> r.0 == p)
    ensures p.progress > 100 ==> r.0 == p.(progress := 100)
    ensures p.progress > 0 ==> |r.1| == 3 && r.1[0] == PutInteger("progress", r.0.progress) && 0 < r.0.progress
    ensures p.progress <= 0 ==> |r.1| == 2
    ensures r.1[|r.1| - 2..] == [PutString("status", StatusName(p.status)), PutString("message", p.message)]
  {
    var q := if p.progress > 100 then p.(progress := 100) else p;
    var progress := if q.progress > 0 then [PutInteger("progress", q.progress)] else [];
    (q, progress + [PutString("status", StatusName(q.status)), PutString("message", q.message)])
  }

  /** Publishing a process again writes the same items and changes it no more. */
  lemma PublishProcessTwice(p: Process)
    ensures PublishProcess(PublishProcess(p).0) == PublishProcess(p)
  {
    var q := PublishProcess(p).0;
    assert q.progress <= 100;
    assert PublishProcess(q).0 == q;
  }

  // ---------------------------------------------------------------------------
  // Components

  /**
   * An action: it reads the input and the component's own state and gives
   * the new process and the new own state.
   */
  type Handler = (Input, seq<Item>) -> (Process, seq<Item>)

  /**
   * A component.  `overrides` tells whether its class overrides
   * `PublishAttributes`, which then writes `own`.  A group's children are
   * kept as in its `std::map`: by name, in key order.
   */
  datatype Com = Com(name: string, kind: string, overrides: bool, own: seq<Item>,
                     actions: map<string, Handler>, process: Process,
                     isGroup: bool, components: seq<(string, Com)>)

  /** `Com(name, type)` for a class that does not override `PublishAttributes`. */
  function PlainCom(name: string, kind: string): (c: Com)
    ensures c.name == name && c.kind == kind && !c.overrides && !c.isGroup && c.actions == map[]
    ensures c.process == QuietProcess()
  {
    Com(name, kind, false, [], map[], QuietProcess(), false, [])
  }

  /** A component whose class publishes `own` as its attributes. */
  function CustomCom(name: string, kind: string, own: seq<Item>): (c: Com)
    ensures c.name == name && c.kind == kind && c.overrides && c.own == own && !c.isGroup
    ensures c.actions == map[] && c.process == QuietProcess()
  {
    Com(name, kind, true, own, map[], QuietProcess(), false, [])
  }

  /** `Group(name)`: type "group", no children yet. */
  function Group(name: string): (c: Com)
    ensures c.name == name && c.kind == "group" && !c.overrides && c.isGroup && c.components == []
    ensures c.process == QuietProcess()
  {
    Com(name, "group", false, [], map[], QuietProcess(), true, [])
  }

  // ---------------------------------------------------------------------------
  // The children of a group

  function Keys(items: seq<(string, Com)>): set<string>
  {
    set i | 0 <= i < |items| :: items[i].0
  }

  /** The key order of `std::map`: strictly increasing names. */
  predicate Sorted(items: seq<(string, Com)>)
  {
    forall i, j :: 0 <= i < j < |items| ==> items[i].0 != items[j].0 && LexLe(items[i].0, items[j].0)
  }

  /** `_components.find(key)`. */
  function Child(items: seq<(string, Com)>, key: string): (r: Option<Com>)
    ensures r.Some? <==> key in Keys(items)
  {
    if items == [] then None
    else if items[0].0 == key then Some(items[0].1)
    else
      assert Keys(items) == {items[0].0} + Keys(items[1..]) by {
        assert forall i :: 1 <= i < |items| ==> items[i] == items[1..][i - 1];
      }
      Child(items[1..], key)
  }

  /** The children with the one under `key` replaced. */
  function SetChild(items: seq<(string, Com)>, key: string, c: Com): (r: seq<(string, Com)>)
    ensures |r| == |items| && forall i :: 0 <= i < |items| ==> r[i].0 == items[i].0
  {
    if items == [] then []
    else if items[0].0 == key then [(key, c)] + items[1..]
    else [items[0]] + SetChild(items[1..], key, c)
  }

  lemma {:induction false} SetChildFound(items: seq<(string, Com)>, key: string, c: Com)
    requires key in Keys(items)
    ensures Child(SetChild(items, key, c), key) == Some(c)
  {
    if items[0].0 != key {
      assert key in Keys(items[1..]) by {
        var i :| 0 <= i < |items| && items[i].0 == key;
        assert items[1..][i - 1] == items[i];
      }
      SetChildFound(items[1..], key, c);
    }
  }

  /**
   * `_components.insert(Pair(name, com))`: a name already there keeps its
   * component; a new one takes its place in key order.
   */
  function Insert(items: seq<(string, Com)>, key: string, c: Com): (r: seq<(string, Com)>)
  {
    if items == [] then [(key, c)]
    else if items[0].0 == key then items
    else if LexLe(key, items[0].0) then [(key, c)] + items
    else [items[0]] + Insert(items[1..], key, c)
  }

  /** Every key of `items` comes after `k`. */
  predicate Above(k: string, items: seq<(string, Com)>)
  {
    forall i :: 0 <= i < |items| ==> k != items[i].0 && LexLe(k, items[i].0)
  }

  lemma KeysCons(x: (string, Com), rest: seq<(string, Com)>)
    ensures Keys([x] + rest) == {x.0} + Keys(rest)
  {
    var items := [x] + rest;
    forall k | k in Keys(items) ensures k in {x.0} + Keys(rest) {
      var i :| 0 <= i < |items| && items[i].0 == k;
      if i > 0 {
        assert rest[i - 1].0 == k;
      }
    }
    forall k | k in {x.0} + Keys(rest) ensures k in Keys(items) {
      if k == x.0 {
        assert items[0].0 == k;
      } else {
        var i :| 0 <= i < |rest| && rest[i].0 == k;
        assert items[i + 1].0 == k;
      }
    }
  }

  /** A sequence is in key order when its head is below the rest and the rest is in order. */
  lemma SortedCons(x: (string, Com), rest: seq<(string, Com)>)
    ensures Sorted([x] + rest) <==> Above(x.0, rest) && Sorted(rest)
  {
    var items := [x] + rest;
    if Sorted(items) {
      forall i | 0 <= i < |rest| ensures x.0 != rest[i].0 && LexLe(x.0, rest[i].0) {
        assert items[0] == x && items[i + 1] == rest[i];
        assert items[0].0 != items[i + 1].0 && LexLe(items[0].0, items[i + 1].0);
      }
      forall i, j | 0 <= i < j < |rest| ensures rest[i].0 != rest[j].0 && LexLe(rest[i].0, rest[j].0) {
        assert items[i + 1] == rest[i] && items[j + 1] == rest[j];
      }
    }
    if Above(x.0, rest) && Sorted(rest) {
      forall i, j | 0 <= i < j < |items| ensures items[i].0 != items[j].0 && LexLe(items[i].0, items[j].0) {
        assert items[j] == rest[j - 1];
        if i > 0 {
          assert items[i] == rest[i - 1];
        }
      }
    }
  }

  /** A key below the first of a sorted sequence is below all of it. */
  lemma {:induction false} AboveFirst(k: string, items: seq<(string, Com)>)
    requires Sorted(items) && items != [] && k != items[0].0 && LexLe(k, items[0].0)
    ensures Above(k, items)
  {
    forall i | 0 < i < |items| ensures k != items[i].0 && LexLe(k, items[i].0) {
      LexTrans(k, items[0].0, items[i].0);
      if k == items[i].0 {
        LexAntisym(k, items[0].0);
      }
    }
  }

  lemma {:induction false} AboveKeys(k: string, items: seq<(string, Com)>, key: string)
    requires Above(k, items) && key in Keys(items)
    ensures k != key && LexLe(k, key)
  {
  }

  /** Insertion adds the key to the keys. */
  lemma {:induction false} InsertKeys(items: seq<(string, Com)>, key: string, c: Com)
    ensures Keys(Insert(items, key, c)) == Keys(items) + {key}
  {
    if items == [] {
      assert Keys([(key, c)]) == {key} by { KeysCons((key, c), []); }
    } else {
      KeysCons(items[0], items[1..]);
      assert [items[0]] + items[1..] == items;
      if items[0].0 != key {
        if LexLe(key, items[0].0) {
          KeysCons((key, c), items);
        } else {
          InsertKeys(items[1..], key, c);
          KeysCons(items[0], Insert(items[1..], key, c));
        }
      }
    }
  }

  /** Insertion keeps the key order. */
  lemma {:induction false} InsertSorted(items: seq<(string, Com)>, key: string, c: Com)
    requires Sorted(items)
    ensures Sorted(Insert(items, key, c))
  {
    if items == [] {
      SortedCons((key, c), []);
    } else if items[0].0 != key {
      var rest := items[1..];
      assert [items[0]] + rest == items;
      SortedCons(items[0], rest);
      if LexLe(key, items[0].0) {
        AboveFirst(key, items);
        SortedCons((key, c), items);
      } else {
        LexTotal(key, items[0].0);
        InsertSorted(rest, key, c);
        InsertKeys(rest, key, c);
        var r1 := Insert(rest, key, c);
        forall i | 0 <= i < |r1| ensures items[0].0 != r1[i].0 && LexLe(items[0].0, r1[i].0) {
          assert r1[i].0 in Keys(r1);
          if r1[i].0 != key {
            AboveKeys(items[0].0, rest, r1[i].0);
          }
        }
        SortedCons(items[0], r1);
      }
    }
  }

  /** Insertion keeps every child there was and adds a child under a new key. */
  lemma {:induction false} InsertChild(items: seq<(string, Com)>, key: string, c: Com, k: string)
    requires Sorted(items)
    ensures k in Keys(items) ==> Child(Insert(items, key, c), k) == Child(items, k)
    ensures k == key && key !in Keys(items) ==> Child(Insert(items, key, c), k) == Some(c)
  {
    if items != [] && items[0].0 != key {
      var rest := items[1..];
      assert [items[0]] + rest == items;
      SortedCons(items[0], rest);
      KeysCons(items[0], rest);
      if LexLe(key, items[0].0) {
        if key == k && key in Keys(items) {
          AboveFirst(key, items);
          AboveKeys(key, items, k);
        }
      } else {
        InsertChild(rest, key, c, k);
      }
    }
  }

  /** `_components.insert` on a sorted sequence: a present key changes nothing. */
  lemma {:induction false} InsertPresent(items: seq<(string, Com)>, key: string, c: Com)
    requires Sorted(items) && key in Keys(items)
    ensures Insert(items, key, c) == items
  {
    if items[0].0 != key {
      var rest := items[1..];
      assert [items[0]] + rest == items;
      SortedCons(items[0], rest);
      KeysCons(items[0], rest);
      if LexLe(key, items[0].0) {
        AboveFirst(key, items);
        AboveKeys(key, items, key);
      } else {
        InsertPresent(rest, key, c);
      }
    }
  }

  /** `Group::AddCom`: the component under `name` joins the group's children. */
  function GroupAddCom(g: Com, name: string, c: Com): Com
    requires g.isGroup
  {
    g.(components := Insert(g.components, name, c))
  }

  /**
   * Adding keeps the children in key order; a new name finds the new
   * component, and a name already there keeps the component it had.
   */
  lemma AddComKeepsFirst(g: Com, name: string, c: Com)
    requires g.isGroup && Sorted(g.components) && name != [] && '/' !in name
    ensures var r := GroupAddCom(g, name, c);
            r.isGroup && Sorted(r.components) &&
            Keys(r.components) == Keys(g.components) + {name} &&
            (name in Keys(g.components) ==> r == g) &&
            (name !in Keys(g.components) ==> FindCom(r, name) == Some(c)) &&
            forall k :: k in Keys(g.components) ==> Child(r.components, k) == Child(g.components, k)
  {
    var r := GroupAddCom(g, name, c);
    InsertKeys(g.components, name, c);
    InsertSorted(g.components, name, c);
    if name in Keys(g.components) {
      InsertPresent(g.components, name, c);
    } else {
      InsertChild(g.components, name, c, name);
      FindComChild(r, name);
    }
    forall k | k in Keys(g.components) ensures Child(r.components, k) == Child(g.components, k) {
      InsertChild(g.components, name, c, k);
    }
  }

  /** Key order depends on the keys alone. */
  lemma SortedSameKeys(a: seq<(string, Com)>, b: seq<(string, Com)>)
    requires Sorted(a) && |a| == |b| && forall i :: 0 <= i < |a| ==> a[i].0 == b[i].0
    ensures Sorted(b)
  {
  }

  // ---------------------------------------------------------------------------
  // FindCom

  /**
   * `FindCom`: a group looks up the text before the first `/` among its
   * children and hands the rest of the path to the child found; a
   * component that is not a group finds nothing, nor does the empty path.
   */
  function FindCom(c: Com, path: string): (r: Option<Com>)
    ensures path == [] || !c.isGroup ==> r.None?
    decreases |path|
  {
    if !c.isGroup || path == [] then None
    else
      var slash := FindFirstOf(path, {'/'}, 0);
      match Child(c.components, UpTo(path, slash))
      case None => None
      case Some(child) => if slash.None? then Some(child) else FindCom(child, path[slash.value + 1..])
  }

  /** A name without a slash finds the child of that name. */
  lemma FindComChild(g: Com, name: string)
    requires g.isGroup && name != [] && '/' !in name
    ensures FindCom(g, name) == Child(g.components, name)
  {
    assert FindFirstOf(name, {'/'}, 0).None?;
  }

  /** A path `head/rest` is the path `rest` looked up in the child `head`. */
  lemma FindComDescends(g: Com, head: string, rest: string)
    requires g.isGroup && head != [] && '/' !in head
    ensures var child := Child(g.components, head);
            FindCom(g, head + "/" + rest) == if child.None? then None else FindCom(child.value, rest)
  {
    var path := head + "/" + rest;
    FindFirstAt(path, {'/'}, 0, |head|);
    assert path[..|head|] == head && path[|head| + 1..] == rest;
  }

  /** Descending through a child that is not a group finds nothing. */
  lemma FindComThroughLeaf(g: Com, head: string, rest: string)
    requires g.isGroup && head != [] && '/' !in head
    requires var child := Child(g.components, head); child.Some? && !child.value.isGroup
    ensures FindCom(g, head + "/" + rest).None?
  {
    FindComDescends(g, head, rest);
  }

  /** The component at `path` replaced by `n`; a path that finds nothing changes nothing. */
  function ReplaceAt(c: Com, path: string, n: Com): (r: Com)
    ensures FindCom(c, path).None? ==> r == c
    ensures r.isGroup == c.isGroup && |r.components| == |c.components|
    ensures forall i :: 0 <= i < |c.components| ==> r.components[i].0 == c.components[i].0
    decreases |path|
  {
    if !c.isGroup || path == [] then c
    else
      var slash := FindFirstOf(path, {'/'}, 0);
      var key := UpTo(path, slash);
      match Child(c.components, key)
      case None => c
      case Some(child) =>
        if slash.None? then c.(components := SetChild(c.components, key, n))
        else if FindCom(child, path[slash.value + 1..]).None? then c
        else c.(components := SetChild(c.components, key, ReplaceAt(child, path[slash.value + 1..], n)))
  }

  /** After a replacement the path finds the new component. */
  lemma {:induction false} ReplaceThenFind(c: Com, path: string, n: Com)
    requires FindCom(c, path).Some?
    ensures FindCom(ReplaceAt(c, path, n), path) == Some(n)
    decreases |path|
  {
    var slash := FindFirstOf(path, {'/'}, 0);
    var key := UpTo(path, slash);
    var child := Child(c.components, key).value;
    if slash.None? {
      SetChildFound(c.components, key, n);
      assert ReplaceAt(c, path, n) == c.(components := SetChild(c.components, key, n));
    } else {
      var rest := path[slash.value + 1..];
      var child2 := ReplaceAt(child, rest, n);
      ReplaceThenFind(child, rest, n);
      SetChildFound(c.components, key, child2);
      assert ReplaceAt(c, path, n) == c.(components := SetChild(c.components, key, child2));
    }
  }

  /** The tree of the group test: "grp" holding "test_com_0" and the group "grp_0", which holds "test_com_0_1". */
  function ExampleTree(): Com
  {
    var g0 := GroupAddCom(Group("grp_0"), "test_com_0_1", PlainCom("test_com_0_1", "test"));
    GroupAddCom(GroupAddCom(Group("grp"), "test_com_0", PlainCom("test_com_0", "test")), "grp_0", g0)
  }

  /** Its children, in key order. */
  lemma ExampleTreeShape()
    ensures var g0 := Group("grp_0").(components := [("test_com_0_1", PlainCom("test_com_0_1", "test"))]);
            ExampleTree().components == [("grp_0", g0), ("test_com_0", PlainCom("test_com_0", "test"))]
  {
    var leaf := PlainCom("test_com_0_1", "test");
    var g0 := GroupAddCom(Group("grp_0"), "test_com_0_1", leaf);
    assert g0.components == [("test_com_0_1", leaf)];
    var g1 := GroupAddCom(Group("grp"), "test_com_0", PlainCom("test_com_0", "test"));
    assert g1.components == [("test_com_0", PlainCom("test_com_0", "test"))];
    assert LexLe("grp_0", "test_com_0");
  }

  /** A child added to a nested group is found by its slash path. */
  lemma GroupAddFindExample()
    ensures FindCom(ExampleTree(), "grp_0" + "/" + "test_com_0_1") == Some(PlainCom("test_com_0_1", "test"))
  {
    var g := ExampleTree();
    ExampleTreeShape();
    var g0 := g.components[0].1;
    assert Child(g.components, "grp_0") == Some(g0);
    assert Child(g0.components, "test_com_0_1") == Some(PlainCom("test_com_0_1", "test"));
    FindComDescends(g, "grp_0", "test_com_0_1");
    FindComChild(g0, "test_com_0_1");
  }

  /** Unknown names are not found, at either level, nor below a plain component. */
  lemma GroupMissExample()
    ensures FindCom(ExampleTree(), "grp_0" + "/" + "test_com_0_2").None?
    ensures FindCom(ExampleTree(), "test_com_2").None?
    ensures FindCom(ExampleTree(), "test_com_0" + "/" + "x").None?
  {
    var g := ExampleTree();
    ExampleTreeShape();
    var g0 := g.components[0].1;
    assert Child(g.components, "grp_0") == Some(g0);
    assert Child(g.components, "test_com_0") == Some(PlainCom("test_com_0", "test"));
    assert Child(g.components, "test_com_2").None?;
    assert Child(g0.components, "test_com_0_2").None?;
    FindComDescends(g, "grp_0", "test_com_0_2");
    FindComChild(g0, "test_com_0_2");
    FindComChild(g, "test_com_2");
    FindComThroughLeaf(g, "test_com_0", "x");
  }

  // ---------------------------------------------------------------------------
  // Actions

  /** `RegisterAction`: the first handler registered under a name stays. */
  function RegisterAction(c: Com, name: string, h: Handler): (r: Com)
    ensures r.actions.Keys == c.actions.Keys + {name}
    ensures forall k :: k in c.actions ==> r.actions[k] == c.actions[k]
    ensures name !in c.actions ==> r.actions[name] == h
    ensures r == c.(actions := r.actions)
  {
    c.(actions := MapInsert(c.actions, name, h))
  }

  /** The remembered action, when there is one, is among the registered actions. */
  predicate Remembered(c: Com)
  {
    c.process.action.Some? ==> c.process.action.value in c.actions
  }

  /** An action stays registered once registered, so registering keeps the remembered one valid. */
  lemma RegisterKeepsRemembered(c: Com, name: string, h: Handler)
    requires Remembered(c)
    ensures Remembered(RegisterAction(c, name, h))
  {
  }

  /** Runs a registered action: its process is stored with the action remembered. */
  function RunAction(c: Com, name: string, input: Input): (r: Com)
    requires name in c.actions
    ensures r.process.action == Some(name) && Remembered(r)
    ensures r == c.(process := r.process, own := r.own)
  {
    var (p, own) := c.actions[name](input, c.own);
    c.(process := p.(action := Some(name)), own := own)
  }

  /** The last action put the component in work and is still registered. */
  predicate Resumable(c: Com)
  {
    c.process.status == InWork && c.process.action.Some? && c.process.action.value in c.actions
  }

  /**
   * `HandleAction`: a registered action runs; an unknown one re-runs the
   * remembered action while the component is in work; otherwise nothing
   * runs and only "sync" is accepted.
   */
  function HandleAction(c: Com, name: string, input: Input): (r: (bool, Com))
    ensures name in c.actions ==> r.0 && r.1 == RunAction(c, name, input)
    ensures name !in c.actions && Resumable(c) ==> r.0 && r.1 == RunAction(c, c.process.action.value, input)
    ensures name !in c.actions && !Resumable(c) ==> (r.0 <==> name == SYNC) && r.1 == c
    ensures Remembered(c) ==> Remembered(r.1)
  {
    if name in c.actions then (true, RunAction(c, name, input))
    else if Resumable(c) then (true, RunAction(c, c.process.action.value, input))
    else (name == SYNC, c)
  }

  /** `HandleData`: no "action" in the input is accepted with nothing run. */
  function HandleData(c: Com, input: Input): (r: (bool, Com))
    ensures input.getString(ACTION) == [] ==> r == (true, c)
    ensures input.getString(ACTION) != [] ==> r == HandleAction(c, input.getString(ACTION), input)
  {
    var action := input.getString(ACTION);
    if |action| == 0 then (true, c) else HandleAction(c, action, input)
  }

  /** An action that answers `Process()` leaves nothing to report. */
  lemma QuietActionIsNotReported(c: Com, name: string, input: Input)
    requires name in c.actions && c.actions[name](input, c.own).0 == QuietProcess()
    ensures !HandleAction(c, name, input).1.process.needToNotify
    ensures HandleAction(c, name, input).1.process.status == Finished
  {
  }

  // ---------------------------------------------------------------------------
  // Publishing

  /** `Com::PublishAttributes`: the type, then the name. */
  function BaseAttributes(c: Com): (r: seq<Item>)
    ensures |r| == 2 && r[0].name == TYPE && r[1].name == NAME
  {
    [PutString(TYPE, c.kind), PutString(NAME, c.name)]
  }

  /** The virtual `PublishAttributes`: the class's own, or the base ones. */
  function Attributes(c: Com): (r: seq<Item>)
    ensures !c.overrides ==> r == BaseAttributes(c)
    ensures c.overrides ==> r == c.own
  {
    if c.overrides then c.own else BaseAttributes(c)
  }

  /**
   * `Com::Publish` to an output: the base attributes; a pending
   * notification, which is cleared; then, unless the process is in work,
   * the class's attributes and, for a group, every child in key order, each
   * written to the same output.
   */
  function Publish(c: Com): (r: (Com, seq<Item>))
    ensures !r.0.process.needToNotify
    ensures r.0 == c.(process := r.0.process, components := r.0.components)
    ensures !c.isGroup ==> r.0.components == c.components
    decreases c, 2
  {
    var base := BaseAttributes(c);
    var members := if c.isGroup then PublishMembers(c, 0) else (c.components, []);
    if c.process.needToNotify then
      var (p, notice) := PublishProcess(c.process.(needToNotify := false));
      var head := base + [AppendOutput(NOTIFICATION, notice)];
      if p.status == InWork then (c.(process := p), head)
      else (c.(process := p, components := members.0), head + Attributes(c) + members.1)
    else (c.(components := members.0), base + Attributes(c) + members.1)
  }

  /** `Group::PublishMembers` from the `i`-th child on: each child publishes itself in turn. */
  function PublishMembers(c: Com, i: nat): (r: (seq<(string, Com)>, seq<Item>))
    requires i <= |c.components|
    ensures |r.0| == |c.components| - i
    ensures forall j :: 0 <= j < |r.0| ==> r.0[j].0 == c.components[i + j].0
    decreases c, 1, |c.components| - i
  {
    if i == |c.components| then ([], [])
    else
      assert c.components[i] in c.components;
      var (key, child) := c.components[i];
      var (child1, items) := Publish(child);
      var (rest, more) := PublishMembers(c, i + 1);
      ([(key, child1)] + rest, items + more)
  }

  /** `Publish(out)` with `out` possibly null: a null output is refused and nothing changes. */
  function PublishTo(c: Com, hasOut: bool): (r: (bool, Com, seq<Item>))
    ensures !hasOut ==> r == (false, c, [])
    ensures hasOut ==> r == (true, Publish(c).0, Publish(c).1)
  {
    if !hasOut then (false, c, []) else (true, Publish(c).0, Publish(c).1)
  }

  /** Whatever happens next, the output starts with the type and the name. */
  lemma PublishBegins(c: Com)
    ensures |Publish(c).1| >= 2 && Publish(c).1[..2] == BaseAttributes(c)
  {
    var members := if c.isGroup then PublishMembers(c, 0) else (c.components, []);
    var base := BaseAttributes(c);
    if c.process.needToNotify {
      var (p, notice) := PublishProcess(c.process.(needToNotify := false));
      var head := base + [AppendOutput(NOTIFICATION, notice)];
      assert (head + Attributes(c) + members.1)[..2] == base;
    } else {
      assert (base + Attributes(c) + members.1)[..2] == base;
    }
  }

  /**
   * A pending notification is written third, cleared, and stored with its
   * progress clamped; while the process is in work nothing follows it and
   * the children are not published.  Otherwise the class's attributes
   * follow.
   */
  lemma PublishNotifies(c: Com)
    requires c.process.needToNotify
    ensures var (p, notice) := PublishProcess(c.process.(needToNotify := false));
            var (c1, out) := Publish(c);
            var a := Attributes(c);
            c1.process == p && !p.needToNotify && |out| >= 3 && out[2] == AppendOutput(NOTIFICATION, notice) &&
            (p.status == InWork ==> out == BaseAttributes(c) + [AppendOutput(NOTIFICATION, notice)] && c1 == c.(process := p)) &&
            (p.status != InWork ==> |out| >= 3 + |a| && out[3..3 + |a|] == a)
  {
    var members := if c.isGroup then PublishMembers(c, 0) else (c.components, []);
    var (p, notice) := PublishProcess(c.process.(needToNotify := false));
    var head := BaseAttributes(c) + [AppendOutput(NOTIFICATION, notice)];
    var a := Attributes(c);
    if p.status != InWork {
      var out := head + a + members.1;
      assert out[2] == head[2];
      assert out[3..3 + |a|] == a;
    }
  }

  /** Without a pending notification the process stays and the class's attributes come third. */
  lemma PublishWithoutNotice(c: Com)
    requires !c.process.needToNotify
    ensures var (c1, out) := Publish(c);
            var a := Attributes(c);
            c1.process == c.process && |out| >= 2 + |a| && out[2..2 + |a|] == a
  {
    var members := if c.isGroup then PublishMembers(c, 0) else (c.components, []);
    var a := Attributes(c);
    var out := BaseAttributes(c) + a + members.1;
    assert out[2..2 + |a|] == a;
  }

  /** A class that keeps the base `PublishAttributes` writes its type and name twice. */
  lemma PlainComRepeatsTypeAndName(c: Com)
    requires !c.overrides && !(c.process.needToNotify && c.process.status == InWork)
    ensures var out := Publish(c).1;
            var k := if c.process.needToNotify then 3 else 2;
            |out| >= k + 2 && out[k] == out[0] && out[k + 1] == out[1]
  {
    var out := Publish(c).1;
    PublishBegins(c);
    if c.process.needToNotify {
      PublishNotifies(c);
      assert out[3..5] == BaseAttributes(c);
      assert out[3] == out[3..5][0] && out[4] == out[3..5][1];
    } else {
      PublishWithoutNotice(c);
      assert out[2..4] == BaseAttributes(c);
      assert out[2] == out[2..4][0] && out[3] == out[2..4][1];
    }
    assert out[0] == out[..2][0] && out[1] == out[..2][1];
  }

  /** A component with nothing to report and no children publishes its two attribute lists. */
  lemma QuietLeafPublish(c: Com)
    requires !c.isGroup && !c.process.needToNotify
    ensures Publish(c) == (c, BaseAttributes(c) + Attributes(c))
  {
    assert BaseAttributes(c) + Attributes(c) + [] == BaseAttributes(c) + Attributes(c);
    assert c.(components := c.components) == c;
  }

  /** Once published, a leaf publishes without a notification and writes the same attributes. */
  lemma {:induction false} RepublishIsQuiet(c: Com)
    requires !c.isGroup
    ensures var c1 := Publish(c).0;
            !c1.isGroup && !c1.process.needToNotify &&
            Publish(c1).1 == BaseAttributes(c) + Attributes(c)
  {
    var c1 := Publish(c).0;
    QuietLeafPublish(c1);
    assert BaseAttributes(c1) == BaseAttributes(c) && Attributes(c1) == Attributes(c);
  }

  /**
   * An action that answers `Process()` and leaves new own state: the
   * component accepts it and publishes its type, its name and that state.
   */
  lemma QuietActionThenPublish(c: Com, input: Input)
    requires !c.isGroup && c.overrides && !c.process.needToNotify
    requires var name := input.getString(ACTION);
             name != [] && name in c.actions && c.actions[name](input, c.own).0 == QuietProcess()
    ensures var (ok, c1) := HandleData(c, input);
            ok && PublishTo(c1, true).2 == BaseAttributes(c) + c.actions[input.getString(ACTION)](input, c.own).1
  {
    var name := input.getString(ACTION);
    var c1 := HandleData(c, input).1;
    assert c1 == RunAction(c, name, input);
    QuietLeafPublish(c1);
  }

  /** `Output::Include`: a null handler writes nothing; otherwise its sub-output is appended. */
  function Include(name: string, c: Com, handler: Option<Com -> seq<Item>>): (r: seq<Item>)
    ensures handler.None? ==> r == []
    ensures handler.Some? ==> r == [AppendOutput(name, handler.value(c))]
  {
    if handler.None? then [] else [AppendOutput(name, handler.value(c))]
  }

  // ---------------------------------------------------------------------------
  // The manager

  /**
   * `Manager::HandleInput` on the tree `root`: the component at `path`
   * handles the input and then publishes itself; an empty path, an unknown
   * component or a refused action answers false.  The component found is
   * replaced by its new state, whatever the answer.  The answer, the new
   * tree and what was written to the output.
   */
  function HandleInputOf(root: Com, path: string, input: Input, hasOut: bool): (r: (bool, Com, seq<Item>))
    ensures path == [] || FindCom(root, path).None? ==> r == (false, root, [])
    ensures path != [] && FindCom(root, path).Some? ==>
              var (handled, c1) := HandleData(FindCom(root, path).value, input);
              (!handled ==> !r.0 && r.2 == [] && FindCom(r.1, path) == Some(c1)) &&
              (handled ==> var (published, c2, items) := PublishTo(c1, hasOut);
                           r.0 == published && r.2 == items && FindCom(r.1, path) == Some(c2))
    ensures r.0 ==> hasOut
    ensures r.1.isGroup == root.isGroup && |r.1.components| == |root.components|
    ensures forall i :: 0 <= i < |root.components| ==> r.1.components[i].0 == root.components[i].0
  {
    if |path| == 0 then (false, root, [])
    else
      match FindCom(root, path)
      case None => (false, root, [])
      case Some(com) =>
        var (handled, c1) := HandleData(com, input);
        if !handled then
          ReplaceThenFind(root, path, c1);
          (false, ReplaceAt(root, path, c1), [])
        else
          var (published, c2, items) := PublishTo(c1, hasOut);
          ReplaceThenFind(root, path, c2);
          (published, ReplaceAt(root, path, c2), items)
  }

  /** `Com::Manager`: the root group, "manager", holding the tree in place. */
  class Manager {
    var root: Com

    /** The root is a group whose children are in key order. */
    predicate Valid()
      reads this
    {
      root.isGroup && Sorted(root.components)
    }

    constructor ()
      ensures Valid() && root == Group("manager")
    {
      root := Group("manager");
    }

    /** `AddCom` on the root group. */
    method AddCom(name: string, c: Com)
      requires Valid()
      modifies this
      ensures Valid() && root == GroupAddCom(old(root), name, c)
    {
      InsertSorted(root.components, name, c);
      root := root.(components := Insert(root.components, name, c));
    }

    /** `HandleInput`, updating the tree in place. */
    method HandleInput(path: string, input: Input, hasOut: bool) returns (ok: bool, out: seq<Item>)
      requires Valid()
      modifies this
      ensures Valid()
      ensures (ok, root, out) == HandleInputOf(old(root), path, input, hasOut)
    {
      if |path| == 0 {
        return false, [];
      }
      var found := FindCom(root, path);
      if found.None? {
        return false, [];
      }
      var com := found.value;
      var handled := HandleData(com, input);
      com := handled.1;
      if !handled.0 {
        SortedSameKeys(root.components, ReplaceAt(root, path, com).components);
        root := ReplaceAt(root, path, com);
        return false, [];
      }
      var published := PublishTo(com, hasOut);
      SortedSameKeys(root.components, ReplaceAt(root, path, published.1).components);
      root := ReplaceAt(root, path, published.1);
      ok, out := published.0, published.2;
    }
  }
}
