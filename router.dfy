/**
 * `ProtocolHTTP::Router` of webapp_proto_http.cpp: a trie keyed by path
 * segments whose nodes may hold a handler.  Registration cuts a URL into
 * segments and descends, creating nodes; a call walks the request path as
 * deep as the trie goes and runs the handler of the deepest node reached.
 *
 * A handler is a `Functor` object around a callback; the callback is a
 * function from the unmatched rest of the path and the request to its
 * answer and the calls it makes on the response.
 */
module HttpRouter {
  import opened Text
  import opened HttpUri
  import UriParse
  import opened HttpRequest
  import opened HttpResponse

  /** A handler's answer and the calls it made on the response, in order. */
  datatype Handled = Handled(ok: bool, calls: seq<ResponseCall>)

  type Callback = (seq<string>, ReqState) -> Handled

  /** `Router::Functor`: its callback may be null. */
  class Functor {
    const callback: Option<Callback>

    constructor (cb: Option<Callback>)
      ensures callback == cb
    {
      callback := cb;
    }

    /** `operator()`: a null callback answers false and does nothing. */
    function Call(path: seq<string>, req: ReqState): (r: Handled)
      ensures callback.None? ==> r == Handled(false, [])
      ensures callback.Some? ==> r == callback.value(path, req)
    {
      if callback.Some? then callback.value(path, req) else Handled(false, [])
    }
  }

  /** `Router::State::Node`. */
  datatype Node = Node(handler: Functor?, children: map<string, Node>)

  const EMPTY_NODE := Node(null, map[])

  // ---------------------------------------------------------------------------
  // Cutting a URL

  /**
   * The segments `AddHandlerFor` descends through from `prev`: a segment
   * ended by `/` counts only with 2 or more characters; the segment after
   * the last `/` always counts, even when it is empty.
   */
  function PartsFrom(url: string, prev: nat): (ps: seq<string>)
    requires prev <= |url|
    ensures |ps| > 0
    decreases |url| - prev
  {
    match FindFirstOf(url, {'/'}, prev)
    case None => [url[prev..]]
    case Some(off) => (if off - prev < 2 then [] else [url[prev..off]]) + PartsFrom(url, off + 1)
  }

  /** The segments of a registration URL; a leading `/` is skipped. */
  function UrlParts(url: string): (ps: seq<string>)
    requires url != []
    ensures |ps| > 0
  {
    PartsFrom(url, if url[0] == '/' then 1 else 0)
  }

  /** The segments from a position with no `/` after it: just the rest. */
  lemma PartsLast(url: string, prev: nat)
    requires prev <= |url| && FindFirstOf(url, {'/'}, prev).None?
    ensures PartsFrom(url, prev) == [url[prev..]]
  {
  }

  /** The segments from a position whose next `/` is at `off`. */
  lemma PartsNext(url: string, prev: nat, off: nat)
    requires prev <= |url| && FindFirstOf(url, {'/'}, prev) == Some(off)
    ensures PartsFrom(url, prev) == (if off - prev < 2 then [] else [url[prev..off]]) + PartsFrom(url, off + 1)
  {
  }

  /** The do-while loop of `AddHandlerFor` that cuts the URL into segments. */
  method SplitUrl(url: string) returns (parts: seq<string>)
    requires url != []
    ensures parts == UrlParts(url)
  {
    parts := [];
    var prev: nat := if url[0] == '/' then 1 else 0;
    var off := FindFirstOf(url, {'/'}, prev);
    while off.Some?
      invariant prev <= |url| && off == FindFirstOf(url, {'/'}, prev)
      invariant parts + PartsFrom(url, prev) == UrlParts(url)
      decreases |url| - prev
    {
      PartsNext(url, prev, off.value);
      var head := if off.value - prev < 2 then [] else [url[prev..off.value]];
      Regroup(parts, head, PartsFrom(url, off.value + 1));
      parts := parts + head;
      prev := off.value + 1;
      off := FindFirstOf(url, {'/'}, prev);
    }
    PartsLast(url, prev);
    parts := parts + [url[prev..]];
  }

  lemma Regroup(a: seq<string>, b: seq<string>, c: seq<string>)
    ensures a + (b + c) == (a + b) + c
  {
  }

  /** No segment holds a `/`, and every segment but the last has at least 2 characters. */
  lemma {:induction false} PartsShape(url: string, prev: nat)
    requires prev <= |url|
    ensures var ps := PartsFrom(url, prev);
            (forall i :: 0 <= i < |ps| ==> '/' !in ps[i]) &&
            (forall i :: 0 <= i < |ps| - 1 ==> |ps[i]| >= 2)
    decreases |url| - prev
  {
    var f := FindFirstOf(url, {'/'}, prev);
    if f.Some? {
      var off := f.value;
      PartsNext(url, prev, off);
      PartsShape(url, off + 1);
      var head := if off - prev < 2 then [] else [url[prev..off]];
      var tail := PartsFrom(url, off + 1);
      var ps := PartsFrom(url, prev);
      assert ps == head + tail;
      forall i | 0 <= i < |ps|
        ensures '/' !in ps[i]
        ensures i < |ps| - 1 ==> |ps[i]| >= 2
      {
        if i < |head| {
          assert ps[i] == url[prev..off];
          assert forall j :: 0 <= j < |ps[i]| ==> ps[i][j] == url[prev + j];
        } else {
          assert ps[i] == tail[i - |head|];
        }
      }
    } else {
      PartsLast(url, prev);
      assert forall j :: 0 <= j < |url[prev..]| ==> url[prev..][j] == url[prev + j];
    }
  }

  /** A URL of two segments gives both, without the slashes. */
  lemma PartsExamples()
    ensures UrlParts("/node0/node1") == ["node0", "node1"]
  {
    var u := "/node0/node1";
    FindFirstAt(u, {'/'}, 1, 6);
    PartsNext(u, 1, 6);
    PartsLast(u, 7);
    assert u[1..6] == "node0" && u[7..] == "node1";
  }

  /** One-character segments before the last are skipped. */
  lemma ShortPartDropped()
    ensures UrlParts("/a/bc") == ["bc"]
  {
    var v := "/a/bc";
    FindFirstAt(v, {'/'}, 1, 2);
    PartsNext(v, 1, 2);
    PartsLast(v, 3);
    assert v[3..] == "bc";
  }


  /** A URL of a lone `/` registers one empty segment, not the trie's root. */
  lemma SlashIsEmptySegment()
    ensures UrlParts("/") == [""]
  {
    PartsLast("/", 1);
    assert "/"[1..] == "";
  }

  // ---------------------------------------------------------------------------
  // The trie as a value

  /** The node at exactly this path, if there is one. */
  function NodeAt(n: Node, parts: seq<string>): Option<Node>
    decreases |parts|
  {
    if parts == [] then Some(n)
    else if parts[0] in n.children then NodeAt(n.children[parts[0]], parts[1..])
    else None
  }

  /**
   * `AddHandlerFor` on the trie: create the missing nodes along the path,
   * then set the handler of the last one unless it already has one.
   */
  function AddAt(n: Node, parts: seq<string>, f: Functor?): (r: (Node, bool))
    decreases |parts|
  {
    if parts == [] then
      if n.handler != null then (n, false) else (n.(handler := f), true)
    else
      var child := if parts[0] in n.children then n.children[parts[0]] else EMPTY_NODE;
      var (c2, ok) := AddAt(child, parts[1..], f);
      (n.(children := n.children[parts[0] := c2]), ok)
  }

  /**
   * Registration succeeds exactly when no handler sits at the path; then
   * the path leads to the new handler, and otherwise the trie is unchanged.
   */
  lemma {:induction false} AddAtSpec(n: Node, parts: seq<string>, f: Functor?)
    ensures AddAt(n, parts, f).1 <==> NodeAt(n, parts).None? || NodeAt(n, parts).value.handler == null
    ensures AddAt(n, parts, f).1 ==> NodeAt(AddAt(n, parts, f).0, parts).Some? &&
                                     NodeAt(AddAt(n, parts, f).0, parts).value.handler == f
    ensures !AddAt(n, parts, f).1 ==> AddAt(n, parts, f).0 == n
    decreases |parts|
  {
    if parts != [] {
      var child := if parts[0] in n.children then n.children[parts[0]] else EMPTY_NODE;
      AddAtSpec(child, parts[1..], f);
      if parts[0] !in n.children {
        NodeAtEmpty(parts[1..]);
      }
      var (c2, ok) := AddAt(child, parts[1..], f);
      if !ok {
        assert n.children[parts[0] := c2] == n.children;
      }
    }
  }

  lemma {:induction false} NodeAtEmpty(parts: seq<string>)
    ensures parts != [] ==> NodeAt(EMPTY_NODE, parts).None?
    ensures parts == [] ==> NodeAt(EMPTY_NODE, parts) == Some(EMPTY_NODE)
  {
  }

  /** A second registration at the same URL fails and leaves the first handler in place. */
  lemma SecondAddFails(n: Node, parts: seq<string>, f: Functor, g: Functor?)
    requires AddAt(n, parts, f).1
    ensures !AddAt(AddAt(n, parts, f).0, parts, g).1
    ensures AddAt(AddAt(n, parts, f).0, parts, g).0 == AddAt(n, parts, f).0
  {
    AddAtSpec(n, parts, f);
    AddAtSpec(AddAt(n, parts, f).0, parts, g);
  }

  /**
   * `CallHandlerFor`'s walk: how many segments of the path the trie
   * matches from this node, and the handler of the deepest node matched.
   * This node's own handler is never the answer.
   */
  function Route(n: Node, path: seq<string>): (r: (Functor?, nat))
    ensures r.1 <= |path|
    ensures r.1 == 0 ==> r.0 == null
    decreases |path|
  {
    if path == [] || path[0] !in n.children then (null, 0)
    else
      var child := n.children[path[0]];
      var (h, k) := Route(child, path[1..]);
      if k == 0 then (child.handler, 1) else (h, k + 1)
  }

  /**
   * The walk stops at the deepest node on the path: the handler is that
   * node's, and the next segment, if any, is not among its children.
   */
  lemma {:induction false} RouteIsDeepestMatch(n: Node, path: seq<string>)
    ensures var (h, k) := Route(n, path);
            NodeAt(n, path[..k]).Some? &&
            (k > 0 ==> h == NodeAt(n, path[..k]).value.handler) &&
            (k < |path| ==> path[k] !in NodeAt(n, path[..k]).value.children)
    decreases |path|
  {
    if path != [] && path[0] in n.children {
      var child := n.children[path[0]];
      RouteIsDeepestMatch(child, path[1..]);
      var k := Route(n, path).1;
      assert path[..k][1..] == path[1..][..k - 1];
    }
  }

  /** After a registration, the walk along its own segments reaches the new handler. */
  lemma {:induction false} AddedIsRouted(n: Node, parts: seq<string>, f: Functor?)
    requires parts != [] && AddAt(n, parts, f).1
    ensures Route(AddAt(n, parts, f).0, parts) == (f, |parts|)
    decreases |parts|
  {
    var child := if parts[0] in n.children then n.children[parts[0]] else EMPTY_NODE;
    var c2 := AddAt(child, parts[1..], f).0;
    if parts[1..] != [] {
      AddedIsRouted(child, parts[1..], f);
    }
  }

  /** `SelectPath`: the request path, or the router's root path when that is empty. */
  function SelectPath(path: seq<string>, root: seq<string>): (p: seq<string>)
    ensures |path| > 0 ==> p == path
    ensures |path| == 0 ==> p == root
  {
    if |path| > 0 then path else root
  }

  /** `CallHandlerFor` on the trie: the deepest handler gets the unmatched rest of the path. */
  function Dispatch(n: Node, root: seq<string>, req: ReqState): Handled
  {
    var path := SelectPath(req.header.line.target.path, root);
    var (h, k) := Route(n, path);
    if h == null then Handled(false, []) else h.Call(path[k..], req)
  }

  /** A path that matches nothing in the trie is answered false with no calls. */
  lemma UnmatchedIsRefused(n: Node, root: seq<string>, req: ReqState)
    requires var path := SelectPath(req.header.line.target.path, root);
             path == [] || path[0] !in n.children
    ensures Dispatch(n, root, req) == Handled(false, [])
  {
  }

  // ---------------------------------------------------------------------------
  // The router object

  class Router {
    var nodes: Node
    var rootUrl: seq<string>

    /** `Router()`: an empty trie and no root path. */
    constructor ()
      ensures nodes == EMPTY_NODE && rootUrl == []
    {
      nodes := EMPTY_NODE;
      rootUrl := [];
    }

    /**
     * `Router(root_url)`: the path of the URL as `Uri::ParseVal` leaves it,
     * whether the parse succeeded or not.  A URL that makes the parser
     * throw cannot be given.
     */
    constructor WithRoot(url: string)
      requires UriParse.ParseVal(EmptyUri, url).Returns?
      ensures nodes == EMPTY_NODE && rootUrl == UriParse.ParseVal(EmptyUri, url).value.uri.path
    {
      nodes := EMPTY_NODE;
      rootUrl := UriParse.ParseVal(EmptyUri, url).value.uri.path;
    }

    /**
     * `AddHandlerFor`: the do-while loop cuts the URL into segments at each
     * `/`, then the segments are inserted.  The URL must not be empty (its
     * first character is read with `at`).
     */
    method AddHandlerFor(url: string, f: Functor?) returns (ok: bool)
      requires url != []
      modifies this
      ensures (nodes, ok) == AddAt(old(nodes), UrlParts(url), f)
      ensures rootUrl == old(rootUrl)
    {
      var parts := SplitUrl(url);
      var added := AddAt(nodes, parts, f);
      nodes := added.0;
      ok := added.1;
    }

    /** `CallHandlerFor`: walks the path down the trie, then calls the handler of the deepest node. */
    method CallHandlerFor(req: ReqState) returns (r: Handled)
      ensures r == Dispatch(nodes, rootUrl, req)
    {
      var path := SelectPath(req.header.line.target.path, rootUrl);
      var node := nodes;
      var handler: Functor? := null;
      var i := 0;
      while i < |path| && path[i] in node.children
        invariant 0 <= i <= |path|
        invariant i == 0 ==> handler == null
        invariant Route(nodes, path) ==
                  (if Route(node, path[i..]).1 == 0 then (handler, i)
                   else (Route(node, path[i..]).0, i + Route(node, path[i..]).1))
        decreases |path| - i
      {
        assert path[i..][0] == path[i] && path[i..][1..] == path[i + 1..];
        node := node.children[path[i]];
        handler := node.handler;
        i := i + 1;
      }
      if handler != null {
        r := handler.Call(path[i..], req);
      } else {
        r := Handled(false, []);
      }
    }
  }
}
