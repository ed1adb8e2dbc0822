/**
 * The `ProtocolHTTP` session object of webapp_proto_http.cpp: it feeds
 * received bytes to its request, runs the router once the request is
 * complete, then hands out the response until it is drained, after which
 * the session is marked for closing.
 */
module HttpProtocol {
  import opened Text
  import opened HttpTables
  import opened HttpHeader
  import opened FieldStorage
  import opened HttpRequest
  import opened HttpResponse
  import opened HttpRouter

  /** The response after the handler of a completed request: its calls, then 404 if it answered false. */
  function Answer(v: Outgoing, h: Handled, now: int, render: int -> string): (r: Outgoing)
    ensures !h.ok ==> r.status == 404 && r.header == HeaderForText("", "", now)
  {
    var v1 := AfterCalls(v, h.calls, now, render);
    if h.ok then v1 else WithHeader(v1, 404, HeaderForText("", "", now))
  }

  /**
   * `HandleRequest` on values: parse the bytes; once the request is
   * complete, answer it through the router.  The answer is whether to keep
   * reading.
   */
  function Handle(s: ReqState, v: Outgoing, bytes: seq<Byte>, gen: Option<ContentType -> Option<Store>>,
                  nodes: Node, root: seq<string>, now: int, render: int -> string): (r: Throws<(bool, ReqState, Outgoing)>)
    requires |bytes| < USIZE_MOD
    ensures r.Returns? <==> ParseRequestOf(s, bytes, gen, now).Returns?
    ensures r.Returns? ==> r.value.1 == ParseRequestOf(s, bytes, gen, now).value.1
    ensures r.Returns? ==> (r.value.0 <==> ParseRequestOf(s, bytes, gen, now).value.0 && !Completed(r.value.1))
    ensures r.Returns? && !Completed(r.value.1) ==> r.value.2 == v
  {
    match ParseRequestOf(s, bytes, gen, now)
    case OutOfRange => OutOfRange
    case Returns((ok, s1)) =>
      if Completed(s1) then Returns((false, s1, Answer(v, Dispatch(nodes, root, s1), now, render)))
      else Returns((ok, s1, v))
  }

  /**
   * A completed request whose path the router does not know is answered
   * with the default 404 header, whatever was in the response before.
   */
  lemma UnroutedRequestGets404(s: ReqState, v: Outgoing, bytes: seq<Byte>, gen: Option<ContentType -> Option<Store>>,
                               nodes: Node, root: seq<string>, now: int, render: int -> string)
    requires |bytes| < USIZE_MOD
    requires Handle(s, v, bytes, gen, nodes, root, now, render).Returns?
    requires Completed(Handle(s, v, bytes, gen, nodes, root, now, render).value.1)
    requires var path := SelectPath(Handle(s, v, bytes, gen, nodes, root, now, render).value.1.header.line.target.path, root);
             path == [] || path[0] !in nodes.children
    ensures Handle(s, v, bytes, gen, nodes, root, now, render).value.2 == WithHeader(v, 404, HeaderForText("", "", now))
  {
    UnmatchedIsRefused(nodes, root, Handle(s, v, bytes, gen, nodes, root, now, render).value.1);
  }

  /** `ProtocolHTTP`: the router, the request, the response and the closing flag. */
  class Protocol {
    const router: Router
    const request: Request
    const response: Response
    var needToClose: bool

    ghost predicate Valid()
      reads this, response, response.srcHeader, response.srcBody
    {
      response.Valid()
    }

    constructor (router: Router, render: int -> string, now: int)
      ensures Valid() && this.router == router && !needToClose
      ensures fresh(request) && fresh(response) && response.render == render
      ensures request.state == NewState(now) && request.generator.None?
      ensures response.View() == Outgoing(404, DefaultHeader(now), None, None)
    {
      this.router := router;
      request := new Request(now);
      response := new Response(render, now);
      needToClose := false;
    }

    /** `HandleRequest`: true while more request bytes are wanted. */
    method HandleRequest(bytes: seq<Byte>, now: int) returns (r: Throws<bool>)
      requires Valid() && |bytes| < USIZE_MOD
      modifies request, response
      ensures Valid() && request.generator == old(request.generator)
      ensures var h := Handle(old(request.state), old(response.View()), bytes, request.generator,
                              router.nodes, router.rootUrl, now, response.render);
              (h.OutOfRange? ==> r.OutOfRange?) &&
              (h.Returns? ==> r == Returns(h.value.0) && request.state == h.value.1 && response.View() == h.value.2)
    {
      var parsed := request.ParseRequest(bytes, now);
      if parsed.OutOfRange? {
        return OutOfRange;
      }
      var complete := Completed(request.state);
      if complete {
        var handled := router.CallHandlerFor(request.state);
        response.PerformAll(handled.calls, now);
        if !handled.ok {
          response.SetStatus(404, now);
        }
      }
      r := Returns(parsed.value && !complete);
    }

    /**
     * `PrepareResponse`: the next bytes of the response; when there are
     * none, both objects are reset and the session is marked for closing.
     */
    method PrepareResponse(max: nat, now: int) returns (out: seq<Byte>)
      requires Valid()
      modifies this, request, response, response.srcHeader, response.srcBody
      ensures Valid() && request.generator == (if out == [] then None else old(request.generator))
      ensures out == Read(old(response.View()), max, response.render).0
      ensures out != [] ==> response.View() == Read(old(response.View()), max, response.render).1 &&
                            request.state == old(request.state) && needToClose == old(needToClose)
      ensures out == [] ==> needToClose && request.state == NewState(now) &&
                            response.View() == Outgoing(404, DefaultHeader(now), None, None)
    {
      out := response.GetResponse(max);
      if |out| == 0 {
        response.ResetState(now);
        request.ResetState(now);
        needToClose := true;
      }
    }

    /** `NeedToCloseSession`. */
    predicate NeedToCloseSession()
      reads this
    {
      needToClose
    }
  }
}
