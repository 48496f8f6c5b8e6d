/** What both servers (`packages/core/wsx-server.ts` and the older
    `src/wsx-server.ts`) share word for word: handler registration with
    `on`, routing in `handleRequest`, the fan-out of a handler's result in
    `executeHandler`, and the sends of `broadcast` and `sendToConnection`.

    A handler is one atomic step from the request and the connection id to
    an `Outcome`; its `await` and any interleaving with other handlers are
    not modelled. Every `connection.send` becomes one entry of an output
    trace. */
module Dispatch {
  import opened Wrappers
  import opened Text
  import opened Wire

  /** What a handler's promise settles to. `NoReply` covers `undefined` and
      every other falsy result; `Throws` carries the rendered error message
      (`error.message`, or `String(error)` for a non-`Error` value). */
  datatype Outcome =
    | NoReply
    | One(response: Response)
    | Many(responses: seq<Response>)
    | Throws(message: string)

  type Handler = (Request, string) -> Outcome

  /** The `handlers` map. */
  type Handlers = map<string, Handler>

  /** One `connection.send(JSON.stringify(response))`. */
  datatype Sent = Sent(conn: string, response: Response)

  // ----- on -----

  /** `on(name, f)`: register `f` under `name`, replacing any handler there. */
  function On(handlers: Handlers, name: string, f: Handler): (r: Handlers)
    ensures name in r && r[name] == f
    ensures r.Keys == handlers.Keys + {name}
    ensures forall k | k in handlers && k != name :: r[k] == handlers[k]
  {
    handlers[name := f]
  }

  /** `on(f)`: the catch-all lives under the empty name. */
  function OnCatchAll(handlers: Handlers, f: Handler): (r: Handlers)
    ensures "" in r && r[""] == f
    ensures r.Keys == handlers.Keys + {""}
    ensures forall k | k in handlers && k != "" :: r[k] == handlers[k]
  {
    On(handlers, "", f)
  }

  // ----- handleRequest -----

  /** The name of the handler `handleRequest` runs: the request's own
      handler when it is non-empty and registered, else the catch-all when
      one is registered, else none. */
  function Route(handlers: Handlers, req: Request): (k: Option<string>)
    ensures k.Some? ==> k.value in handlers
    ensures req.handler != [] && req.handler in handlers ==> k == Some(req.handler)
    ensures (req.handler == [] || req.handler !in handlers) ==>
      (k.Some? <==> "" in handlers) && (k.Some? ==> k.value == "")
  {
    if Truthy(req.handler) && req.handler in handlers then Some(req.handler)
    else if "" in handlers then Some("")
    else None
  }

  /** The markup of the error response. */
  function ErrorHtml(message: string): string {
    "<div class=\"error\">An error occurred: " + message + "</div>"
  }

  /** The single response sent for a handler that throws: addressed to the
      request, replacing the target's content with the message. */
  function ErrorResponse(req: Request, message: string): (r: Response)
    ensures r.id == req.id && r.target == req.target
    ensures r.swap == Some("innerHTML") && r.oob == []
    ensures r.html == ErrorHtml(message)
  {
    Response(req.id, req.target, ErrorHtml(message), Some("innerHTML"), [])
  }

  /** `executeHandler`: the responses sent back, in order. */
  function Replies(outcome: Outcome, req: Request): (rs: seq<Response>)
    ensures outcome.NoReply? <==> rs == [] && !outcome.Many? && !outcome.Throws?
    ensures outcome.One? ==> rs == [outcome.response]
    ensures outcome.Many? ==> rs == outcome.responses
    ensures outcome.Throws? ==> rs == [ErrorResponse(req, outcome.message)]
  {
    match outcome
    case NoReply => []
    case One(r) => [r]
    case Many(rs) => rs
    case Throws(m) => [ErrorResponse(req, m)]
  }

  /** `handleRequest(request, connection)`: the responses the connection
      receives. */
  function HandleRequest(handlers: Handlers, req: Request, conn: string): (rs: seq<Response>)
    ensures Route(handlers, req).None? ==> rs == []
    ensures Route(handlers, req).Some? ==> rs == Replies(handlers[Route(handlers, req).value](req, conn), req)
  {
    match Route(handlers, req)
    case None => []
    case Some(k) => Replies(handlers[k](req, conn), req)
  }

  /** Each response of a list, sent to one connection, in order. */
  function SendAll(conn: string, rs: seq<Response>): (out: seq<Sent>)
    ensures |out| == |rs|
    ensures forall i | 0 <= i < |rs| :: out[i] == Sent(conn, rs[i])
  {
    seq(|rs|, i requires 0 <= i < |rs| => Sent(conn, rs[i]))
  }

  /** A named handler shadows the catch-all. */
  lemma NamedBeatsCatchAll(handlers: Handlers, req: Request, conn: string)
    requires req.handler != [] && req.handler in handlers && "" in handlers
    ensures HandleRequest(handlers, req, conn) == Replies(handlers[req.handler](req, conn), req)
  {
  }

  /** A request with no handler name, or an unregistered one, goes to the
      catch-all; with no catch-all it gets no reply at all. */
  lemma FallThrough(handlers: Handlers, req: Request, conn: string)
    requires req.handler == [] || req.handler !in handlers
    ensures "" in handlers ==> HandleRequest(handlers, req, conn) == Replies(handlers[""](req, conn), req)
    ensures "" !in handlers ==> HandleRequest(handlers, req, conn) == []
  {
  }

  /** A throwing handler yields exactly one response, whatever it is. */
  lemma ThrowYieldsOneError(handlers: Handlers, req: Request, conn: string)
    requires Route(handlers, req).Some?
    requires handlers[Route(handlers, req).value](req, conn).Throws?
    ensures |HandleRequest(handlers, req, conn)| == 1
    ensures HandleRequest(handlers, req, conn)[0].id == req.id
    ensures HandleRequest(handlers, req, conn)[0].target == req.target
  {
  }

  /** Registering a handler under another name does not change how a
      request already routed to a named handler is answered. */
  lemma OnOtherNameKeepsRoute(handlers: Handlers, req: Request, name: string, f: Handler)
    requires req.handler != [] && req.handler in handlers && name != req.handler
    ensures Route(On(handlers, name, f), req) == Route(handlers, req) == Some(req.handler)
  {
  }

  // ----- the connection registry -----

  /** No id is registered twice: a `Map`'s keys. */
  predicate Distinct(ids: seq<string>) {
    forall i, j | 0 <= i < j < |ids| :: ids[i] != ids[j]
  }

  /** `connections.delete(id)`: the other ids keep their insertion order. */
  function Remove(ids: seq<string>, id: string): (r: seq<string>)
    ensures forall x :: x in r <==> x in ids && x != id
    ensures Distinct(ids) ==> Distinct(r)
    ensures Distinct(ids) && id in ids ==> |r| == |ids| - 1
    ensures id !in ids ==> r == ids
  {
    if ids == [] then []
    else if ids[0] == id then Remove(ids[1..], id)
    else
      var rest := Remove(ids[1..], id);
      assert Distinct(ids) ==> ids[0] !in ids[1..] && Distinct(ids[1..]);
      [ids[0]] + rest
  }

  /** With distinct ids, deleting the id at position `k` cuts out exactly
      that position: the ids before it and after it stay, in their order. */
  lemma {:induction false} RemoveAt(ids: seq<string>, k: nat)
    requires Distinct(ids) && k < |ids|
    ensures Remove(ids, ids[k]) == ids[..k] + ids[k + 1..]
  {
    var id := ids[k];
    if k == 0 {
      RemoveHead(ids);
    } else {
      var tail := ids[1..];
      DistinctTail(ids);
      assert tail[k - 1] == id && ids[0] != id;
      RemoveAt(tail, k - 1);
      var kept := tail[..k - 1] + tail[k..];
      assert Remove(ids, id) == [ids[0]] + kept;
      assert [ids[0]] + kept == ([ids[0]] + tail[..k - 1]) + tail[k..];
      assert ids[..k] == [ids[0]] + tail[..k - 1];
      assert ids[k + 1..] == tail[k..];
    }
  }

  /** With distinct ids, deleting the first one leaves the rest. */
  lemma RemoveHead(ids: seq<string>)
    requires Distinct(ids) && ids != []
    ensures Remove(ids, ids[0]) == ids[1..]
  {
    assert ids[0] !in ids[1..] by {
      forall j | 0 <= j < |ids[1..]| ensures ids[1..][j] != ids[0] {
        assert ids[1..][j] == ids[j + 1];
      }
    }
  }

  /** Dropping the first id keeps the rest distinct. */
  lemma DistinctTail(ids: seq<string>)
    requires Distinct(ids) && ids != []
    ensures Distinct(ids[1..])
  {
    forall i, j | 0 <= i < j < |ids[1..]| ensures ids[1..][i] != ids[1..][j] {
      assert ids[1..][i] == ids[i + 1] && ids[1..][j] == ids[j + 1];
    }
  }

  /** With distinct ids, deleting a present one keeps the others in their
      order. */
  lemma RemoveKeepsOrder(ids: seq<string>, id: string)
    requires Distinct(ids) && id in ids
    ensures exists k | 0 <= k < |ids| && ids[k] == id :: Remove(ids, id) == ids[..k] + ids[k + 1..]
  {
    var k :| 0 <= k < |ids| && ids[k] == id;
    RemoveAt(ids, k);
  }

  /** Deleting the id registered last restores the registry before it. */
  lemma {:induction false} RemoveLast(ids: seq<string>, id: string)
    requires id !in ids
    ensures Remove(ids + [id], id) == ids
  {
    if ids != [] {
      assert (ids + [id])[1..] == ids[1..] + [id];
      RemoveLast(ids[1..], id);
    }
  }

  /** The number of entries of a registry is the number of distinct ids in
      it. */
  lemma {:induction false} DistinctCount(ids: seq<string>)
    requires Distinct(ids)
    ensures |set x | x in ids| == |ids|
  {
    if ids != [] {
      DistinctCount(ids[1..]);
      assert (set x | x in ids) == (set x | x in ids[1..]) + {ids[0]};
      assert ids[0] !in ids[1..];
    }
  }

  /** `` `conn_${n}` ``: the ids both servers mint from their counters. */
  function ConnId(n: nat): string {
    "conn_" + NatToString(n)
  }

  /** `swap || 'innerHTML'` */
  function SwapOrDefault(swap: Option<string>): (s: string)
    ensures s != []
    ensures swap.Some? && swap.value != [] ==> s == swap.value
  {
    OrElse(swap, "innerHTML")
  }

  /** The response `broadcast` sends; `stamp` stands for `Date.now()`. */
  function BroadcastResponse(target: string, html: string, swap: Option<string>, stamp: nat): (r: Response)
    ensures "broadcast_" <= r.id && |r.id| > |"broadcast_"|
    ensures r.target == target && r.html == html && r.oob == []
    ensures r.swap == Some(SwapOrDefault(swap))
  {
    Response("broadcast_" + NatToString(stamp), target, html, Some(SwapOrDefault(swap)), [])
  }

  /** The response `sendToConnection` sends; `stamp` stands for `Date.now()`. */
  function DirectResponse(target: string, html: string, swap: Option<string>, stamp: nat): (r: Response)
    ensures "direct_" <= r.id && |r.id| > |"direct_"|
    ensures r.target == target && r.html == html && r.oob == []
    ensures r.swap == Some(SwapOrDefault(swap))
  {
    BroadcastResponse(target, html, swap, stamp).(id := "direct_" + NatToString(stamp))
  }

  /** The `for (const connection of this.connections.values())` loop of
      `broadcast`: the same response to every registered connection, in
      registration order. */
  method Fanout(conns: seq<string>, response: Response) returns (out: seq<Sent>)
    ensures |out| == |conns|
    ensures forall i | 0 <= i < |conns| :: out[i] == Sent(conns[i], response)
  {
    out := [];
    var k := 0;
    while k < |conns|
      invariant 0 <= k <= |conns|
      invariant |out| == k
      invariant forall i | 0 <= i < k :: out[i] == Sent(conns[i], response)
    {
      out := out + [Sent(conns[k], response)];
      k := k + 1;
    }
  }

  /** `sendToConnection`: one send to a registered id, none otherwise. */
  function SendTo(conns: seq<string>, id: string, response: Response): (out: seq<Sent>)
    ensures id in conns ==> out == [Sent(id, response)]
    ensures id !in conns ==> out == []
  {
    if id in conns then [Sent(id, response)] else []
  }
}
