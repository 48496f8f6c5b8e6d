/** The server of `packages/core/wsx-server.ts`: a registry of connections
    that an adapter hands in with their ids, the connection and
    disconnection callbacks, and the counter behind `generateConnectionId`.
    Routing and fan-out are `Dispatch`'s. Sends and callback invocations are
    two output traces. */
module ServerCore {
  import opened Wrappers
  import opened Text
  import opened Wire
  import opened Dispatch

  /** Who a lifecycle callback belongs to. */
  datatype Source = FromConfig | FromAdapter

  /** One invocation of a lifecycle callback. */
  datatype Hook = Connected(source: Source, id: string) | Disconnected(source: Source, id: string)

  /** Which optional callbacks a party (`config` or `adapter`) defines. */
  datatype Callbacks = Callbacks(onConnection: bool, onDisconnection: bool)

  datatype Server = Server(conns: seq<string>, handlers: Handlers, counter: nat,
                           out: seq<Sent>, hooks: seq<Hook>,
                           config: Callbacks, adapter: Callbacks)

  /** The registry is a `Map`: no id in it twice. */
  predicate Inv(s: Server) {
    Distinct(s.conns)
  }

  /** A fresh server: no connections, no handlers, counter at 0. */
  function Create(config: Callbacks, adapter: Callbacks): (s: Server)
    ensures Inv(s) && s.conns == [] && s.counter == 0 && s.handlers == map[]
  {
    Server([], map[], 0, [], [], config, adapter)
  }

  /** The callbacks that run for connection `id`, the config's before the
      adapter's, each only when defined. */
  function LifecycleHooks(config: bool, adapter: bool, hook: Source -> Hook): (hs: seq<Hook>)
    ensures |hs| == (if config then 1 else 0) + (if adapter then 1 else 0)
    ensures config ==> hs[0] == hook(FromConfig)
    ensures adapter ==> hs[|hs| - 1] == hook(FromAdapter)
  {
    (if config then [hook(FromConfig)] else []) + (if adapter then [hook(FromAdapter)] else [])
  }

  /** The registration step of the message callback: an id not yet in the
      registry is added and announced; a known id changes nothing. */
  function Register(s: Server, id: string): (r: Server)
    requires Inv(s)
    ensures Inv(r)
    ensures id in s.conns ==> r == s
    ensures id !in s.conns ==>
      && r.conns == s.conns + [id]
      && r.hooks == s.hooks + LifecycleHooks(s.config.onConnection, s.adapter.onConnection, src => Connected(src, id))
    ensures id in r.conns
    ensures r == s.(conns := r.conns, hooks := r.hooks)
  {
    if id in s.conns then s
    else
      s.(conns := s.conns + [id],
         hooks := s.hooks + LifecycleHooks(s.config.onConnection, s.adapter.onConnection, src => Connected(src, id)))
  }

  /** Registration is idempotent: the callbacks fire once per new id. */
  lemma RegisterIdempotent(s: Server, id: string)
    requires Inv(s)
    ensures Register(Register(s, id), id) == Register(s, id)
  {
  }

  /** The message callback of `setupWebSocket`: `msg` is the result of
      `JSON.parse`, `None` when it throws. An unparseable message is dropped
      before registration; otherwise the connection is registered and the
      request handled. */
  function OnMessage(s: Server, id: string, msg: Option<Request>): (r: Server)
    requires Inv(s)
    ensures Inv(r)
    ensures msg.None? ==> r == s
    ensures msg.Some? ==>
      && r.conns == Register(s, id).conns && r.hooks == Register(s, id).hooks
      && r.out == s.out + SendAll(id, HandleRequest(s.handlers, msg.value, id))
    ensures r == s.(conns := r.conns, hooks := r.hooks, out := r.out)
  {
    match msg
    case None => s
    case Some(req) =>
      var s1 := Register(s, id);
      s1.(out := s1.out + SendAll(id, HandleRequest(s1.handlers, req, id)))
  }

  /** `on(name, f)` / `on(f)`: only the handler table changes. */
  function On(s: Server, name: Option<string>, f: Handler): (r: Server)
    ensures r == s.(handlers := r.handlers)
    ensures r.handlers == Dispatch.On(s.handlers, OrElse(name, ""), f)
  {
    match name
    case Some(n) => s.(handlers := Dispatch.On(s.handlers, n, f))
    case None => s.(handlers := OnCatchAll(s.handlers, f))
  }

  /** `removeConnection(id)`: an unknown id changes nothing; a known one
      leaves the registry (one entry fewer) and is announced. */
  function RemoveConnection(s: Server, id: string): (r: Server)
    requires Inv(s)
    ensures Inv(r)
    ensures id !in s.conns ==> r == s
    ensures id in s.conns ==>
      && id !in r.conns
      && |r.conns| == |s.conns| - 1
      && (forall x :: x in r.conns <==> x in s.conns && x != id)
      && r.hooks == s.hooks + LifecycleHooks(s.config.onDisconnection, s.adapter.onDisconnection, src => Disconnected(src, id))
    ensures r == s.(conns := r.conns, hooks := r.hooks)
  {
    if id !in s.conns then s
    else
      s.(conns := Remove(s.conns, id),
         hooks := s.hooks + LifecycleHooks(s.config.onDisconnection, s.adapter.onDisconnection, src => Disconnected(src, id)))
  }

  /** Removing a connection just registered restores the registry. */
  lemma RegisterThenRemove(s: Server, id: string)
    requires Inv(s) && id !in s.conns
    ensures RemoveConnection(Register(s, id), id).conns == s.conns
  {
    RemoveLast(s.conns, id);
  }

  /** `broadcast(target, html, swap)`: one send of the same response to
      every registered connection, in registration order. */
  method Broadcast(s: Server, target: string, html: string, swap: Option<string>, stamp: nat) returns (r: Server)
    ensures r == s.(out := r.out)
    ensures |r.out| == |s.out| + |s.conns| && r.out[..|s.out|] == s.out
    ensures forall i | 0 <= i < |s.conns| ::
      r.out[|s.out| + i] == Sent(s.conns[i], BroadcastResponse(target, html, swap, stamp))
  {
    var sent := Fanout(s.conns, BroadcastResponse(target, html, swap, stamp));
    r := s.(out := s.out + sent);
  }

  /** `sendToConnection(id, target, html, swap)`: one send when `id` is
      registered, none otherwise. */
  function SendToConnection(s: Server, id: string, target: string, html: string, swap: Option<string>, stamp: nat): (r: Server)
    ensures r == s.(out := r.out)
    ensures id !in s.conns ==> r == s
    ensures id in s.conns ==> r.out == s.out + [Sent(id, DirectResponse(target, html, swap, stamp))]
  {
    s.(out := s.out + SendTo(s.conns, id, DirectResponse(target, html, swap, stamp)))
  }

  /** `generateConnectionId()`: the counter goes up by one and names the id. */
  function GenerateConnectionId(s: Server): (r: (Server, string))
    ensures r.0 == s.(counter := s.counter + 1)
    ensures r.1 == ConnId(r.0.counter)
  {
    var s1 := s.(counter := s.counter + 1);
    (s1, ConnId(s1.counter))
  }

  /** `k` calls of `generateConnectionId` in a row return `k` distinct ids,
      none of them equal to an id any earlier call returned. */
  method GenerateIds(s: Server, k: nat) returns (r: Server, ids: seq<string>)
    ensures r == s.(counter := s.counter + k)
    ensures |ids| == k && Distinct(ids)
    ensures forall i | 0 <= i < k :: ids[i] == ConnId(s.counter + i + 1)
    ensures forall i, m | 0 <= i < k && 1 <= m <= s.counter :: ids[i] != ConnId(m)
  {
    r, ids := s, [];
    while |ids| < k
      invariant |ids| <= k
      invariant r == s.(counter := s.counter + |ids|)
      invariant forall i | 0 <= i < |ids| :: ids[i] == ConnId(s.counter + i + 1)
      invariant Distinct(ids)
    {
      var next := GenerateConnectionId(r);
      forall i | 0 <= i < |ids| ensures ids[i] != next.1 {
        PrefixedNumberInjective("conn_", s.counter + i + 1, r.counter + 1);
      }
      r, ids := next.0, ids + [next.1];
    }
    forall i, m | 0 <= i < k && 1 <= m <= s.counter ensures ids[i] != ConnId(m) {
      PrefixedNumberInjective("conn_", s.counter + i + 1, m);
    }
  }

  /** `getConnectionCount()`: the number of distinct registered ids. */
  function ConnectionCount(s: Server): (n: nat)
    requires Inv(s)
    ensures n == |set x | x in s.conns|
  {
    DistinctCount(s.conns);
    |s.conns|
  }
}
