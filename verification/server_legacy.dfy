/** The older server of `src/wsx-server.ts`: it names connections itself.
    The first message on a socket it has not seen creates `conn_N` with a
    freshly incremented N and maps the socket to it; `onClose` forgets both.
    Routing and fan-out are `Dispatch`'s; sends are an output trace. */
module ServerLegacy {
  import opened Wrappers
  import opened Text
  import opened Wire
  import opened Dispatch

  /** A socket object, by identity (the key of the `WeakMap`). */
  type Socket = nat

  datatype Server = Server(conns: seq<string>, sockets: map<Socket, string>, counter: nat,
                           handlers: Handlers, out: seq<Sent>)

  /** The ids the counter has handed out so far. */
  function Issued(counter: nat): set<string> {
    set k | 1 <= k <= counter :: ConnId(k)
  }

  /** The registry and the socket map describe the same connections: each
      registered id is mapped from exactly one socket, each mapped id is
      registered, and every id was issued by the counter. */
  predicate Inv(s: Server) {
    && Distinct(s.conns)
    && (forall w | w in s.sockets :: s.sockets[w] in s.conns)
    && (forall x | x in s.conns :: x in s.sockets.Values)
    && (forall w1, w2 | w1 in s.sockets && w2 in s.sockets && w1 != w2 :: s.sockets[w1] != s.sockets[w2])
    && (forall x | x in s.conns :: x in Issued(s.counter))
  }

  function Create(): (s: Server)
    ensures Inv(s) && s.conns == [] && s.counter == 0
  {
    Server([], map[], 0, map[], [])
  }

  /** `findConnectionByWS(ws)` */
  function FindConnection(s: Server, ws: Socket): (id: Option<string>)
    requires Inv(s)
    ensures id.Some? <==> ws in s.sockets
    ensures id.Some? ==> id.value == s.sockets[ws] && id.value in s.conns
  {
    if ws in s.sockets && Truthy(s.sockets[ws]) && s.sockets[ws] in s.conns then Some(s.sockets[ws]) else None
  }

  /** The next id is not registered yet. */
  lemma NextIdIsFresh(s: Server)
    requires Inv(s)
    ensures ConnId(s.counter + 1) !in s.conns
  {
    if ConnId(s.counter + 1) in s.conns {
      var k :| 1 <= k <= s.counter && ConnId(k) == ConnId(s.counter + 1);
      PrefixedNumberInjective("conn_", k, s.counter + 1);
    }
  }

  /** Mapping an unmapped socket to the next id keeps the invariant. */
  lemma FreshSocketKeepsInv(s: Server, ws: Socket, id: string)
    requires Inv(s) && ws !in s.sockets && id == ConnId(s.counter + 1)
    ensures Inv(s.(counter := s.counter + 1, sockets := s.sockets[ws := id], conns := s.conns + [id]))
  {
    var r := s.(counter := s.counter + 1, sockets := s.sockets[ws := id], conns := s.conns + [id]);
    NextIdIsFresh(s);
    assert forall w | w in s.sockets :: s.sockets[w] != id;
    assert Distinct(r.conns) by {
      forall i, j | 0 <= i < j < |r.conns| ensures r.conns[i] != r.conns[j] {
        if j == |s.conns| { assert r.conns[i] in s.conns; }
      }
    }
    assert forall x | x in r.conns :: x in r.sockets.Values by {
      forall x | x in r.conns ensures x in r.sockets.Values {
        if x == id { assert r.sockets[ws] == id; }
        else {
          assert x in s.conns;
          var w :| w in s.sockets && s.sockets[w] == x;
          assert r.sockets[w] == x;
        }
      }
    }
    assert forall x | x in r.conns :: x in Issued(r.counter) by {
      forall x | x in r.conns ensures x in Issued(r.counter) {
        if x != id {
          assert x in s.conns;
          var k :| 1 <= k <= s.counter && ConnId(k) == x;
        }
      }
    }
  }

  /** The registration step of `onMessage`: a mapped socket keeps its
      connection; an unmapped one gets `conn_{++counter}`. */
  function Attach(s: Server, ws: Socket): (r: (Server, string))
    requires Inv(s)
    ensures Inv(r.0)
    ensures ws in r.0.sockets && r.0.sockets[ws] == r.1 && r.1 in r.0.conns
    ensures ws in s.sockets ==> r.0 == s && r.1 == s.sockets[ws]
    ensures ws !in s.sockets ==>
      && r.1 == ConnId(s.counter + 1) && r.1 !in s.conns
      && r.0 == s.(counter := s.counter + 1, sockets := s.sockets[ws := r.1], conns := s.conns + [r.1])
  {
    match FindConnection(s, ws)
    case Some(id) => (s, id)
    case None =>
      var id := ConnId(s.counter + 1);
      NextIdIsFresh(s);
      var r := s.(counter := s.counter + 1, sockets := s.sockets[ws := id], conns := s.conns + [id]);
      FreshSocketKeepsInv(s, ws, id);
      (r, id)
  }

  /** `onMessage(event, ws)`: `msg` is `JSON.parse` of the data, `None`
      when it throws, in which case nothing happens, not even registration. */
  function OnMessage(s: Server, ws: Socket, msg: Option<Request>): (r: Server)
    requires Inv(s)
    ensures Inv(r)
    ensures msg.None? ==> r == s
    ensures msg.Some? ==>
      var (s1, id) := Attach(s, ws);
      r == s1.(out := s.out + SendAll(id, HandleRequest(s.handlers, msg.value, id)))
  {
    match msg
    case None => s
    case Some(req) =>
      var (s1, id) := Attach(s, ws);
      s1.(out := s1.out + SendAll(id, HandleRequest(s1.handlers, req, id)))
  }

  /** Later messages on a socket reuse its connection: a second message
      creates nothing. */
  lemma SecondMessageReuses(s: Server, ws: Socket, m1: Request, m2: Request)
    requires Inv(s)
    ensures var s1 := OnMessage(s, ws, Some(m1));
      var s2 := OnMessage(s1, ws, Some(m2));
      && s2.conns == s1.conns && s2.sockets == s1.sockets && s2.counter == s1.counter
      && s1.counter <= s.counter + 1
  {
  }

  /** Two sockets that each send a first message get distinct connections. */
  lemma DistinctSocketsDistinctIds(s: Server, w1: Socket, w2: Socket, m1: Request, m2: Request)
    requires Inv(s) && w1 != w2 && w1 !in s.sockets && w2 !in s.sockets
    ensures var s1 := OnMessage(s, w1, Some(m1));
      var s2 := OnMessage(s1, w2, Some(m2));
      && |s2.conns| == |s.conns| + 2
      && s2.sockets[w1] != s2.sockets[w2]
  {
  }

  /** `onClose(event, ws)`: a known socket loses its mapping and its
      connection; an unknown one changes nothing. */
  function OnClose(s: Server, ws: Socket): (r: Server)
    requires Inv(s)
    ensures Inv(r)
    ensures ws !in s.sockets ==> r == s
    ensures ws in s.sockets ==>
      && ws !in r.sockets && s.sockets[ws] !in r.conns
      && |r.conns| == |s.conns| - 1
      && (forall x :: x in r.conns <==> x in s.conns && x != s.sockets[ws])
      && r.sockets == s.sockets - {ws}
    ensures r == s.(conns := r.conns, sockets := r.sockets)
  {
    match FindConnection(s, ws)
    case None => s
    case Some(id) =>
      var r := s.(conns := Remove(s.conns, id), sockets := s.sockets - {ws});
      assert forall x | x in r.conns :: x in r.sockets.Values by {
        forall x | x in r.conns ensures x in r.sockets.Values {
          var w :| w in s.sockets && s.sockets[w] == x;
          assert w != ws;
          assert w in r.sockets;
        }
      }
      r
  }

  /** `broadcast(target, html, swap)`: the same response to every
      registered connection, in registration order. */
  method Broadcast(s: Server, target: string, html: string, swap: Option<string>, stamp: nat) returns (r: Server)
    ensures r == s.(out := r.out)
    ensures |r.out| == |s.out| + |s.conns| && r.out[..|s.out|] == s.out
    ensures forall i | 0 <= i < |s.conns| ::
      r.out[|s.out| + i] == Sent(s.conns[i], BroadcastResponse(target, html, swap, stamp))
  {
    var sent := Fanout(s.conns, BroadcastResponse(target, html, swap, stamp));
    r := s.(out := s.out + sent);
  }

  /** `sendToConnection(id, target, html, swap)`: one send when `id` is
      registered, none otherwise. */
  function SendToConnection(s: Server, id: string, target: string, html: string, swap: Option<string>, stamp: nat): (r: Server)
    ensures r == s.(out := r.out)
    ensures id !in s.conns ==> r == s
    ensures id in s.conns ==> r.out == s.out + [Sent(id, DirectResponse(target, html, swap, stamp))]
  {
    s.(out := s.out + SendTo(s.conns, id, DirectResponse(target, html, swap, stamp)))
  }

  /** `getConnectionCount()`: also the number of open mapped sockets. */
  function ConnectionCount(s: Server): (n: nat)
    requires Inv(s)
    ensures n == |set x | x in s.conns|
    ensures n == |s.sockets|
  {
    DistinctCount(s.conns);
    InjectiveMapSize(s.sockets);
    assert s.sockets.Values == (set x | x in s.conns);
    |s.conns|
  }

  /** A map that sends distinct keys to distinct values has as many values
      as keys. */
  lemma {:induction false} InjectiveMapSize(m: map<Socket, string>)
    requires forall w1, w2 | w1 in m && w2 in m && w1 != w2 :: m[w1] != m[w2]
    ensures |m.Values| == |m|
    decreases |m|
  {
    if m != map[] {
      var w :| w in m;
      var m' := m - {w};
      InjectiveMapSize(m');
      assert m'.Values == m.Values - {m[w]} by {
        forall x | x in m.Values - {m[w]} ensures x in m'.Values {
          var u :| u in m && m[u] == x;
          assert u in m';
        }
      }
      assert m'.Keys == m.Keys - {w};
    }
  }
}
