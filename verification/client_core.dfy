/** State and steps shared by both browser runtimes: the client record
    (connection flag, request counter, pending requests, timers), the
    `handleTrigger` step that sends a request, the first half of applying an
    update (find the target, parse the directive, arm the swap timer), and
    what each kind of timer does when it fires.

    Time is a sequence of explicit steps: `setTimeout` adds a timer to a map
    under a fresh handle, `clearTimeout` removes it, and `FireTimer(h)` is
    the step in which the browser runs timer `h`. */
module ClientCore {
  import opened Wrappers
  import opened Text
  import opened Dom
  import opened Wire
  import SwapSpec
  import Patch
  import RequestData

  /** The two copies of the runtime: the full one (landing page) and the
      reduced one (public). */
  datatype Variant = Full | Reduced

  /** Browser services the runtime calls but this model does not define:
      `document.querySelector`, `element.matches`, `JSON.parse` of `wx-data`
      (`None` when it throws), and the random suffix of a generated element
      id. */
  datatype Host = Host(query: (Dom, string) -> Option<NodeId>,
                       matches: (Dom, NodeId, string) -> bool,
                       parseJson: string -> Option<Payload>,
                       randomId: NodeId -> string)

  /** `document.querySelector(selector)`, restricted to known elements. */
  function Find(host: Host, dom: Dom, selector: string): (r: Option<NodeId>)
    ensures r.Some? ==> r.value in dom.nodes
  {
    var r := host.query(dom, selector);
    if r.Some? && r.value in dom.nodes then r else None
  }

  /** A DOM event as the runtime reads it. */
  datatype Event = Event(name: string, target: NodeId, key: string,
                         ctrlKey: bool, shiftKey: bool, altKey: bool, metaKey: bool)

  /** What a timer runs when it fires. */
  datatype Job =
    | Fire(node: NodeId, event: string)                    // a delayed `executeRequest`
    | ThrottleExpire(key: string)                          // end of a throttle window
    | DebounceFire(key: string, node: NodeId, event: string) // a queued request
    | Apply(node: NodeId, html: string, spec: SwapSpec.Spec, oob: bool) // the swap
    | Settle(node: NodeId, spec: SwapSpec.Spec, oob: bool)  // after-swap and scrolling

  datatype Timer = Timer(ms: real, job: Job)

  /** An entry of `pendingRequests`. */
  datatype Pending = Pending(request: Request, element: NodeId)

  datatype Client = Client(dom: Dom, connected: bool, counter: nat,
                           pending: map<string, Pending>,
                           timers: map<nat, Timer>, nextTimer: nat,
                           throttle: map<string, nat>, debounce: map<string, nat>,
                           sent: seq<Request>, scrolls: seq<Patch.Scroll>)

  /** A fresh page: nothing sent, nothing pending, no timers. */
  function Initial(dom: Dom, connected: bool): (c: Client)
    requires WellFormed(dom)
    ensures Inv(c)
  {
    Client(dom, connected, 0, map[], map[], 0, map[], map[], [], [])
  }

  /** `` `req_${n}` `` */
  function RequestId(n: nat): string {
    "req_" + NatToString(n)
  }

  /** A timer's job refers to a known element and, for the two halves of
      a swap, carries a parsed (hence valid) directive. */
  predicate JobOk(job: Job, dom: Dom) {
    && (!job.ThrottleExpire? ==> job.node in dom.nodes)
    && ((job.Apply? || job.Settle?) ==> SwapSpec.Valid(job.spec))
  }

  /** Every throttle key has its expiry timer armed, and every expiry timer
      belongs to the key it will clear. */
  predicate ThrottleInv(c: Client) {
    && (forall k | k in c.throttle ::
          c.throttle[k] in c.timers && c.timers[c.throttle[k]].job == ThrottleExpire(k))
    && (forall h | h in c.timers && c.timers[h].job.ThrottleExpire? ::
          c.timers[h].job.key in c.throttle && c.throttle[c.timers[h].job.key] == h)
  }

  /** Every debounce key has exactly one queued request armed: the one its
      map entry names. */
  predicate DebounceInv(c: Client) {
    && (forall k | k in c.debounce ::
          c.debounce[k] in c.timers && c.timers[c.debounce[k]].job.DebounceFire?
          && c.timers[c.debounce[k]].job.key == k)
    && (forall h | h in c.timers && c.timers[h].job.DebounceFire? ::
          c.timers[h].job.key in c.debounce && c.debounce[c.timers[h].job.key] == h)
  }

  /** The client invariant: the tree is well formed; the i-th request sent
      carries id `req_i` and the counter is the number sent; every pending
      entry is a request that was sent; handles are below the next handle;
      timers refer to known elements; throttle and debounce maps agree with
      the timers. */
  predicate Inv(c: Client) {
    && WellFormed(c.dom)
    && |c.sent| == c.counter
    && (forall i | 0 <= i < |c.sent| :: c.sent[i].id == RequestId(i + 1))
    && (forall id | id in c.pending ::
          c.pending[id].request.id == id && c.pending[id].request in c.sent
          && c.pending[id].element in c.dom.nodes)
    && (forall h | h in c.timers :: h < c.nextTimer && JobOk(c.timers[h].job, c.dom))
    && ThrottleInv(c) && DebounceInv(c)
  }

  /** Under the invariant no two requests ever share an id. */
  lemma RequestIdsDistinct(c: Client, i: int, j: int)
    requires Inv(c) && 0 <= i < j < |c.sent|
    ensures c.sent[i].id != c.sent[j].id
  {
    PrefixedNumberInjective("req_", i + 1, j + 1);
  }

  /** `setTimeout(job, ms)`: the new timer gets the next handle. */
  function SetTimeout(c: Client, ms: real, job: Job): (r: Client)
    requires !job.ThrottleExpire? && !job.DebounceFire?
    requires JobOk(job, c.dom)
    ensures r.timers == c.timers[c.nextTimer := Timer(ms, job)]
    ensures r.nextTimer == c.nextTimer + 1
    ensures r == c.(timers := r.timers, nextTimer := r.nextTimer)
    ensures Inv(c) ==> Inv(r) && c.nextTimer !in c.timers
  {
    c.(timers := c.timers[c.nextTimer := Timer(ms, job)], nextTimer := c.nextTimer + 1)
  }

  /** `handleTrigger(element, eventType)`: when connected, send one request
      with the next id, record it as pending, and change nothing else; when
      not connected, do nothing. Missing attributes default to handler `""`,
      target `"body"`, swap `"innerHTML"` and the event name as trigger. */
  function HandleTrigger(variant: Variant, host: Host, c: Client, n: NodeId, eventType: string): (r: Client)
    requires n in c.dom.nodes
    ensures !c.connected ==> r == c
    ensures c.connected ==>
      && r.counter == c.counter + 1
      && |r.sent| == |c.sent| + 1 && r.sent[..|c.sent|] == c.sent
      && var req := r.sent[|c.sent|];
         && req.id == RequestId(c.counter + 1)
         && req.handler == OrElse(GetAttr(c.dom, n, "wx-send"), "")
         && req.target == OrElse(GetAttr(c.dom, n, "wx-target"), "body")
         && req.swap == Some(OrElse(GetAttr(c.dom, n, "wx-swap"), "innerHTML"))
         && req.trigger == OrElse(GetAttr(c.dom, n, "wx-trigger"), eventType)
         && req.data == RequestData.Build(variant == Full, c.dom.nodes[n], host.parseJson)
         && r.pending == c.pending[req.id := Pending(req, n)]
    ensures r.dom == c.dom && r.timers == c.timers && r.nextTimer == c.nextTimer
    ensures r.throttle == c.throttle && r.debounce == c.debounce && r.scrolls == c.scrolls
    ensures r.connected == c.connected
    ensures Inv(c) ==> Inv(r)
  {
    if !c.connected then c
    else
      var handler := OrElse(GetAttr(c.dom, n, "wx-send"), "");
      var target := OrElse(GetAttr(c.dom, n, "wx-target"), "body");
      var swap := OrElse(GetAttr(c.dom, n, "wx-swap"), "innerHTML");
      var trigger := OrElse(GetAttr(c.dom, n, "wx-trigger"), eventType);
      var data := RequestData.Build(variant == Full, c.dom.nodes[n], host.parseJson);
      var req := Request(RequestId(c.counter + 1), handler, target, trigger, data, Some(swap));
      SendKeepsInv(c, req, n);
      Send(c, req, n)
  }

  /** `ws.send` of a request built from element `n`: recorded as sent and
      as pending under its id. */
  function Send(c: Client, req: Request, n: NodeId): Client {
    c.(counter := c.counter + 1, pending := c.pending[req.id := Pending(req, n)], sent := c.sent + [req])
  }

  /** Sending the request numbered next keeps the invariant. */
  lemma SendKeepsInv(c: Client, req: Request, n: NodeId)
    requires n in c.dom.nodes && req.id == RequestId(c.counter + 1)
    ensures Inv(c) ==> Inv(Send(c, req, n))
  {
    if Inv(c) {
      var r := Send(c, req, n);
      assert forall i | 0 <= i < |r.sent| :: r.sent[i].id == RequestId(i + 1) by {
        forall i | 0 <= i < |r.sent| ensures r.sent[i].id == RequestId(i + 1) {
          if i < |c.sent| { assert r.sent[i] == c.sent[i]; }
        }
      }
      assert forall id | id in r.pending :: r.pending[id].request in r.sent by {
        forall id | id in r.pending ensures r.pending[id].request in r.sent {
          if id != req.id { assert c.pending[id].request in c.sent; }
          else { assert r.sent[|c.sent|] == req; }
        }
      }
    }
  }

  /** Each request sent carries an id no earlier request carried. */
  lemma HandleTriggerFreshId(variant: Variant, host: Host, c: Client, n: NodeId, eventType: string)
    requires Inv(c) && n in c.dom.nodes && c.connected
    ensures var r := HandleTrigger(variant, host, c, n, eventType);
      forall i | 0 <= i < |c.sent| :: c.sent[i].id != r.sent[|c.sent|].id
  {
    var r := HandleTrigger(variant, host, c, n, eventType);
    forall i | 0 <= i < |c.sent| ensures c.sent[i].id != r.sent[|c.sent|].id {
      RequestIdsDistinct(r, i, |c.sent|);
    }
  }

  /** `swapSpec.settle || 20`: a settle delay of 0 becomes 20 ms. */
  function SettleDelay(spec: SwapSpec.Spec): (ms: real)
    requires spec.settle >= 0.0
    ensures ms > 0.0
    ensures spec.settle > 0.0 ==> ms == spec.settle
    ensures spec.settle == 0.0 ==> ms == 20.0
  {
    if spec.settle == 0.0 then 20.0 else spec.settle
  }

  /** `parseSwapSpec(swapSpec || 'innerHTML')`: the directive an update
      carries, parsed. */
  function Directive(swap: Option<string>): (spec: SwapSpec.Spec)
    ensures SwapSpec.Valid(spec)
    ensures swap.None? || swap.value == [] ==> spec == SwapSpec.ParseSwapSpec("innerHTML")
  {
    SwapSpec.ParseSwapSpec(OrElse(swap, "innerHTML"))
  }

  /** The first half of `processSwapUpdate` (and of the reduced runtime's
      `handleMessage`): a target that is not found skips the update; a found
      one gets the swap armed after `swapSpec.swap || 0` milliseconds. The
      directive `spec` is parsed by the caller with `Directive`. */
  function ProcessSwapUpdate(host: Host, c: Client, target: string, html: string,
                             spec: SwapSpec.Spec, oob: bool): (r: Client)
    requires SwapSpec.Valid(spec)
    ensures Find(host, c.dom, target).None? ==> r == c
    ensures Find(host, c.dom, target).Some? ==>
      && r.nextTimer == c.nextTimer + 1
      && r.timers == c.timers[c.nextTimer := Timer(spec.swap, Apply(Find(host, c.dom, target).value, html, spec, oob))]
    ensures r == c.(timers := r.timers, nextTimer := r.nextTimer)
    ensures Inv(c) ==> Inv(r)
  {
    match Find(host, c.dom, target)
    case None => c
    case Some(n) => SetTimeout(c, spec.swap, Apply(n, html, spec, oob))
  }

  /** Consuming a timer that is neither a throttle expiry nor a queued
      request keeps the invariant. */
  lemma ConsumePlainTimer(c: Client, h: nat)
    requires Inv(c) && h in c.timers
    requires !c.timers[h].job.ThrottleExpire? && !c.timers[h].job.DebounceFire?
    ensures Inv(c.(timers := c.timers - {h}))
  {
  }

  /** Consuming a throttle expiry together with its key keeps the invariant. */
  lemma ConsumeThrottleTimer(c: Client, h: nat)
    requires Inv(c) && h in c.timers && c.timers[h].job.ThrottleExpire?
    ensures Inv(c.(timers := c.timers - {h}, throttle := c.throttle - {c.timers[h].job.key}))
  {
  }

  /** Consuming a queued request together with its key keeps the invariant. */
  lemma ConsumeDebounceTimer(c: Client, h: nat)
    requires Inv(c) && h in c.timers && c.timers[h].job.DebounceFire?
    ensures Inv(c.(timers := c.timers - {h}, debounce := c.debounce - {c.timers[h].job.key}))
  {
  }

  /** Forgetting a pending request keeps the invariant. */
  lemma DropPendingKeepsInv(c: Client, id: string)
    requires Inv(c)
    ensures Inv(c.(pending := c.pending - {id}))
  {
  }

  /** Attribute writes keep the invariant: the tree keeps its shape. */
  lemma SameShapeKeepsInv(c: Client, d: Dom)
    requires Inv(c) && SameShape(c.dom, d)
    ensures Inv(c.(dom := d))
  {
    SameShapeKeepsWellFormed(c.dom, d);
  }

  /** A swap that did not throw keeps the invariant: the element set is the
      same and the tree stays well formed. */
  lemma SwapKeepsInv(c: Client, d: Dom)
    requires Inv(c) && WellFormed(d) && d.nodes.Keys == c.dom.nodes.Keys
    ensures Inv(c.(dom := d))
  {
  }

  /** A request job (delayed or queued) fires: the timer and, for a queued
      request, its debounce key are consumed, and `handleTrigger` runs on
      the job's element with the tree as it is now. */
  function RunRequestJob(variant: Variant, host: Host, c: Client, h: nat): (r: Client)
    requires Inv(c) && h in c.timers && (c.timers[h].job.Fire? || c.timers[h].job.DebounceFire?)
    ensures Inv(r) && h !in r.timers && r.connected == c.connected && r.scrolls == c.scrolls
    ensures var job := c.timers[h].job;
      && r.timers == c.timers - {h} && r.throttle == c.throttle && r.dom == c.dom
      && r.debounce == (if job.DebounceFire? then c.debounce - {job.key} else c.debounce)
      && (!c.connected ==> r.sent == c.sent)
      && (c.connected ==>
            && |r.sent| == |c.sent| + 1 && r.sent[..|c.sent|] == c.sent
            && r.sent[|c.sent|].id == RequestId(c.counter + 1)
            && r.sent[|c.sent|].handler == OrElse(GetAttr(c.dom, job.node, "wx-send"), "")
            && r.sent[|c.sent|].trigger == OrElse(GetAttr(c.dom, job.node, "wx-trigger"), job.event))
  {
    var job := c.timers[h].job;
    var c1 := c.(timers := c.timers - {h});
    if job.Fire? then
      ConsumePlainTimer(c, h);
      HandleTrigger(variant, host, c1, job.node, job.event)
    else
      ConsumeDebounceTimer(c, h);
      HandleTrigger(variant, host, c1.(debounce := c1.debounce - {job.key}), job.node, job.event)
  }

  /** A swap job fires: `performSwap`, then, unless it threw, the settle
      step is armed after `settle || 20` ms. */
  function RunApply(c: Client, h: nat): (r: Client)
    requires Inv(c) && h in c.timers && c.timers[h].job.Apply?
    ensures Inv(r) && h !in r.timers && r.connected == c.connected && r.scrolls == c.scrolls
    ensures var job := c.timers[h].job;
      var out := Patch.PerformSwap(c.dom, job.node, job.html, job.spec);
      && (out.Threw? ==> r == c.(timers := c.timers - {h}))
      && (out.Swapped? ==>
            r.dom == out.dom && r.nextTimer == c.nextTimer + 1
            && r.timers == (c.timers - {h})[c.nextTimer := Timer(SettleDelay(job.spec), Settle(job.node, job.spec, job.oob))])
  {
    var job := c.timers[h].job;
    var c1 := c.(timers := c.timers - {h});
    ConsumePlainTimer(c, h);
    var out := Patch.PerformSwap(c1.dom, job.node, job.html, job.spec);
    if out.Threw? then c1
    else
      SwapKeepsInv(c1, out.dom);
      var c2 := c1.(dom := out.dom);
      assert Inv(c2);
      SetTimeout(c2, SettleDelay(job.spec), Settle(job.node, job.spec, job.oob))
  }

  /** A settle job fires: scrolling follows, but only for a primary update. */
  function RunSettle(c: Client, h: nat): (r: Client)
    requires Inv(c) && h in c.timers && c.timers[h].job.Settle?
    ensures Inv(r) && h !in r.timers && r.connected == c.connected
    ensures var job := c.timers[h].job;
      r.scrolls == c.scrolls + if job.oob then [] else
                                 match Patch.ShowScroll(job.node, job.spec)
                                 case None => []
                                 case Some(s) => [s]
  {
    var job := c.timers[h].job;
    var c1 := c.(timers := c.timers - {h});
    ConsumePlainTimer(c, h);
    if job.oob then
      assert c1.scrolls == c.scrolls + [];
      c1
    else
      match Patch.ShowScroll(job.node, job.spec)
      case None =>
        assert c1.scrolls == c.scrolls + [];
        c1
      case Some(s) => c1.(scrolls := c1.scrolls + [s])
  }

  /** The browser runs timer `h`. An unknown handle (already fired or
      cleared) does nothing; otherwise the timer is consumed and its job
      runs: a delayed request sends it now; a throttle expiry clears its
      key; a queued request clears its key and sends; a swap applies and
      arms the settle step; a settle step scrolls for a primary update. */
  function FireTimer(variant: Variant, host: Host, c: Client, h: nat): (r: Client)
    requires Inv(c)
    ensures Inv(r)
    ensures h !in c.timers ==> r == c
    ensures h !in r.timers
    ensures r.connected == c.connected
    ensures h in c.timers && !c.timers[h].job.Settle? ==> r.scrolls == c.scrolls
    ensures h in c.timers && c.timers[h].job.Settle? && c.timers[h].job.oob ==> r.scrolls == c.scrolls
    // a throttle expiry reopens its key's window and sends nothing
    ensures h in c.timers && c.timers[h].job.ThrottleExpire? ==>
      && r.throttle == c.throttle - {c.timers[h].job.key} && c.timers[h].job.key !in r.throttle
      && r.sent == c.sent && r.timers == c.timers - {h}
    // a queued request frees its key
    ensures h in c.timers && c.timers[h].job.DebounceFire? ==>
      r.debounce == c.debounce - {c.timers[h].job.key} && c.timers[h].job.key !in r.debounce
    // a delayed or queued request is sent now, when connected
    ensures h in c.timers && (c.timers[h].job.Fire? || c.timers[h].job.DebounceFire?) ==>
      && r.timers == c.timers - {h}
      && (c.connected ==> |r.sent| == |c.sent| + 1 && r.sent[|c.sent|].id == RequestId(c.counter + 1))
      && (!c.connected ==> r.sent == c.sent)
    // the swap and settle steps send nothing
    ensures h in c.timers && (c.timers[h].job.Apply? || c.timers[h].job.Settle?) ==> r.sent == c.sent
  {
    if h !in c.timers then c
    else
      match c.timers[h].job
      case ThrottleExpire(k) =>
        ConsumeThrottleTimer(c, h);
        c.(timers := c.timers - {h}, throttle := c.throttle - {k})
      case Fire(_, _) => RunRequestJob(variant, host, c, h)
      case DebounceFire(_, _, _) => RunRequestJob(variant, host, c, h)
      case Apply(_, _, _, _) => RunApply(c, h)
      case Settle(_, _, _) => RunSettle(c, h)
  }
}
