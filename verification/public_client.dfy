/** The reduced runtime (`public/wsx.js`): four document listeners that look
    at the event target only, `handleTrigger` without `data-*` collection,
    and a `handleMessage` that applies one update with no out-of-band
    entries. The parsers, the swap and the scrolling are the shared ones in
    `TimeSpec`, `SwapSpec` and `Patch`; the timer steps are `ClientCore`'s. */
module PublicClient {
  import opened Wrappers
  import opened Text
  import opened Dom
  import opened Wire
  import opened ClientCore
  import RequestData
  import LandingClient

  /** The event type a document listener passes to `handleTrigger` for an
      event, or `None` when no listener acts. Only the event target itself
      is inspected: there is no walk to its ancestors. */
  function Listener(dom: Dom, ev: Event): (t: Option<string>)
    requires ev.target in dom.nodes
    ensures t.Some? ==> HasAttr(dom, ev.target, "wx-send")
    ensures t.Some? ==> t.value == ev.name
    ensures t.Some? ==> ev.name in {"click", "submit", "input", "keyup"}
  {
    var n := ev.target;
    if !HasAttr(dom, n, "wx-send") then None
    else if ev.name == "click" || ev.name == "submit" then Some(ev.name)
    else if !HasAttr(dom, n, "wx-trigger") then None
    else
      var trigger := dom.nodes[n].attrs["wx-trigger"];
      if ev.name == "input" && (Contains(trigger, "input") || Contains(trigger, "change")) then Some("input")
      else if ev.name == "keyup" && Contains(trigger, "keyup") then Some("keyup")
      else None
  }

  /** A dispatched event reaching the document: the listener for its type,
      if any acts, calls `handleTrigger` on the event target. */
  function Route(host: Host, c: Client, ev: Event): (r: Client)
    requires Inv(c)
    ensures Inv(r)
    ensures r.dom == c.dom && r.timers == c.timers && r.scrolls == c.scrolls
    ensures |r.sent| <= |c.sent| + 1
  {
    if ev.target !in c.dom.nodes then c
    else
      match Listener(c.dom, ev)
      case None => c
      case Some(eventType) => HandleTrigger(Reduced, host, c, ev.target, eventType)
  }

  /** Clicks and submissions act on the event target alone: a target
      without `wx-send` sends nothing, whatever its ancestors carry. */
  lemma NoAncestorWalk(host: Host, c: Client, ev: Event)
    requires Inv(c) && ev.target in c.dom.nodes
    requires !HasAttr(c.dom, ev.target, "wx-send")
    ensures Route(host, c, ev) == c
  {
  }

  /** Clicks and submissions on an element with `wx-send` send one request
      when connected, whatever its `wx-trigger` says. */
  lemma ClickAndSubmitSend(host: Host, c: Client, ev: Event)
    requires Inv(c) && ev.target in c.dom.nodes && c.connected
    requires ev.name == "click" || ev.name == "submit"
    requires HasAttr(c.dom, ev.target, "wx-send")
    ensures var r := Route(host, c, ev);
      && |r.sent| == |c.sent| + 1
      && r.sent[|c.sent|].trigger == OrElse(GetAttr(c.dom, ev.target, "wx-trigger"), ev.name)
  {
  }

  /** Input events fire exactly when `wx-trigger` is present and mentions
      `input` or `change` anywhere in it; the request's trigger field is the
      attribute itself. */
  lemma InputRouting(host: Host, c: Client, ev: Event)
    requires Inv(c) && ev.target in c.dom.nodes && c.connected
    requires ev.name == "input"
    ensures var r := Route(host, c, ev);
      |r.sent| == |c.sent| + 1 <==>
        && HasAttr(c.dom, ev.target, "wx-send") && HasAttr(c.dom, ev.target, "wx-trigger")
        && (Contains(c.dom.nodes[ev.target].attrs["wx-trigger"], "input")
            || Contains(c.dom.nodes[ev.target].attrs["wx-trigger"], "change"))
  {
  }

  /** Keyup events fire exactly when `wx-trigger` is present and mentions
      `keyup`. */
  lemma KeyupRouting(host: Host, c: Client, ev: Event)
    requires Inv(c) && ev.target in c.dom.nodes && c.connected
    requires ev.name == "keyup"
    ensures var r := Route(host, c, ev);
      |r.sent| == |c.sent| + 1 <==>
        && HasAttr(c.dom, ev.target, "wx-send") && HasAttr(c.dom, ev.target, "wx-trigger")
        && Contains(c.dom.nodes[ev.target].attrs["wx-trigger"], "keyup")
  {
  }

  /** No listener exists for any other event type, `change` included. */
  lemma OtherEventsIgnored(host: Host, c: Client, ev: Event)
    requires Inv(c)
    requires ev.name !in {"click", "submit", "input", "keyup"}
    ensures Route(host, c, ev) == c
  {
  }

  /** The reduced runtime never collects `data-*` attributes: the payload is
      the element's own data overridden by `wx-data` only. */
  lemma NoDataAttributes(host: Host, c: Client, ev: Event)
    requires Inv(c) && ev.target in c.dom.nodes && c.connected
    requires Listener(c.dom, ev).Some?
    ensures var r := Route(host, c, ev);
      r.sent[|c.sent|].data == RequestData.Build(false, c.dom.nodes[ev.target], host.parseJson)
  {
  }

  /** `handleMessage(message)`: a missing target returns at once, so the
      pending entry stays; a found one gets the swap armed (never as an
      out-of-band update) and the pending entry deleted. */
  function HandleMessage(host: Host, c: Client, msg: Response): (r: Client)
    requires Inv(c)
    ensures Inv(r)
    ensures Find(host, c.dom, msg.target).None? ==> r == c
    ensures Find(host, c.dom, msg.target).Some? ==>
      var spec := Directive(msg.swap);
      && r.pending == c.pending - {msg.id}
      && r.nextTimer == c.nextTimer + 1
      && r.timers == c.timers[c.nextTimer := Timer(spec.swap, Apply(Find(host, c.dom, msg.target).value, msg.html, spec, false))]
    ensures r == c.(pending := r.pending, timers := r.timers, nextTimer := r.nextTimer)
  {
    match Find(host, c.dom, msg.target)
    case None => c
    case Some(_) =>
      var c1 := ProcessSwapUpdate(host, c, msg.target, msg.html, Directive(msg.swap), false);
      DropPendingKeepsInv(c1, msg.id);
      c1.(pending := c1.pending - {msg.id})
  }

  /** The two runtimes disagree on a response whose target is missing: the
      reduced one keeps the pending entry, the full one drops it. */
  lemma MissingTargetKeepsPending(host: Host, c: Client, msg: Response)
    requires Inv(c) && msg.id in c.pending
    requires Find(host, c.dom, msg.target).None?
    ensures msg.id in HandleMessage(host, c, msg).pending
    ensures msg.id !in LandingClient.HandleMessage(host, c, msg).pending
  {
  }
}
