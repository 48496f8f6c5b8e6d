/** The full browser runtime (the copy served with the landing page): the
    trigger gate `shouldTrigger`, the modifier precedence of
    `processTrigger`, the ancestor walk of `handleEvent`, and `handleMessage`
    with its out-of-band updates. */
module LandingClient {
  import opened Wrappers
  import opened Text
  import opened Dom
  import opened Wire
  import SwapSpec
  import TriggerSpec
  import RequestData
  import opened ClientCore

  // ----- the bracketed condition -----

  /** The four condition words that name a modifier-key flag of the event. */
  predicate IsFlagName(w: string) {
    w == "ctrlKey" || w == "shiftKey" || w == "altKey" || w == "metaKey"
  }

  /** The flag tests: a condition mentioning a flag name anywhere needs that
      flag set on the event. */
  predicate FlagsHold(cond: string, ev: Event) {
    && (Contains(cond, "ctrlKey") ==> ev.ctrlKey)
    && (Contains(cond, "shiftKey") ==> ev.shiftKey)
    && (Contains(cond, "altKey") ==> ev.altKey)
    && (Contains(cond, "metaKey") ==> ev.metaKey)
  }

  /** The condition test as the source writes it: after the flag tests, any
      condition that is a single word (`/^(\w+)$/`) must also equal
      `event.key`, which includes the flag names themselves. */
  predicate ConditionHoldsAsWritten(cond: string, ev: Event) {
    FlagsHold(cond, ev) && (TriggerSpec.IsEventName(cond) ==> ev.key == cond)
  }

  /** The condition test as evidently intended: a single-word condition that
      is a flag name is satisfied by the flag alone; any other single word
      names the key. `ShouldTriggerIntended` is the gate that uses it. */
  predicate ConditionHolds(cond: string, ev: Event) {
    FlagsHold(cond, ev) && (TriggerSpec.IsEventName(cond) && !IsFlagName(cond) ==> ev.key == cond)
  }

  /** The documented `keyup[ctrlKey]` clause never fires as written: a real
      key event with Control held has key `"Control"` (or the key pressed),
      never the text `"ctrlKey"`. The intended test accepts it. */
  lemma CtrlKeyConditionNeverFires()
    ensures var ev := Event("keyup", 0, "Control", true, false, false, false);
      !ConditionHoldsAsWritten("ctrlKey", ev) && ConditionHolds("ctrlKey", ev)
  {
    var s := "ctrlKey";
    assert StartsWith(s, "ctrlKey");
    ShorterNotContains(s, "shiftKey");
    ShorterNotContains(s[1..], "metaKey");
    assert s[..7] != "metaKey";
    ShorterNotContains(s[1..][1..], "altKey");
    assert s[0] == 'c' && s[1..][0] == 't';
  }

  /** Under the intended test, `[ctrlKey]` holds exactly when Control is
      held, whatever key the event reports. */
  lemma CtrlKeyConditionIsTheFlag(ev: Event)
    ensures ConditionHolds("ctrlKey", ev) <==> ev.ctrlKey
  {
    var s := "ctrlKey";
    assert StartsWith(s, "ctrlKey");
    ShorterNotContains(s, "shiftKey");
    ShorterNotContains(s[1..], "metaKey");
    assert s[..7] != "metaKey";
    ShorterNotContains(s[1..][1..], "altKey");
    assert s[0] == 'c' && s[1..][0] == 't';
  }

  /** As written, a flag-name condition can only pass on an event whose key
      is literally that name; the intended test differs from it exactly on
      flag names. */
  lemma AsWrittenNeedsLiteralKey(cond: string, ev: Event)
    ensures IsFlagName(cond) && ConditionHoldsAsWritten(cond, ev) ==> ev.key == cond
    ensures !IsFlagName(cond) ==> (ConditionHoldsAsWritten(cond, ev) <==> ConditionHolds(cond, ev))
  {
    if IsFlagName(cond) {
      assert TriggerSpec.IsEventName(cond);
    }
  }

  /** `shouldTrigger(trigger, event, eventType, element)`, with the condition
      test as the source writes it. `None` rejects; `Some(dom')` accepts,
      where `dom'` differs from `dom` at most in the element's recorded last
      value (the `changed` memory). The gates, in order: the event name, the
      bracketed condition, `from` (the element it selects must contain the
      event target), `target` (the event target must match the selector),
      and `changed` on a form control. */
  function ShouldTrigger(host: Host, dom: Dom, clause: TriggerSpec.Clause, ev: Event, n: NodeId): (r: Option<Dom>)
    requires n in dom.nodes && ev.target in dom.nodes
    ensures r.Some? <==>
      && clause.event == ev.name
      && (clause.condition.Some? && clause.condition.value != [] ==>
            ConditionHoldsAsWritten(clause.condition.value, ev))
      && (clause.modifiers.from.Some? && clause.modifiers.from.value != [] ==>
            && Find(host, dom, clause.modifiers.from.value).Some?
            && ContainsNode(dom, Find(host, dom, clause.modifiers.from.value).value, ev.target))
      && (clause.modifiers.target.Some? && clause.modifiers.target.value != [] ==>
            host.matches(dom, ev.target, clause.modifiers.target.value))
      && !(clause.modifiers.changed && dom.nodes[n].tag in {Input, TextArea, Select}
           && GetAttr(dom, n, "data-wsx-last-value") == Some(dom.nodes[n].value))
    ensures clause.event != ev.name ==> r.None?
    ensures clause.condition.Some? && !ConditionHoldsAsWritten(clause.condition.value, ev) ==> r.None?
    ensures r.Some? ==> SameShape(dom, r.value)
    ensures r.Some? ==> forall m | m in dom.nodes && m != n :: r.value.nodes[m] == dom.nodes[m]
    ensures r.Some? ==> r.value.nodes[n].attrs.Keys - {"data-wsx-last-value"} == dom.nodes[n].attrs.Keys - {"data-wsx-last-value"}
    // `changed` on a form control: a repeat of the recorded value rejects, a
    // new value is recorded.
    ensures clause.modifiers.changed && dom.nodes[n].tag in {Input, TextArea, Select} ==>
      && (GetAttr(dom, n, "data-wsx-last-value") == Some(dom.nodes[n].value) ==> r.None?)
      && (r.Some? ==> GetAttr(r.value, n, "data-wsx-last-value") == Some(dom.nodes[n].value))
    ensures !(clause.modifiers.changed && dom.nodes[n].tag in {Input, TextArea, Select}) && r.Some? ==> r.value == dom
  {
    var m := clause.modifiers;
    if clause.event != ev.name then None
    else if clause.condition.Some? && Truthy(clause.condition.value) && !ConditionHoldsAsWritten(clause.condition.value, ev) then None
    else if m.from.Some? && Truthy(m.from.value)
         && (var f := Find(host, dom, m.from.value); f.None? || !ContainsNode(dom, f.value, ev.target)) then None
    else if m.target.Some? && Truthy(m.target.value) && !host.matches(dom, ev.target, m.target.value) then None
    else if m.changed && dom.nodes[n].tag in {Input, TextArea, Select} then
      var current := dom.nodes[n].value;
      if GetAttr(dom, n, "data-wsx-last-value") == Some(current) then None
      else Some(SetAttr(dom, n, "data-wsx-last-value", current))
    else Some(dom)
  }

  /** The gate as evidently intended: the condition is tested with
      `ConditionHolds`, and every later gate is the source's. */
  function ShouldTriggerIntended(host: Host, dom: Dom, clause: TriggerSpec.Clause, ev: Event, n: NodeId): (r: Option<Dom>)
    requires n in dom.nodes && ev.target in dom.nodes
    ensures clause.condition.Some? && clause.condition.value != [] && !ConditionHolds(clause.condition.value, ev) ==> r.None?
    ensures r.Some? ==> ShouldTrigger(host, dom, clause.(condition := None), ev, n) == r
    ensures !(clause.condition.Some? && clause.condition.value != [] && !ConditionHolds(clause.condition.value, ev)) ==>
      r == ShouldTrigger(host, dom, clause.(condition := None), ev, n)
  {
    if clause.condition.Some? && Truthy(clause.condition.value) && !ConditionHolds(clause.condition.value, ev) then None
    else ShouldTrigger(host, dom, clause.(condition := None), ev, n)
  }

  /** The two gates differ only on flag-name conditions: on every other
      clause they accept and reject alike, with the same writes. */
  lemma IntendedGateAgreesOffFlags(host: Host, dom: Dom, clause: TriggerSpec.Clause, ev: Event, n: NodeId)
    requires n in dom.nodes && ev.target in dom.nodes
    requires clause.condition.Some? ==> !IsFlagName(clause.condition.value)
    ensures ShouldTriggerIntended(host, dom, clause, ev, n) == ShouldTrigger(host, dom, clause, ev, n)
  {
    if clause.condition.Some? {
      AsWrittenNeedsLiteralKey(clause.condition.value, ev);
    }
  }

  /** At the gate: a bare `keyup[ctrlKey]` clause is rejected as written
      when Control is held, and accepted by the intended gate. */
  lemma CtrlKeyClauseGate(host: Host, dom: Dom, n: NodeId, target: NodeId)
    requires n in dom.nodes && target in dom.nodes
    ensures var clause := TriggerSpec.Clause("keyup", Some("ctrlKey"), TriggerSpec.NoModifiers);
      var ev := Event("keyup", target, "Control", true, false, false, false);
      && ShouldTrigger(host, dom, clause, ev, n).None?
      && ShouldTriggerIntended(host, dom, clause, ev, n) == Some(dom)
  {
    CtrlKeyConditionNeverFires();
  }

  /** A `changed` clause on a form control fires exactly when the value
      differs from the one recorded at its last firing. */
  lemma ChangedFiresOnNewValue(host: Host, dom: Dom, clause: TriggerSpec.Clause, ev: Event, n: NodeId)
    requires n in dom.nodes && ev.target in dom.nodes
    requires clause.event == ev.name && clause.condition.None?
    requires clause.modifiers.from.None? && clause.modifiers.target.None?
    requires clause.modifiers.changed && dom.nodes[n].tag == Input
    ensures ShouldTrigger(host, dom, clause, ev, n).Some? <==>
              GetAttr(dom, n, "data-wsx-last-value") != Some(dom.nodes[n].value)
    ensures var r := ShouldTrigger(host, dom, clause, ev, n);
      r.Some? ==> ShouldTrigger(host, r.value, clause, ev, n).None?
  {
  }

  // ----- processTrigger -----

  /** `element.id || 'wsx_' + random`: the id the element has or gets. */
  function ElementId(host: Host, dom: Dom, n: NodeId): (id: string)
    requires n in dom.nodes
    ensures Truthy(id)
  {
    OrElse(GetAttr(dom, n, "id"), "wsx_" + host.randomId(n))
  }

  /** `` `${elementId}_${trigger.event}` ``: the throttle and debounce key. */
  function TimerKey(id: string, event: string): string {
    id + "_" + event
  }

  /** The branch `processTrigger` takes. */
  datatype Branch = OnceSkipped | Delayed | ThrottleDropped | ThrottleFired | Queued | Immediate

  /** `element.dataset.wsxTriggered` is set: a `once` clause already fired
      on this element. */
  predicate OnceSpent(dom: Dom, n: NodeId)
    requires n in dom.nodes
  {
    Truthy(GetAttr(dom, n, "data-wsx-triggered").GetOr(""))
  }

  /** Which branch runs, in the source's order: an already-fired `once`
      stops everything; then `delay`, `throttle`, `queue`, and otherwise an
      immediate request. `dom` is the tree before the `once` flag is
      written: the flag is tested first and set afterwards. */
  function BranchOf(c: Client, dom: Dom, n: NodeId, clause: TriggerSpec.Clause, key: string): (b: Branch)
    requires n in dom.nodes
    ensures b == OnceSkipped <==> clause.modifiers.once && OnceSpent(dom, n)
    ensures b == Delayed ==> clause.modifiers.delay != 0.0
    ensures b in {ThrottleDropped, ThrottleFired} ==> clause.modifiers.delay == 0.0 && clause.modifiers.throttle != 0.0
    ensures b == ThrottleDropped <==> b in {ThrottleDropped, ThrottleFired} && key in c.throttle
    ensures b == Queued ==> clause.modifiers.delay == 0.0 && clause.modifiers.throttle == 0.0
                            && clause.modifiers.queue.Some? && Truthy(clause.modifiers.queue.value)
    ensures b == Immediate ==> clause.modifiers.delay == 0.0 && clause.modifiers.throttle == 0.0
                               && !(clause.modifiers.queue.Some? && Truthy(clause.modifiers.queue.value))
  {
    var m := clause.modifiers;
    if m.once && OnceSpent(dom, n) then OnceSkipped
    else if m.delay != 0.0 then Delayed
    else if m.throttle != 0.0 then (if key in c.throttle then ThrottleDropped else ThrottleFired)
    else if m.queue.Some? && Truthy(m.queue.value) then Queued
    else Immediate
  }

  /** The tree after `processTrigger`'s two attribute writes: the generated
      id when the element had none, and the `once` flag when the clause has
      `once` and it was not yet set. */
  function Marked(host: Host, dom: Dom, n: NodeId, clause: TriggerSpec.Clause): (d: Dom)
    requires n in dom.nodes
    ensures SameShape(dom, d)
    ensures forall m | m in dom.nodes && m != n :: d.nodes[m] == dom.nodes[m]
    ensures GetAttr(d, n, "id") == Some(ElementId(host, dom, n))
    ensures clause.modifiers.once ==> GetAttr(d, n, "data-wsx-triggered").GetOr("") != ""
  {
    var id := ElementId(host, dom, n);
    var d1 := if Truthy(GetAttr(dom, n, "id").GetOr("")) then dom else SetAttr(dom, n, "id", id);
    if clause.modifiers.once && !Truthy(GetAttr(d1, n, "data-wsx-triggered").GetOr(""))
    then SetAttr(d1, n, "data-wsx-triggered", "true")
    else d1
  }

  lemma MarkedKeepsInv(host: Host, c: Client, n: NodeId, clause: TriggerSpec.Clause)
    requires Inv(c) && n in c.dom.nodes
    ensures Inv(c.(dom := Marked(host, c.dom, n, clause)))
  {
    SameShapeKeepsWellFormed(c.dom, Marked(host, c.dom, n, clause));
  }

  /** Arm a throttle window for `key`. */
  function ArmThrottle(c: Client, key: string, ms: real): (r: Client)
    requires Inv(c) && key !in c.throttle
    ensures Inv(r)
    ensures r == c.(timers := r.timers, nextTimer := r.nextTimer, throttle := r.throttle)
    ensures r.throttle == c.throttle[key := c.nextTimer] && r.nextTimer == c.nextTimer + 1
    ensures r.timers == c.timers[c.nextTimer := Timer(ms, ThrottleExpire(key))]
  {
    var h := c.nextTimer;
    var r := c.(timers := c.timers[h := Timer(ms, ThrottleExpire(key))],
                nextTimer := h + 1,
                throttle := c.throttle[key := h]);
    assert h !in c.timers;
    assert ThrottleInv(r) by {
      forall k | k in r.throttle
        ensures r.throttle[k] in r.timers && r.timers[r.throttle[k]].job == ThrottleExpire(k)
      {
        if k != key {
          assert c.throttle[k] in c.timers;
        }
      }
      forall t | t in r.timers && r.timers[t].job.ThrottleExpire?
        ensures r.timers[t].job.key in r.throttle && r.throttle[r.timers[t].job.key] == t
      {
        if t != h {
          assert c.timers[t].job.key in c.throttle;
        }
      }
    }
    r
  }

  /** `clearTimeout` of the request queued under `key`, if any. The key is
      dropped with it here; the source overwrites it right after. */
  function CancelQueued(c: Client, key: string): (r: Client)
    requires Inv(c)
    ensures Inv(r) && key !in r.debounce
    ensures r == c.(timers := r.timers, debounce := r.debounce)
    ensures r.debounce == c.debounce - {key}
    ensures r.timers == if key in c.debounce then c.timers - {c.debounce[key]} else c.timers
  {
    if key !in c.debounce then c
    else
      var r := c.(timers := c.timers - {c.debounce[key]}, debounce := c.debounce - {key});
      assert ThrottleInv(r) by {
        forall k | k in r.throttle
          ensures r.throttle[k] in r.timers && r.timers[r.throttle[k]].job == ThrottleExpire(k)
        {
          assert c.throttle[k] in c.timers;
        }
      }
      assert DebounceInv(r) by {
        forall k | k in r.debounce
          ensures r.debounce[k] in r.timers && r.timers[r.debounce[k]].job.DebounceFire?
                  && r.timers[r.debounce[k]].job.key == k
        {
          assert c.timers[c.debounce[k]].job.key == k;
        }
      }
      r
  }

  /** Queue a request under a key that has none: 300 ms out. */
  function ArmQueued(c: Client, key: string, n: NodeId, event: string): (r: Client)
    requires Inv(c) && n in c.dom.nodes && key !in c.debounce
    ensures Inv(r)
    ensures r == c.(timers := r.timers, nextTimer := r.nextTimer, debounce := r.debounce)
    ensures r.debounce == c.debounce[key := c.nextTimer] && r.nextTimer == c.nextTimer + 1
    ensures r.timers == c.timers[c.nextTimer := Timer(300.0, DebounceFire(key, n, event))]
  {
    var h := c.nextTimer;
    var r := c.(timers := c.timers[h := Timer(300.0, DebounceFire(key, n, event))],
                nextTimer := h + 1,
                debounce := c.debounce[key := h]);
    assert h !in c.timers;
    QueuedKeysArmed(c, r, key, h);
    QueuedTimersOwned(c, r, key, h);
    assert ThrottleInv(r) by {
      assert forall k | k in r.throttle :: r.throttle[k] != h;
    }
    r
  }

  /** After arming `h` for `key`, every debounce key still names its timer. */
  lemma QueuedKeysArmed(c: Client, r: Client, key: string, h: nat)
    requires DebounceInv(c) && h !in c.timers && key !in c.debounce
    requires r.debounce == c.debounce[key := h]
    requires h in r.timers && r.timers[h].job.DebounceFire? && r.timers[h].job.key == key
    requires forall t | t in c.timers :: t in r.timers && r.timers[t] == c.timers[t]
    ensures forall k | k in r.debounce ::
      r.debounce[k] in r.timers && r.timers[r.debounce[k]].job.DebounceFire?
      && r.timers[r.debounce[k]].job.key == k
  {
    forall k | k in r.debounce
      ensures r.debounce[k] in r.timers && r.timers[r.debounce[k]].job.DebounceFire?
              && r.timers[r.debounce[k]].job.key == k
    {
      if k != key {
        assert c.debounce[k] in c.timers;
      }
    }
  }

  /** After arming `h` for `key`, every queued timer is the one its key names. */
  lemma QueuedTimersOwned(c: Client, r: Client, key: string, h: nat)
    requires DebounceInv(c) && h !in c.timers && key !in c.debounce
    requires r.debounce == c.debounce[key := h]
    requires h in r.timers && r.timers[h].job.DebounceFire? && r.timers[h].job.key == key
    requires r.timers == c.timers[h := r.timers[h]]
    ensures forall t | t in r.timers && r.timers[t].job.DebounceFire? ::
      r.timers[t].job.key in r.debounce && r.debounce[r.timers[t].job.key] == t
  {
    forall t | t in r.timers && r.timers[t].job.DebounceFire?
      ensures r.timers[t].job.key in r.debounce && r.debounce[r.timers[t].job.key] == t
    {
      if t != h {
        assert c.timers[t].job.key in c.debounce;
      }
    }
  }

  /** Cancel the queued request for `key`, if any, and queue a new one 300 ms
      out. */
  function Requeue(c: Client, key: string, n: NodeId, event: string): (r: Client)
    requires Inv(c) && n in c.dom.nodes
    ensures Inv(r)
  {
    ArmQueued(CancelQueued(c, key), key, n, event)
  }

  /** The branch `b` of `processTrigger` on the marked client `c0`, for a
      clause on `event` with the given delay and throttle times. */
  function RunBranch(host: Host, c0: Client, n: NodeId, event: string, delay: real, throttle: real,
                     key: string, b: Branch): (r: Client)
    requires Inv(c0) && n in c0.dom.nodes
    requires b == ThrottleFired ==> key !in c0.throttle
    requires b == Delayed ==> delay != 0.0
    ensures Inv(r) && r.dom == c0.dom
    ensures r.connected == c0.connected && r.scrolls == c0.scrolls
    ensures b in {OnceSkipped, ThrottleDropped} ==> r == c0
    ensures b == Delayed ==> r.sent == c0.sent && r.timers == c0.timers[c0.nextTimer := Timer(delay, Fire(n, event))]
    ensures b == Queued ==> r.sent == c0.sent
    ensures b in {ThrottleFired, Immediate} ==> r.sent == HandleTrigger(Full, host, c0, n, event).sent
  {
    match b
    case OnceSkipped => c0
    case Delayed => SetTimeout(c0, delay, Fire(n, event))
    case ThrottleDropped => c0
    case ThrottleFired => ArmThrottle(HandleTrigger(Full, host, c0, n, event), key, throttle)
    case Queued => Requeue(c0, key, n, event)
    case Immediate => HandleTrigger(Full, host, c0, n, event)
  }

  /** `processTrigger(element, trigger, event)`. Exactly one branch runs (see
      `BranchOf`); `consume` has no effect on the model, because the walk
      that calls this step does not consult propagation. */
  function ProcessTrigger(host: Host, c: Client, n: NodeId, clause: TriggerSpec.Clause): (r: Client)
    requires Inv(c) && n in c.dom.nodes
    ensures Inv(r)
    ensures r.dom == Marked(host, c.dom, n, clause) && SameShape(c.dom, r.dom)
    ensures r.connected == c.connected && r.scrolls == c.scrolls
    ensures var b := BranchOf(c, c.dom, n, clause, TimerKey(ElementId(host, c.dom, n), clause.event));
      && (b in {OnceSkipped, ThrottleDropped} ==> r.sent == c.sent && r.timers == c.timers)
      && (b in {Delayed, Queued} ==> r.sent == c.sent)
      && (b in {ThrottleFired, Immediate} && c.connected ==> |r.sent| == |c.sent| + 1)
  {
    var key := TimerKey(ElementId(host, c.dom, n), clause.event);
    MarkedKeepsInv(host, c, n, clause);
    var c0 := c.(dom := Marked(host, c.dom, n, clause));
    RunBranch(host, c0, n, clause.event, clause.modifiers.delay, clause.modifiers.throttle, key,
              BranchOf(c, c.dom, n, clause, key))
  }

  /** `once` is per element: the first `once` clause processed on an
      element runs as if it had no `once` (same sends, same timers) and sets
      the flag; after that, every `once` clause on the element, whichever it
      is, is a no-op. */
  lemma OnceIsPerElement(host: Host, c: Client, n: NodeId, first: TriggerSpec.Clause, later: TriggerSpec.Clause)
    requires Inv(c) && n in c.dom.nodes
    requires first.modifiers.once && later.modifiers.once
    ensures var r := ProcessTrigger(host, c, n, first);
      && OnceSpent(r.dom, n)
      && ProcessTrigger(host, r, n, later) == r
    ensures !OnceSpent(c.dom, n) ==>
      var r := ProcessTrigger(host, c, n, first);
      var plain := ProcessTrigger(host, c, n, first.(modifiers := first.modifiers.(once := false)));
      r.sent == plain.sent && r.timers == plain.timers
  {
    var r := ProcessTrigger(host, c, n, first);
    assert Marked(host, r.dom, n, later) == r.dom;
    if !OnceSpent(c.dom, n) {
      OnceFirstRunsPlain(host, c, n, first);
    }
  }

  /** The branch and key of a first-firing `once` clause are those of the
      same clause without `once`. */
  lemma OnceFirstRunsPlain(host: Host, c: Client, n: NodeId, clause: TriggerSpec.Clause)
    requires Inv(c) && n in c.dom.nodes
    requires clause.modifiers.once && !OnceSpent(c.dom, n)
    ensures var plain := clause.(modifiers := clause.modifiers.(once := false));
      var r := ProcessTrigger(host, c, n, clause);
      var p := ProcessTrigger(host, c, n, plain);
      r.sent == p.sent && r.timers == p.timers
  {
    var plain := clause.(modifiers := clause.modifiers.(once := false));
    var key := TimerKey(ElementId(host, c.dom, n), clause.event);
    var d2 := Marked(host, c.dom, n, plain);
    assert Marked(host, c.dom, n, clause) == SetAttr(d2, n, "data-wsx-triggered", "true");
    MarkedKeepsInv(host, c, n, plain);
    var b := BranchOf(c, c.dom, n, clause, key);
    assert b == BranchOf(c, c.dom, n, plain, key);
    RunBranchIgnoresOnceFlag(host, c.(dom := d2), n, clause.event, clause.modifiers.delay,
                             clause.modifiers.throttle, key, b);
  }

  /** Setting the `once` flag before a branch runs changes neither what it
      sends nor the timers it leaves. */
  lemma RunBranchIgnoresOnceFlag(host: Host, c0: Client, n: NodeId, event: string, delay: real, throttle: real,
                                 key: string, b: Branch)
    requires Inv(c0) && n in c0.dom.nodes
    requires b == ThrottleFired ==> key !in c0.throttle
    requires b == Delayed ==> delay != 0.0
    ensures var c1 := c0.(dom := SetAttr(c0.dom, n, "data-wsx-triggered", "true"));
      SameShape(c0.dom, c1.dom) && Inv(c1)
      && RunBranch(host, c1, n, event, delay, throttle, key, b).sent == RunBranch(host, c0, n, event, delay, throttle, key, b).sent
      && RunBranch(host, c1, n, event, delay, throttle, key, b).timers == RunBranch(host, c0, n, event, delay, throttle, key, b).timers
  {
    var c1 := c0.(dom := SetAttr(c0.dom, n, "data-wsx-triggered", "true"));
    SameShapeKeepsInv(c0, c1.dom);
    assert n in c1.dom.nodes;
    match b
    case ThrottleFired =>
      OnceFlagNotSent(host, c0, n, event);
      var h0 := HandleTrigger(Full, host, c0, n, event);
      var h1 := HandleTrigger(Full, host, c1, n, event);
      assert h1.timers == h0.timers && h1.nextTimer == h0.nextTimer && h1.throttle == h0.throttle;
    case Immediate =>
      OnceFlagNotSent(host, c0, n, event);
    case Queued =>
      var q0 := CancelQueued(c0, key);
      var q1 := CancelQueued(c1, key);
      assert q1.timers == q0.timers && q1.debounce == q0.debounce && q1.nextTimer == q0.nextTimer;
    case _ =>
  }

  /** The `once` flag is not part of the request the element sends. */
  lemma OnceFlagNotSent(host: Host, c: Client, n: NodeId, event: string)
    requires n in c.dom.nodes
    ensures var c' := c.(dom := SetAttr(c.dom, n, "data-wsx-triggered", "true"));
      HandleTrigger(Full, host, c', n, event).sent == HandleTrigger(Full, host, c, n, event).sent
  {
    var node := c.dom.nodes[n];
    var d := SetAttr(c.dom, n, "data-wsx-triggered", "true");
    assert d.nodes[n] == node.(attrs := node.attrs["data-wsx-triggered" := "true"]);
    assert StartsWith("data-wsx-triggered", "data-wsx");
    RequestData.BookkeepingWriteNotSent(true, node, host.parseJson, "data-wsx-triggered", "true");
    if c.connected {
      var r1 := HandleTrigger(Full, host, c.(dom := d), n, event);
      var r0 := HandleTrigger(Full, host, c, n, event);
      assert GetAttr(d, n, "wx-send") == GetAttr(c.dom, n, "wx-send");
      assert GetAttr(d, n, "wx-target") == GetAttr(c.dom, n, "wx-target");
      assert GetAttr(d, n, "wx-swap") == GetAttr(c.dom, n, "wx-swap");
      assert GetAttr(d, n, "wx-trigger") == GetAttr(c.dom, n, "wx-trigger");
      assert r1.sent[|c.sent|] == r0.sent[|c.sent|];
      assert r1.sent == r0.sent[..|c.sent|] + [r0.sent[|c.sent|]];
    }
  }

  /** `wx-trigger="click once"`: the first click sends exactly one request,
      every later one nothing. */
  lemma OnceSendsExactlyOnce(host: Host, c: Client, n: NodeId, clause: TriggerSpec.Clause)
    requires Inv(c) && n in c.dom.nodes && c.connected
    requires clause.modifiers.once && !OnceSpent(c.dom, n)
    requires clause.modifiers.delay == 0.0 && clause.modifiers.throttle == 0.0
    requires clause.modifiers.queue.None?
    ensures var r := ProcessTrigger(host, c, n, clause);
      && |r.sent| == |c.sent| + 1
      && ProcessTrigger(host, r, n, clause).sent == r.sent
  {
    var r := ProcessTrigger(host, c, n, clause);
    assert Marked(host, r.dom, n, clause) == r.dom;
  }

  /** A truthy `delay` arms a request timer and cancels nothing: every timer
      pending before is still pending, and nothing is sent yet. */
  lemma DelayKeepsEarlierTimers(host: Host, c: Client, n: NodeId, clause: TriggerSpec.Clause)
    requires Inv(c) && n in c.dom.nodes
    requires !(clause.modifiers.once && OnceSpent(c.dom, n))
    requires clause.modifiers.delay != 0.0
    ensures var r := ProcessTrigger(host, c, n, clause);
      && r.sent == c.sent
      && r.timers == c.timers[c.nextTimer := Timer(clause.modifiers.delay, Fire(n, clause.event))]
      && c.nextTimer !in c.timers
  {
  }

  /** Throttle: with the key free the request goes out at once and the key is
      armed; while the key is armed, the same clause again sends nothing and
      arms nothing. */
  lemma ThrottleWindow(host: Host, c: Client, n: NodeId, clause: TriggerSpec.Clause)
    requires Inv(c) && n in c.dom.nodes && c.connected
    requires !(clause.modifiers.once && OnceSpent(c.dom, n))
    requires clause.modifiers.delay == 0.0 && clause.modifiers.throttle != 0.0
    requires TimerKey(ElementId(host, c.dom, n), clause.event) !in c.throttle
    ensures var r := ProcessTrigger(host, c, n, clause);
      var key := TimerKey(ElementId(host, c.dom, n), clause.event);
      && |r.sent| == |c.sent| + 1
      && key in r.throttle && r.timers[r.throttle[key]] == Timer(clause.modifiers.throttle, ThrottleExpire(key))
      && var again := ProcessTrigger(host, r, n, clause);
         again.sent == r.sent && again.timers == r.timers
  {
    var r := ProcessTrigger(host, c, n, clause);
    assert Marked(host, r.dom, n, clause) == r.dom;
    assert ElementId(host, r.dom, n) == ElementId(host, c.dom, n);
  }

  /** When the throttle window's timer fires, the window reopens: the same
      clause sends again, unless it is a `once` clause, which stays spent. */
  lemma ThrottleReopens(host: Host, c: Client, n: NodeId, clause: TriggerSpec.Clause)
    requires Inv(c) && n in c.dom.nodes && c.connected
    requires !(clause.modifiers.once && OnceSpent(c.dom, n))
    requires clause.modifiers.delay == 0.0 && clause.modifiers.throttle != 0.0
    requires TimerKey(ElementId(host, c.dom, n), clause.event) !in c.throttle
    ensures var r := ProcessTrigger(host, c, n, clause);
      var key := TimerKey(ElementId(host, c.dom, n), clause.event);
      key in r.throttle
      && var e := FireTimer(Full, host, r, r.throttle[key]);
         var again := ProcessTrigger(host, e, n, clause);
         && (!clause.modifiers.once ==> |again.sent| == |e.sent| + 1)
         && (clause.modifiers.once ==> again.sent == e.sent)
  {
    ThrottleWindow(host, c, n, clause);
    var r := ProcessTrigger(host, c, n, clause);
    var key := TimerKey(ElementId(host, c.dom, n), clause.event);
    var e := FireTimer(Full, host, r, r.throttle[key]);
    assert e.dom == r.dom;
    assert ElementId(host, e.dom, n) == ElementId(host, c.dom, n);
    assert key !in e.throttle;
  }

  /** Queue (debounce): afterwards exactly one queued request is pending for
      the key, 300 ms out, and any request queued before under the key is
      gone. */
  lemma QueueKeepsOnlyLatest(host: Host, c: Client, n: NodeId, clause: TriggerSpec.Clause)
    requires Inv(c) && n in c.dom.nodes
    requires !(clause.modifiers.once && OnceSpent(c.dom, n))
    requires clause.modifiers.delay == 0.0 && clause.modifiers.throttle == 0.0
    requires clause.modifiers.queue.Some? && clause.modifiers.queue.value != []
    ensures var r := ProcessTrigger(host, c, n, clause);
      var key := TimerKey(ElementId(host, c.dom, n), clause.event);
      && r.sent == c.sent
      && key in r.debounce
      && r.timers[r.debounce[key]] == Timer(300.0, DebounceFire(key, n, clause.event))
      && (forall t | t in r.timers && r.timers[t].job.DebounceFire? && r.timers[t].job.key == key ::
            t == r.debounce[key])
      && (key in c.debounce ==> c.debounce[key] !in r.timers)
  {
  }

  /** No modifier that defers: the request goes out during the step. */
  lemma ImmediateSends(host: Host, c: Client, n: NodeId, clause: TriggerSpec.Clause)
    requires Inv(c) && n in c.dom.nodes && c.connected
    requires !(clause.modifiers.once && OnceSpent(c.dom, n))
    requires clause.modifiers.delay == 0.0 && clause.modifiers.throttle == 0.0
    requires clause.modifiers.queue.None?
    ensures var r := ProcessTrigger(host, c, n, clause);
      && |r.sent| == |c.sent| + 1 && r.sent[|c.sent|].id == RequestId(c.counter + 1)
      && r.timers == c.timers
  {
  }

  // ----- handleEvent -----

  /** Index of the first clause `shouldTrigger` accepts, if any. */
  function FirstMatch(host: Host, dom: Dom, ev: Event, n: NodeId, clauses: seq<TriggerSpec.Clause>, from: nat): (r: Option<nat>)
    requires n in dom.nodes && ev.target in dom.nodes
    ensures r.Some? ==> from <= r.value < |clauses|
                        && ShouldTrigger(host, dom, clauses[r.value], ev, n).Some?
                        && forall j | from <= j < r.value :: ShouldTrigger(host, dom, clauses[j], ev, n).None?
    ensures r.None? ==> forall j | from <= j < |clauses| :: ShouldTrigger(host, dom, clauses[j], ev, n).None?
    decreases |clauses| - from
  {
    if from >= |clauses| then None
    else if ShouldTrigger(host, dom, clauses[from], ev, n).Some? then Some(from)
    else FirstMatch(host, dom, ev, n, clauses, from + 1)
  }

  /** The clauses of an element: `wx-trigger`, or the dispatched event name
      when the attribute is absent or empty. */
  function ClausesOf(dom: Dom, n: NodeId, ev: Event): seq<TriggerSpec.Clause>
    requires n in dom.nodes
  {
    TriggerSpec.ParseTriggerSpec(OrElse(GetAttr(dom, n, "wx-trigger"), ev.name))
  }

  /** One iteration of the walk: an element with `wx-send` processes the
      first of its clauses that accepts the event, and only that one. */
  function Visit(host: Host, c: Client, ev: Event, n: NodeId): (r: Client)
    requires Inv(c) && n in c.dom.nodes && ev.target in c.dom.nodes
    ensures Inv(r) && SameShape(c.dom, r.dom)
    ensures r.connected == c.connected && r.scrolls == c.scrolls
    ensures !HasAttr(c.dom, n, "wx-send") ==> r == c
    ensures FirstMatch(host, c.dom, ev, n, ClausesOf(c.dom, n, ev), 0).None? ==> r == c
  {
    if !HasAttr(c.dom, n, "wx-send") then c
    else
      var clauses := ClausesOf(c.dom, n, ev);
      match FirstMatch(host, c.dom, ev, n, clauses, 0)
      case None => c
      case Some(i) => Fired(host, c, ev, n, clauses[i])
  }

  /** The element runs clause `clause`: `shouldTrigger`'s attribute writes,
      then `processTrigger`. */
  function Fired(host: Host, c: Client, ev: Event, n: NodeId, clause: TriggerSpec.Clause): (r: Client)
    requires Inv(c) && n in c.dom.nodes && ev.target in c.dom.nodes
    requires ShouldTrigger(host, c.dom, clause, ev, n).Some?
    ensures Inv(r) && SameShape(c.dom, r.dom)
    ensures r.connected == c.connected && r.scrolls == c.scrolls
  {
    var d := ShouldTrigger(host, c.dom, clause, ev, n).value;
    SameShapeKeepsInv(c, d);
    ProcessTrigger(host, c.(dom := d), n, clause)
  }

  /** The `while (element && element !== document)` loop, from element `n`
      upwards. */
  function Walk(host: Host, c: Client, ev: Event, n: NodeId): (r: Client)
    requires Inv(c) && n in c.dom.nodes && ev.target in c.dom.nodes
    ensures Inv(r) && SameShape(c.dom, r.dom)
    ensures r.connected == c.connected && r.scrolls == c.scrolls
    decreases c.dom.nodes[n].depth
  {
    var c1 := Visit(host, c, ev, n);
    match c1.dom.nodes[n].parent
    case Elem(p) => Walk(host, c1, ev, p)
    case _ => c1
  }

  /** The event types `setupEventListeners` registers a document listener
      for. */
  const ListenedEvents: set<string> :=
    {"click", "submit", "input", "change", "keyup", "keydown", "focus", "blur", "load", "scroll", "mouseover", "mouseout"}

  /** Of those, the ones that do not bubble: dispatched at an element, they
      never reach a listener on the document. */
  const NonBubblingEvents: set<string> := {"focus", "blur", "load", "scroll"}

  /** An event dispatched at an element that reaches one of the document
      listeners. */
  predicate ReachesListener(name: string) {
    name in ListenedEvents && name !in NonBubblingEvents
  }

  /** `handleEvent(e, eventType)`: the walk from the event's target, for an
      event that reaches a document listener; any other event runs no code
      of the runtime. */
  function HandleEvent(host: Host, c: Client, ev: Event): (r: Client)
    requires Inv(c)
    ensures Inv(r) && SameShape(c.dom, r.dom)
    ensures r.connected == c.connected && r.scrolls == c.scrolls
    ensures !ReachesListener(ev.name) ==> r == c
  {
    if !ReachesListener(ev.name) || ev.target !in c.dom.nodes then c else Walk(host, c, ev, ev.target)
  }

  /** A `wx-send` element without `wx-trigger` does not fire on `dblclick`
      or `focus`: the first has no listener, the second does not bubble. */
  lemma UnlistenedEventsIgnored(host: Host, c: Client, ev: Event)
    requires Inv(c)
    requires ev.name in {"dblclick", "focus", "blur", "load", "scroll", "mouseenter"}
    ensures HandleEvent(host, c, ev) == c
  {
    assert !ReachesListener(ev.name) by {
      if ev.name == "dblclick" {
        assert ev.name[0] == 'd';
      } else if ev.name == "mouseenter" {
        assert |ev.name| == 10 && ev.name[5] == 'e';
      }
    }
  }

  /** A click on an element reaches the walk. */
  lemma ClickWalks(host: Host, c: Client, ev: Event)
    requires Inv(c) && ev.target in c.dom.nodes && ev.name == "click"
    ensures HandleEvent(host, c, ev) == Walk(host, c, ev, ev.target)
  {
    assert ReachesListener("click");
  }

  /** The reference walk: visit the elements of a list in order. */
  function VisitAll(host: Host, c: Client, ev: Event, path: seq<NodeId>): (r: Client)
    requires Inv(c) && ev.target in c.dom.nodes
    requires forall i | 0 <= i < |path| :: path[i] in c.dom.nodes
    ensures Inv(r) && SameShape(c.dom, r.dom)
    decreases |path|
  {
    if path == [] then c
    else
      var c1 := Visit(host, c, ev, path[0]);
      assert forall i | 0 <= i < |path[1..]| :: path[1..][i] in c1.dom.nodes by {
        assert forall i | 0 <= i < |path[1..]| :: path[1..][i] == path[i + 1];
      }
      VisitAll(host, c1, ev, path[1..])
  }

  /** The walk visits exactly the ancestor chain of its start, in order from
      the start upwards: a match on one element does not end it. */
  lemma {:induction false} WalkVisitsEveryAncestor(host: Host, c: Client, ev: Event, n: NodeId)
    requires Inv(c) && n in c.dom.nodes && ev.target in c.dom.nodes
    ensures Walk(host, c, ev, n) == VisitAll(host, c, ev, Ancestors(c.dom, n))
    decreases c.dom.nodes[n].depth
  {
    var c1 := Visit(host, c, ev, n);
    var path := Ancestors(c.dom, n);
    if c.dom.nodes[n].parent.Elem? {
      var p := c.dom.nodes[n].parent.id;
      AncestorsSameShape(c.dom, c1.dom, p);
      WalkVisitsEveryAncestor(host, c1, ev, p);
      assert path[1..] == Ancestors(c.dom, p);
    }
  }

  /** An element without `wx-trigger` fires on any dispatched event whose
      name is a word, with no modifiers, so the request goes out at once. */
  lemma DefaultTriggerIsEventName(host: Host, c: Client, ev: Event, n: NodeId)
    requires Inv(c) && n in c.dom.nodes && ev.target in c.dom.nodes
    requires HasAttr(c.dom, n, "wx-send") && !HasAttr(c.dom, n, "wx-trigger")
    requires TriggerSpec.IsEventName(ev.name)
    ensures ClausesOf(c.dom, n, ev) == [TriggerSpec.Clause(ev.name, None, TriggerSpec.NoModifiers)]
    ensures FirstMatch(host, c.dom, ev, n, ClausesOf(c.dom, n, ev), 0) == Some(0)
  {
    TriggerSpec.BareEventName(ev.name);
  }

  // ----- handleMessage -----

  /** One update to process: the primary one or an out-of-band one. */
  datatype Update = Update(target: string, html: string, spec: SwapSpec.Spec, oob: bool)

  /** The updates a response carries, in processing order: the primary one
      (with `message.swap || 'innerHTML'`), then each `oob` entry in array
      order. */
  function Updates(msg: Response): (us: seq<Update>)
    ensures |us| == 1 + |msg.oob|
    ensures us[0] == Update(msg.target, msg.html, Directive(Some(OrElse(msg.swap, "innerHTML"))), false)
    ensures us[1..] == OobUpdates(msg.oob)
    ensures forall i | 1 <= i < |us| ::
      us[i] == Update(msg.oob[i - 1].target, msg.oob[i - 1].html, Directive(msg.oob[i - 1].swap), true)
    ensures ValidUpdates(us)
  {
    var primary := Update(msg.target, msg.html, Directive(Some(OrElse(msg.swap, "innerHTML"))), false);
    var rest := OobUpdates(msg.oob);
    PrependValid(primary, rest);
    [primary] + rest
  }

  lemma PrependValid(u: Update, us: seq<Update>)
    requires SwapSpec.Valid(u.spec) && ValidUpdates(us)
    ensures ValidUpdates([u] + us)
  {
    assert forall i | 1 <= i < |[u] + us| :: ([u] + us)[i] == us[i - 1];
  }

  /** The out-of-band entries as updates, in array order. */
  function OobUpdates(oob: seq<OobUpdate>): (us: seq<Update>)
    ensures |us| == |oob|
    ensures forall i | 0 <= i < |oob| :: us[i] == Update(oob[i].target, oob[i].html, Directive(oob[i].swap), true)
    ensures ValidUpdates(us)
  {
    seq(|oob|, i requires 0 <= i < |oob| => Update(oob[i].target, oob[i].html, Directive(oob[i].swap), true))
  }

  /** Every update carries a well-formed directive. */
  predicate ValidUpdates(us: seq<Update>) {
    forall i | 0 <= i < |us| :: SwapSpec.Valid(us[i].spec)
  }

  /** The swap timer one update arms, if its target is found. */
  function SwapTimer(host: Host, dom: Dom, u: Update): (t: Option<Timer>)
    ensures t.Some? <==> Find(host, dom, u.target).Some?
    ensures t.Some? ==> t.value.job.Apply? && t.value.job.oob == u.oob && t.value.job.html == u.html
  {
    match Find(host, dom, u.target)
    case None => None
    case Some(n) => Some(Timer(u.spec.swap, Apply(n, u.html, u.spec, u.oob)))
  }

  /** The swap timers a list of updates arms, in order: one per update whose
      target is found; an update whose target is missing is skipped alone. */
  function Armed(host: Host, dom: Dom, us: seq<Update>): (ts: seq<Timer>)
    ensures |ts| <= |us|
    ensures forall i | 0 <= i < |ts| :: ts[i].job.Apply?
  {
    if us == [] then []
    else
      match SwapTimer(host, dom, us[0])
      case None => Armed(host, dom, us[1..])
      case Some(t) => [t] + Armed(host, dom, us[1..])
  }

  /** The timer table after registering `ts` one by one from handle `next`. */
  function Arm(timers: map<nat, Timer>, next: nat, ts: seq<Timer>): (r: map<nat, Timer>)
    decreases |ts|
  {
    if ts == [] then timers else Arm(timers[next := ts[0]], next + 1, ts[1..])
  }

  /** Registering keeps every earlier timer, puts `ts` under consecutive
      handles in order, and adds nothing else. */
  lemma ArmInOrder(timers: map<nat, Timer>, next: nat, ts: seq<Timer>)
    requires forall t | t in timers :: t < next
    ensures var r := Arm(timers, next, ts);
      && (forall t | t in timers :: t in r && r[t] == timers[t])
      && (forall h: nat | next <= h < next + |ts| :: h in r && r[h] == ts[h - next])
      && (forall t | t in r :: t in timers || next <= t < next + |ts|)
  {
    ArmKeeps(timers, next, ts);
    ArmPlaces(timers, next, ts);
    ArmAddsNothingElse(timers, next, ts);
  }

  lemma {:induction false} ArmKeeps(timers: map<nat, Timer>, next: nat, ts: seq<Timer>)
    requires forall t | t in timers :: t < next
    ensures forall t | t in timers :: t in Arm(timers, next, ts) && Arm(timers, next, ts)[t] == timers[t]
    decreases |ts|
  {
    if ts != [] {
      var m := timers[next := ts[0]];
      ArmKeeps(m, next + 1, ts[1..]);
      assert forall t | t in timers :: t in m && m[t] == timers[t];
    }
  }

  lemma {:induction false} ArmPlaces(timers: map<nat, Timer>, next: nat, ts: seq<Timer>)
    requires forall t | t in timers :: t < next
    ensures forall h: nat | next <= h < next + |ts| ::
      h in Arm(timers, next, ts) && Arm(timers, next, ts)[h] == ts[h - next]
    decreases |ts|
  {
    if ts != [] {
      var m := timers[next := ts[0]];
      var r := Arm(timers, next, ts);
      assert r == Arm(m, next + 1, ts[1..]);
      ArmPlaces(m, next + 1, ts[1..]);
      ArmKeeps(m, next + 1, ts[1..]);
      forall h: nat | next < h < next + |ts|
        ensures h in r && r[h] == ts[h - next]
      {
        assert ts[h - next] == ts[1..][h - (next + 1)];
      }
    }
  }

  lemma {:induction false} ArmAddsNothingElse(timers: map<nat, Timer>, next: nat, ts: seq<Timer>)
    ensures forall t | t in Arm(timers, next, ts) :: t in timers || next <= t < next + |ts|
    decreases |ts|
  {
    if ts != [] {
      ArmAddsNothingElse(timers[next := ts[0]], next + 1, ts[1..]);
    }
  }

  /** `processSwapUpdate` for each update in order. */
  function ArmAll(host: Host, c: Client, us: seq<Update>): (r: Client)
    requires ValidUpdates(us)
    ensures Inv(c) ==> Inv(r)
    ensures r == c.(timers := r.timers, nextTimer := r.nextTimer)
    decreases |us|
  {
    if us == [] then c
    else
      var c1 := ProcessSwapUpdate(host, c, us[0].target, us[0].html, us[0].spec, us[0].oob);
      ArmAll(host, c1, us[1..])
  }

  /** Processing the updates registers exactly their swap timers, in order. */
  lemma {:induction false} ArmAllRegisters(host: Host, c: Client, us: seq<Update>)
    requires ValidUpdates(us)
    ensures var r := ArmAll(host, c, us);
      var ts := Armed(host, c.dom, us);
      r.nextTimer == c.nextTimer + |ts| && r.timers == Arm(c.timers, c.nextTimer, ts)
    decreases |us|
  {
    if us != [] {
      var c1 := ProcessSwapUpdate(host, c, us[0].target, us[0].html, us[0].spec, us[0].oob);
      assert c1.dom == c.dom;
      ArmAllRegisters(host, c1, us[1..]);
    }
  }

  /** `handleMessage(message)`: the primary update, then the out-of-band
      ones, then the pending entry for `message.id` is deleted, whether or
      not any target was found. */
  function HandleMessage(host: Host, c: Client, msg: Response): (r: Client)
    requires Inv(c)
    ensures Inv(r)
    ensures msg.id !in r.pending && r.pending == c.pending - {msg.id}
    ensures r == c.(pending := r.pending, timers := r.timers, nextTimer := r.nextTimer)
  {
    var c1 := ArmAll(host, c, Updates(msg));
    DropPendingKeepsInv(c1, msg.id);
    c1.(pending := c1.pending - {msg.id})
  }

  /** What a response schedules: its swap timers, primary first, registered
      one by one after the timers already pending (see `ArmInOrder`). */
  lemma HandleMessageSchedules(host: Host, c: Client, msg: Response)
    requires Inv(c)
    ensures var r := HandleMessage(host, c, msg);
      var ts := Armed(host, c.dom, Updates(msg));
      r.nextTimer == c.nextTimer + |ts| && r.timers == Arm(c.timers, c.nextTimer, ts)
  {
    ArmAllRegisters(host, c, Updates(msg));
  }

  /** Only the primary update can scroll: every armed swap job except
      possibly the first belongs to an out-of-band update. */
  lemma OnlyPrimaryScrolls(host: Host, dom: Dom, msg: Response)
    ensures var ts := Armed(host, dom, Updates(msg));
      forall i | 1 <= i < |ts| :: ts[i].job.oob
    ensures var ts := Armed(host, dom, Updates(msg));
      Find(host, dom, msg.target).Some? <==> |ts| >= 1 && !ts[0].job.oob
  {
    var us := Updates(msg);
    AllOob(host, dom, us[1..]);
    assert us == [us[0]] + us[1..];
  }

  lemma {:induction false} AllOob(host: Host, dom: Dom, us: seq<Update>)
    requires forall i | 0 <= i < |us| :: us[i].oob
    ensures forall i | 0 <= i < |Armed(host, dom, us)| :: Armed(host, dom, us)[i].job.oob
  {
    if us != [] {
      AllOob(host, dom, us[1..]);
    }
  }
}
