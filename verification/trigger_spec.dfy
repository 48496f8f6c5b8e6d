/** `parseTriggerSpec` of the full browser runtime: a trigger attribute such as
    `"keyup[Enter] delay:500ms, click once"` becomes a list of clauses, one per
    comma-separated part, each with an event name, an optional bracketed
    condition and a record of modifiers. */
module TriggerSpec {
  import opened Wrappers
  import opened Text
  import TimeSpec

  /** `trigger.modifiers`. A duration of 0 stands for "not set": the runtime
      only ever tests these fields for truthiness. `from`/`target` hold the
      raw value after the colon (`undefined` for a bare key). */
  datatype Modifiers = Modifiers(once: bool, changed: bool, delay: real, throttle: real,
                                 from: Option<string>, target: Option<string>,
                                 consume: bool, queue: Option<string>)

  const NoModifiers: Modifiers := Modifiers(false, false, 0.0, 0.0, None, None, false, None)

  /** One parsed clause: `{ event, condition?, modifiers }`. */
  datatype Clause = Clause(event: string, condition: Option<string>, modifiers: Modifiers)

  /** The clause an empty trigger string yields. The source returns
      `{ event: 'click' }` with no `modifiers` object at all, on which
      `shouldTrigger` would throw reading `trigger.modifiers.from`; the path
      is unreachable from `handleEvent`, which never passes an empty string
      (`getAttribute('wx-trigger') || eventType`), so the model gives the
      clause empty modifiers. */
  const ClickClause: Clause := Clause("click", None, NoModifiers)

  /** Durations are never negative and a queue mode, once set, is non-empty. */
  predicate Valid(m: Modifiers) {
    m.delay >= 0.0 && m.throttle >= 0.0 && (m.queue.Some? ==> m.queue.value != [])
  }

  /** `\w+` */
  predicate IsEventName(n: string) {
    n != [] && AllWordChars(n)
  }

  /** `[^\]]+` */
  predicate IsCondition(c: string) {
    c != [] && ']' !in c
  }

  /** `p` has the shape `name[cond]` with the bracket opening at `k`. */
  predicate BracketAt(p: string, k: int) {
    && 0 <= k && k + 1 < |p|
    && p[k] == '[' && p[|p| - 1] == ']'
    && IsEventName(p[..k]) && IsCondition(p[k + 1..|p| - 1])
  }

  /** `eventPart.match(/^(\w+)(?:\[([^\]]+)\])?$/)`: the event name and the
      optional condition, or no match. */
  function MatchEventPart(p: string): (r: Option<(string, Option<string>)>)
    ensures r.Some? && r.value.1.None? <==> IsEventName(p)
    ensures r.Some? && r.value.1.None? ==> r.value.0 == p
    ensures r.Some? && r.value.1.Some? ==>
      var k := |r.value.0|;
      BracketAt(p, k) && r.value.0 == p[..k] && r.value.1.value == p[k + 1..|p| - 1]
    ensures r.None? ==> forall k :: !BracketAt(p, k)
  {
    if IsEventName(p) then
      assert forall k :: !BracketAt(p, k);
      Some((p, None))
    else if '[' in p then
      var i := IndexOf(p, '[');
      assert forall k :: BracketAt(p, k) ==> k == i;
      if BracketAt(p, i) then Some((p[..i], Some(p[i + 1..|p| - 1]))) else None
    else
      assert forall k :: !BracketAt(p, k);
      None
  }

  /** The text a clause's event part is written as. */
  function RenderEventPart(name: string, condition: Option<string>): string {
    if condition.Some? then name + "[" + condition.value + "]" else name
  }

  /** Round trip: an event name with an optional condition is matched back
      into exactly those two groups. */
  lemma EventPartRoundTrip(name: string, condition: Option<string>)
    requires IsEventName(name)
    requires condition.Some? ==> IsCondition(condition.value)
    ensures MatchEventPart(RenderEventPart(name, condition)) == Some((name, condition))
  {
    if condition.Some? {
      var p := RenderEventPart(name, condition);
      var k := |name|;
      assert p[..k] == name;
      assert p[k + 1..|p| - 1] == condition.value;
      assert BracketAt(p, k);
      var r := MatchEventPart(p);
      assert !IsEventName(p) by { assert !IsWordChar(p[k]); }
    }
  }

  /** The modifier keys the parser acts on; every other key is skipped. */
  predicate KnownKey(key: string) {
    key in {"once", "changed", "delay", "throttle", "from", "target", "consume", "queue"}
  }

  /** One iteration of the modifier loop. Only the field the key names can
      change; an unknown key changes nothing. */
  function ApplyModifier(m: Modifiers, part: string): (r: Modifiers)
    ensures !KnownKey(KeyValue(part).0) ==> r == m
    ensures r.once != m.once ==> KeyValue(part).0 == "once"
    ensures r.changed != m.changed ==> KeyValue(part).0 == "changed"
    ensures r.delay != m.delay ==> KeyValue(part).0 == "delay"
    ensures r.throttle != m.throttle ==> KeyValue(part).0 == "throttle"
    ensures r.from != m.from ==> KeyValue(part).0 == "from"
    ensures r.target != m.target ==> KeyValue(part).0 == "target"
    ensures r.consume != m.consume ==> KeyValue(part).0 == "consume"
    ensures r.queue != m.queue ==> KeyValue(part).0 == "queue"
    ensures Valid(m) ==> Valid(r)
  {
    var (key, value) := KeyValue(part);
    if key == "once" then m.(once := true)
    else if key == "changed" then m.(changed := true)
    else if key == "delay" then m.(delay := TimeSpec.ParseTime(value))
    else if key == "throttle" then m.(throttle := TimeSpec.ParseTime(value))
    else if key == "from" then m.(from := value)
    else if key == "target" then m.(target := value)
    else if key == "consume" then m.(consume := true)
    else if key == "queue" then m.(queue := Some(OrElse(value, "last")))
    else m
  }

  /** `parts.slice(1).forEach(...)`: the modifiers applied left to right. */
  function ApplyModifiers(m: Modifiers, parts: seq<string>): (r: Modifiers)
    ensures Valid(m) ==> Valid(r)
  {
    if parts == [] then m
    else ApplyModifier(ApplyModifiers(m, parts[..|parts| - 1]), parts[|parts| - 1])
  }

  /** One comma-separated part: the first whitespace token is the event part,
      the rest are modifiers. When the event part does not match, the event
      stays `"click"` and there is no condition. */
  function ParseClause(text: string): (c: Clause)
    ensures IsEventName(c.event)
    ensures Valid(c.modifiers)
    ensures MatchEventPart(SplitWhitespace(text)[0]).None? ==> c.event == "click" && c.condition.None?
    ensures c.condition.Some? ==> IsCondition(c.condition.value)
    ensures MatchEventPart(SplitWhitespace(text)[0]).Some? ==>
              (c.event, c.condition) == MatchEventPart(SplitWhitespace(text)[0]).value
  {
    var parts := SplitWhitespace(text);
    var mods := ApplyModifiers(NoModifiers, parts[1..]);
    match MatchEventPart(parts[0])
    case None => Clause("click", None, mods)
    case Some((event, condition)) => Clause(event, condition, mods)
  }

  /** `parseTriggerSpec(triggerSpec)`. An empty string gives the single
      default click clause; otherwise there is one clause per comma-separated
      part, in order. */
  function ParseTriggerSpec(s: string): (r: seq<Clause>)
    ensures s == [] ==> r == [ClickClause]
    ensures s != [] ==> |r| == Count(s, ',') + 1
    ensures forall i :: 0 <= i < |r| ==> IsEventName(r[i].event) && Valid(r[i].modifiers)
  {
    if !Truthy(s) then [ClickClause]
    else
      var parts := SplitOn(s, ',');
      SplitJoinRoundTrip(s, ',');
      seq(|parts|, i requires 0 <= i < |parts| => ParseClause(parts[i]))
  }

  /** Round trip over the comma split: joining clause texts that hold no
      comma and parsing the result parses each text on its own, in order. */
  lemma ClausesOfJoin(texts: seq<string>)
    requires |texts| >= 1
    requires forall i :: 0 <= i < |texts| ==> ',' !in texts[i]
    requires Join(texts, ',') != []
    ensures |ParseTriggerSpec(Join(texts, ','))| == |texts|
    ensures forall i :: 0 <= i < |texts| ==> ParseTriggerSpec(Join(texts, ','))[i] == ParseClause(texts[i])
  {
    SplitOnJoin(texts, ',');
  }

  // ----- each modifier field is decided by the last token carrying its key -----

  lemma {:induction false} OnceFromAnyToken(base: Modifiers, parts: seq<string>)
    ensures ApplyModifiers(base, parts).once == (base.once || LastWith(parts, "once") >= 0)
    decreases |parts|
  {
    if parts != [] {
      OnceFromAnyToken(base, parts[..|parts| - 1]);
    }
  }

  lemma {:induction false} ChangedFromAnyToken(base: Modifiers, parts: seq<string>)
    ensures ApplyModifiers(base, parts).changed == (base.changed || LastWith(parts, "changed") >= 0)
    decreases |parts|
  {
    if parts != [] {
      ChangedFromAnyToken(base, parts[..|parts| - 1]);
    }
  }

  lemma {:induction false} ConsumeFromAnyToken(base: Modifiers, parts: seq<string>)
    ensures ApplyModifiers(base, parts).consume == (base.consume || LastWith(parts, "consume") >= 0)
    decreases |parts|
  {
    if parts != [] {
      ConsumeFromAnyToken(base, parts[..|parts| - 1]);
    }
  }

  lemma {:induction false} DelayFromLastOccurrence(base: Modifiers, parts: seq<string>)
    ensures var v := LastValue(parts, "delay");
      ApplyModifiers(base, parts).delay == if v.None? then base.delay else TimeSpec.ParseTime(v.value)
    decreases |parts|
  {
    if parts != [] {
      DelayFromLastOccurrence(base, parts[..|parts| - 1]);
    }
  }

  lemma {:induction false} ThrottleFromLastOccurrence(base: Modifiers, parts: seq<string>)
    ensures var v := LastValue(parts, "throttle");
      ApplyModifiers(base, parts).throttle == if v.None? then base.throttle else TimeSpec.ParseTime(v.value)
    decreases |parts|
  {
    if parts != [] {
      ThrottleFromLastOccurrence(base, parts[..|parts| - 1]);
    }
  }

  lemma {:induction false} FromFromLastOccurrence(base: Modifiers, parts: seq<string>)
    ensures var v := LastValue(parts, "from");
      ApplyModifiers(base, parts).from == if v.None? then base.from else v.value
    decreases |parts|
  {
    if parts != [] {
      FromFromLastOccurrence(base, parts[..|parts| - 1]);
    }
  }

  lemma {:induction false} TargetFromLastOccurrence(base: Modifiers, parts: seq<string>)
    ensures var v := LastValue(parts, "target");
      ApplyModifiers(base, parts).target == if v.None? then base.target else v.value
    decreases |parts|
  {
    if parts != [] {
      TargetFromLastOccurrence(base, parts[..|parts| - 1]);
    }
  }

  /** A bare `queue` is the mode `"last"`. */
  lemma {:induction false} QueueFromLastOccurrence(base: Modifiers, parts: seq<string>)
    ensures var v := LastValue(parts, "queue");
      ApplyModifiers(base, parts).queue == if v.None? then base.queue else Some(OrElse(v.value, "last"))
    decreases |parts|
  {
    if parts != [] {
      QueueFromLastOccurrence(base, parts[..|parts| - 1]);
    }
  }

  /** Unrecognised modifier tokens are ignored: dropping every token whose
      key is unknown leaves the parsed modifiers unchanged. */
  lemma {:induction false} UnknownModifiersIgnored(base: Modifiers, parts: seq<string>, extra: string)
    requires !KnownKey(KeyValue(extra).0)
    ensures forall i :: 0 <= i <= |parts| ==>
      ApplyModifiers(base, parts[..i] + [extra] + parts[i..]) == ApplyModifiers(base, parts)
    decreases |parts|
  {
    forall i | 0 <= i <= |parts|
      ensures ApplyModifiers(base, parts[..i] + [extra] + parts[i..]) == ApplyModifiers(base, parts)
    {
      InsertUnknown(base, parts, extra, i);
    }
  }

  lemma {:induction false} InsertUnknown(base: Modifiers, parts: seq<string>, extra: string, i: int)
    requires !KnownKey(KeyValue(extra).0)
    requires 0 <= i <= |parts|
    ensures ApplyModifiers(base, parts[..i] + [extra] + parts[i..]) == ApplyModifiers(base, parts)
    decreases |parts|
  {
    var q := parts[..i] + [extra] + parts[i..];
    if i == |parts| {
      assert q[..|q| - 1] == parts;
    } else {
      var p' := parts[..|parts| - 1];
      assert q[..|q| - 1] == p'[..i] + [extra] + p'[i..];
      assert q[|q| - 1] == parts[|parts| - 1];
      InsertUnknown(base, p', extra, i);
    }
  }

  lemma EventPartIsToken(name: string, condition: Option<string>)
    requires IsEventName(name)
    requires condition.Some? ==> NoSpace(condition.value)
    ensures RenderEventPart(name, condition) != [] && NoSpace(RenderEventPart(name, condition))
  {
    var p := RenderEventPart(name, condition);
    forall i | 0 <= i < |p| ensures !IsSpace(p[i]) {
      if i < |name| {
        assert p[i] == name[i];
        assert IsWordChar(name[i]);
      } else if condition.Some? && |name| < i < |p| - 1 {
        assert p[i] == condition.value[i - |name| - 1];
      }
    }
  }

  /** A trigger string that is a bare event name, as `handleEvent` uses
      when an element has no `wx-trigger`, is one clause for that event with
      no condition and no modifiers. */
  lemma BareEventName(name: string)
    requires IsEventName(name)
    ensures ParseTriggerSpec(name) == [Clause(name, None, NoModifiers)]
  {
    assert ',' !in name by {
      assert forall i | 0 <= i < |name| :: IsWordChar(name[i]);
    }
    EventPartIsToken(name, None);
    WordsOfJoin([name]);
    assert SplitWhitespace(name) == [name];
    EventPartRoundTrip(name, None);
  }

  /** Round trip for one clause: an event part followed by modifier tokens,
      separated by single spaces, parses to that event and condition with
      the modifiers those tokens give. */
  lemma ClauseRoundTrip(name: string, condition: Option<string>, mods: seq<string>)
    requires IsEventName(name)
    requires condition.Some? ==> IsCondition(condition.value) && NoSpace(condition.value)
    requires forall i :: 0 <= i < |mods| ==> mods[i] != [] && NoSpace(mods[i])
    ensures ParseClause(Join([RenderEventPart(name, condition)] + mods, ' '))
         == Clause(name, condition, ApplyModifiers(NoModifiers, mods))
  {
    var head := RenderEventPart(name, condition);
    var tokens := [head] + mods;
    EventPartIsToken(name, condition);
    assert forall i :: 0 <= i < |tokens| ==> tokens[i] != [] && NoSpace(tokens[i]) by {
      forall i | 0 <= i < |tokens| ensures tokens[i] != [] && NoSpace(tokens[i]) {
        if i > 0 { assert tokens[i] == mods[i - 1]; }
      }
    }
    WordsOfJoin(tokens);
    var parts := SplitWhitespace(Join(tokens, ' '));
    assert parts == tokens;
    assert parts[0] == head && parts[1..] == mods;
    EventPartRoundTrip(name, condition);
  }
}
