/** `parseSwapSpec` of the browser runtime (both copies): a swap directive such
    as `"afterbegin swap:200ms settle:100ms show:top"` becomes a record of the
    swap style, the delay before the swap, the settle delay, the show/scroll
    positions and the focus flag. */
module SwapSpec {
  import opened Wrappers
  import opened Text
  import TimeSpec

  /** The parsed directive. `show`/`scroll` are `null` until a modifier sets
      them; `swap` and `settle` are milliseconds. */
  datatype Spec = Spec(style: string, swap: real, settle: real,
                       show: Option<string>, scroll: Option<string>, focus: bool)

  /** The object `parseSwapSpec` starts from and returns for an empty string. */
  const Defaults: Spec := Spec("innerHTML", 0.0, 20.0, None, None, false)

  /** The facts every parsed directive satisfies: durations are not negative
      and a `show`/`scroll` position, once set, is a non-empty string. */
  predicate Valid(spec: Spec) {
    && spec.style != []
    && spec.swap >= 0.0 && spec.settle >= 0.0
    && (spec.show.Some? ==> spec.show.value != [])
    && (spec.scroll.Some? ==> spec.scroll.value != [])
  }

  /** `parts[0] && !parts[0].includes(':')`: the first token names the style. */
  predicate IsStyleToken(w: string) {
    Truthy(w) && ':' !in w
  }

  /** The modifier keys the parser acts on; every other key is skipped. */
  predicate KnownKey(key: string) {
    key == "swap" || key == "settle" || key == "show" || key == "scroll" || key == "focus-scroll"
  }

  /** One iteration of the modifier loop. Only the field the key names can
      change; an unknown key changes nothing. */
  function ApplyModifier(spec: Spec, part: string): (r: Spec)
    ensures !KnownKey(KeyValue(part).0) ==> r == spec
    ensures r.style == spec.style
    ensures r.swap != spec.swap ==> KeyValue(part).0 == "swap"
    ensures r.settle != spec.settle ==> KeyValue(part).0 == "settle"
    ensures r.show != spec.show ==> KeyValue(part).0 == "show"
    ensures r.scroll != spec.scroll ==> KeyValue(part).0 == "scroll"
    ensures r.focus != spec.focus ==> KeyValue(part).0 == "focus-scroll"
    ensures Valid(spec) ==> Valid(r)
  {
    var (key, value) := KeyValue(part);
    if key == "swap" then spec.(swap := TimeSpec.ParseTime(value))
    else if key == "settle" then spec.(settle := TimeSpec.ParseTime(value))
    else if key == "show" then spec.(show := Some(OrElse(value, "top")))
    else if key == "scroll" then spec.(scroll := Some(OrElse(value, "top")))
    else if key == "focus-scroll" then spec.(focus := value != Some("false"))
    else spec
  }

  /** `parts.forEach(...)`: the modifiers applied left to right. */
  function ApplyModifiers(spec: Spec, parts: seq<string>): (r: Spec)
    ensures r.style == spec.style
    ensures Valid(spec) ==> Valid(r)
  {
    if parts == [] then spec
    else ApplyModifier(ApplyModifiers(spec, parts[..|parts| - 1]), parts[|parts| - 1])
  }

  /** The tokens read as modifiers: all of them, less the style token when the
      first one is a style token. */
  function ModifierParts(s: string): seq<string> {
    var parts := SplitWhitespace(s);
    if IsStyleToken(parts[0]) then parts[1..] else parts
  }

  /** `parseSwapSpec(swapString)`. An empty string gives the defaults; a
      first token without a colon becomes the style verbatim, whether or not
      it is a style the swap step knows. */
  function ParseSwapSpec(s: string): (r: Spec)
    ensures s == [] ==> r == Defaults
    ensures Words(s) != [] && ':' !in Words(s)[0] ==> r.style == Words(s)[0]
    ensures Words(s) == [] || ':' in Words(s)[0] ==> r.style == "innerHTML"
    ensures Valid(r)
  {
    if !Truthy(s) then Defaults
    else
      var parts := SplitWhitespace(s);
      var base := if IsStyleToken(parts[0]) then Defaults.(style := parts[0]) else Defaults;
      ApplyModifiers(base, ModifierParts(s))
  }

  /** The modifier loop, one field at a time: the field is decided by the
      LAST token carrying its key (a later duplicate overwrites an earlier
      one) and keeps its starting value when no token carries it; tokens with
      other keys, known or not, never touch it. */
  lemma {:induction false} SwapFromLastOccurrence(base: Spec, parts: seq<string>)
    ensures var v := LastValue(parts, "swap");
      ApplyModifiers(base, parts).swap == if v.None? then base.swap else TimeSpec.ParseTime(v.value)
    decreases |parts|
  {
    if parts != [] {
      SwapFromLastOccurrence(base, parts[..|parts| - 1]);
    }
  }

  lemma {:induction false} SettleFromLastOccurrence(base: Spec, parts: seq<string>)
    ensures var v := LastValue(parts, "settle");
      ApplyModifiers(base, parts).settle == if v.None? then base.settle else TimeSpec.ParseTime(v.value)
    decreases |parts|
  {
    if parts != [] {
      SettleFromLastOccurrence(base, parts[..|parts| - 1]);
    }
  }

  lemma {:induction false} ShowFromLastOccurrence(base: Spec, parts: seq<string>)
    ensures var v := LastValue(parts, "show");
      ApplyModifiers(base, parts).show == if v.None? then base.show else Some(OrElse(v.value, "top"))
    decreases |parts|
  {
    if parts != [] {
      ShowFromLastOccurrence(base, parts[..|parts| - 1]);
    }
  }

  lemma {:induction false} ScrollFromLastOccurrence(base: Spec, parts: seq<string>)
    ensures var v := LastValue(parts, "scroll");
      ApplyModifiers(base, parts).scroll == if v.None? then base.scroll else Some(OrElse(v.value, "top"))
    decreases |parts|
  {
    if parts != [] {
      ScrollFromLastOccurrence(base, parts[..|parts| - 1]);
    }
  }

  lemma {:induction false} FocusFromLastOccurrence(base: Spec, parts: seq<string>)
    ensures var v := LastValue(parts, "focus-scroll");
      ApplyModifiers(base, parts).focus == if v.None? then base.focus else v.value != Some("false")
    decreases |parts|
  {
    if parts != [] {
      FocusFromLastOccurrence(base, parts[..|parts| - 1]);
    }
  }

  /** The modifier loop as a whole: every field follows the last token that
      carries its key. */
  lemma ModifiersFollowLastOccurrence(base: Spec, parts: seq<string>)
    ensures var r := ApplyModifiers(base, parts);
      && r.style == base.style
      && (var v := LastValue(parts, "swap"); r.swap == if v.None? then base.swap else TimeSpec.ParseTime(v.value))
      && (var v := LastValue(parts, "settle"); r.settle == if v.None? then base.settle else TimeSpec.ParseTime(v.value))
      && (var v := LastValue(parts, "show"); r.show == if v.None? then base.show else Some(OrElse(v.value, "top")))
      && (var v := LastValue(parts, "scroll"); r.scroll == if v.None? then base.scroll else Some(OrElse(v.value, "top")))
      && (var v := LastValue(parts, "focus-scroll"); r.focus == if v.None? then base.focus else v.value != Some("false"))
  {
    SwapFromLastOccurrence(base, parts);
    SettleFromLastOccurrence(base, parts);
    ShowFromLastOccurrence(base, parts);
    ScrollFromLastOccurrence(base, parts);
    FocusFromLastOccurrence(base, parts);
  }

  /** The whole parser, field by field, against the tokens of the input:
      defaults where no modifier says otherwise, the last occurrence of a
      key where one does. */
  lemma ParsedFieldsFromLastOccurrence(s: string)
    requires s != []
    ensures var r := ParseSwapSpec(s); var m := ModifierParts(s);
      && (var v := LastValue(m, "swap"); r.swap == if v.None? then 0.0 else TimeSpec.ParseTime(v.value))
      && (var v := LastValue(m, "settle"); r.settle == if v.None? then 20.0 else TimeSpec.ParseTime(v.value))
      && (var v := LastValue(m, "show"); r.show == if v.None? then None else Some(OrElse(v.value, "top")))
      && (var v := LastValue(m, "scroll"); r.scroll == if v.None? then None else Some(OrElse(v.value, "top")))
      && (var v := LastValue(m, "focus-scroll"); r.focus == if v.None? then false else v.value != Some("false"))
  {
    var parts := SplitWhitespace(s);
    var base := if IsStyleToken(parts[0]) then Defaults.(style := parts[0]) else Defaults;
    ModifiersFollowLastOccurrence(base, ModifierParts(s));
  }

  /** `show`/`scroll` without a value (`"show"` or `"show:"`) mean `top`. */
  lemma ValuelessPositions(spec: Spec)
    ensures ApplyModifier(spec, "show").show == Some("top")
    ensures ApplyModifier(spec, "show:").show == Some("top")
    ensures ApplyModifier(spec, "scroll").scroll == Some("top")
  {
    KeyValueOfPair("show", "");
    assert "show" + [':'] + "" == "show:";
  }

  /** `focus-scroll` is on unless its value is exactly `false`, and on when
      it has no value at all. */
  lemma FocusScrollFlag(spec: Spec)
    ensures ApplyModifier(spec, "focus-scroll").focus
    ensures ApplyModifier(spec, "focus-scroll:no").focus
    ensures !ApplyModifier(spec, "focus-scroll:false").focus
  {
    FocusScrollWith(spec, "no");
    FocusScrollWith(spec, "false");
    assert "focus-scroll:" + "no" == "focus-scroll:no";
    assert "focus-scroll:" + "false" == "focus-scroll:false";
  }

  lemma FocusScrollWith(spec: Spec, v: string)
    requires ':' !in v
    ensures ApplyModifier(spec, "focus-scroll:" + v).focus == (v != "false")
  {
    KeyValueOfPair("focus-scroll", v);
    assert "focus-scroll" + [':'] + v == "focus-scroll:" + v;
  }

  /** A directive written the way the documentation writes them. */
  function RenderTokens(style: string, swapMs: nat, settleMs: nat,
                        show: Option<string>, scroll: Option<string>): seq<string>
  {
    [style] + RenderModifierTokens(swapMs, settleMs, show, scroll)
  }

  function RenderModifierTokens(swapMs: nat, settleMs: nat,
                                show: Option<string>, scroll: Option<string>): seq<string>
  {
    ["swap:" + NatToString(swapMs) + "ms"] + ["settle:" + NatToString(settleMs) + "ms"]
    + OptionalToken("show", show) + OptionalToken("scroll", scroll)
  }

  function OptionalToken(key: string, value: Option<string>): seq<string> {
    if value.Some? then [key + ":" + value.value] else []
  }

  function RenderSwapSpec(style: string, swapMs: nat, settleMs: nat,
                          show: Option<string>, scroll: Option<string>): string
  {
    Join(RenderTokens(style, swapMs, settleMs, show, scroll), ' ')
  }

  predicate PlainToken(w: string) {
    w != [] && NoSpace(w) && ':' !in w
  }

  lemma DigitsHaveNoSpaceOrColon(n: nat)
    ensures NoSpace(NatToString(n) + "ms") && ':' !in NatToString(n) + "ms"
  {
    var d := NatToString(n) + "ms";
    forall i | 0 <= i < |d| ensures !IsSpace(d[i]) && d[i] != ':' {
      if i < |NatToString(n)| {
        assert d[i] == NatToString(n)[i];
      }
    }
  }

  /** The rendered directive tokenises back into its tokens, the first being
      the style. */
  lemma RenderedTokens(style: string, swapMs: nat, settleMs: nat,
                       show: Option<string>, scroll: Option<string>)
    requires PlainToken(style)
    requires show.Some? ==> PlainToken(show.value)
    requires scroll.Some? ==> PlainToken(scroll.value)
    ensures var s := RenderSwapSpec(style, swapMs, settleMs, show, scroll);
      && s != []
      && SplitWhitespace(s) == RenderTokens(style, swapMs, settleMs, show, scroll)
  {
    var tokens := RenderTokens(style, swapMs, settleMs, show, scroll);
    DigitsHaveNoSpaceOrColon(swapMs);
    DigitsHaveNoSpaceOrColon(settleMs);
    forall i | 0 <= i < |tokens| ensures tokens[i] != [] && NoSpace(tokens[i]) {
    }
    WordsOfJoin(tokens);
    var s := RenderSwapSpec(style, swapMs, settleMs, show, scroll);
    assert s != [] by {
      WordsKeepEveryNonSpace(s);
      assert Words(s)[0] == style;
    }
  }

  lemma OptionalTokenValue(key: string, value: Option<string>, k: string)
    requires ':' !in key && (value.Some? ==> ':' !in value.value)
    ensures LastValue(OptionalToken(key, value), k)
         == if k == key && value.Some? then Some(Some(value.value)) else None
  {
    if value.Some? {
      SingleTokenValue(key, value.value, k);
    }
  }

  /** Each rendered modifier key occurs once, with the value it was rendered
      from. */
  lemma RenderedModifierValue(swapMs: nat, settleMs: nat, show: Option<string>, scroll: Option<string>, k: string)
    requires show.Some? ==> PlainToken(show.value)
    requires scroll.Some? ==> PlainToken(scroll.value)
    ensures LastValue(RenderModifierTokens(swapMs, settleMs, show, scroll), k) ==
      if k == "scroll" && scroll.Some? then Some(Some(scroll.value))
      else if k == "show" && show.Some? then Some(Some(show.value))
      else if k == "settle" then Some(Some(NatToString(settleMs) + "ms"))
      else if k == "swap" then Some(Some(NatToString(swapMs) + "ms"))
      else None
  {
    var t1 := ["swap:" + NatToString(swapMs) + "ms"];
    var t2 := ["settle:" + NatToString(settleMs) + "ms"];
    var t3 := OptionalToken("show", show);
    var t4 := OptionalToken("scroll", scroll);
    DigitsHaveNoSpaceOrColon(swapMs);
    DigitsHaveNoSpaceOrColon(settleMs);
    assert "swap:" + NatToString(swapMs) + "ms" == "swap" + ":" + (NatToString(swapMs) + "ms");
    assert "settle:" + NatToString(settleMs) + "ms" == "settle" + ":" + (NatToString(settleMs) + "ms");
    SingleTokenValue("swap", NatToString(swapMs) + "ms", k);
    SingleTokenValue("settle", NatToString(settleMs) + "ms", k);
    OptionalTokenValue("show", show, k);
    OptionalTokenValue("scroll", scroll, k);
    LastValueAppend(t1, t2, k);
    LastValueAppend(t1 + t2, t3, k);
    LastValueAppend(t1 + t2 + t3, t4, k);
  }

  /** Round trip: a directive rendered from a style, two whole-millisecond
      delays and optional show/scroll positions parses back to exactly those
      values (and focus off). */
  lemma RenderThenParse(style: string, swapMs: nat, settleMs: nat,
                        show: Option<string>, scroll: Option<string>)
    requires PlainToken(style)
    requires show.Some? ==> PlainToken(show.value)
    requires scroll.Some? ==> PlainToken(scroll.value)
    ensures ParseSwapSpec(RenderSwapSpec(style, swapMs, settleMs, show, scroll))
         == Spec(style, swapMs as real, settleMs as real, show, scroll, false)
  {
    var tokens := RenderTokens(style, swapMs, settleMs, show, scroll);
    var s := RenderSwapSpec(style, swapMs, settleMs, show, scroll);
    RenderedTokens(style, swapMs, settleMs, show, scroll);
    var m := RenderModifierTokens(swapMs, settleMs, show, scroll);
    assert ModifierParts(s) == m;
    RenderedModifierValue(swapMs, settleMs, show, scroll, "swap");
    RenderedModifierValue(swapMs, settleMs, show, scroll, "settle");
    RenderedModifierValue(swapMs, settleMs, show, scroll, "show");
    RenderedModifierValue(swapMs, settleMs, show, scroll, "scroll");
    RenderedModifierValue(swapMs, settleMs, show, scroll, "focus-scroll");
    ModifiersFollowLastOccurrence(Defaults.(style := style), m);
    TimeSpec.ParseMilliseconds(swapMs);
    TimeSpec.ParseMilliseconds(settleMs);
  }
}
