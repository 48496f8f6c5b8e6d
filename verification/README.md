# wsx in Dafny

A model of the core of wsx, a WebSocket "hypermedia" framework. Elements of a page declare, through `wx-*` attributes, when to send a request to the server (`wx-send`, `wx-trigger`) and where the reply goes (`wx-target`, `wx-swap`). The server routes each request to a named handler and sends back markup. The browser swaps that markup into the page after an optional delay, and can also apply out-of-band updates to other elements.

The model covers five parts:

- **the two browser runtimes.** The full one (`landing/assets/wsx.js`) is modules `LandingClient` and `ClientCore`. The reduced one (`public/wsx.js`) is `PublicClient` and `ClientCore`.
- **the shared parsers:**
  - `TimeSpec` (`parseTime`);
  - `SwapSpec` (`parseSwapSpec`);
  - `TriggerSpec` (`parseTriggerSpec`).
- **the swap and scroll steps** (`Patch`) and the request payload (`RequestData`).
- **the two servers.** `packages/core/wsx-server.ts` is `ServerCore`; the older `src/wsx-server.ts` is `ServerLegacy`. Both share routing and fan-out, which live in `Dispatch`.
- **the `html` template helper** (`Template`).

`Text`, `Wrappers`, `Dom` and `Wire` hold the strings, options, element tree and message shapes they all use.

Modelling choices:

- **The page.** It is a finite map of element ids, each with a parent link and a depth. The depth keeps the parent relation acyclic.
- **Markup.** It is opaque: a swap records which strings went where.
- **Time.** It is explicit. `setTimeout` puts a timer into a map under a fresh handle, and `clearTimeout` removes it. `ClientCore.FireTimer(h)` is the step in which the browser runs timer `h`.
- **Browser and server services.** `querySelector`, `matches`, `JSON.parse`, the random element-id suffix and `Date.now()` become parameters.
- **Sends.** Each `send` is one entry of an output trace. This makes "exactly these responses, in this order" a postcondition.

## Model

| member | source | states |
|---|---|---|
| TimeSpec.ParseTime | landing/assets/wsx.js:411-421 | `undefined`, `""` and every token the anchored pattern `^(\d+(?:\.\d+)?)(ms|s)?$` rejects give 0. A matching token gives its number times 1000 for `s`, and the number itself for `ms` or no unit. The result is never negative. |
| TimeSpec.MatchTime | landing/assets/wsx.js:414-415 | A match is found exactly when some split of the token into a decimal number and a unit `""`, `ms` or `s` exists. The groups returned are that split. |
| TimeSpec.MatchUnique | landing/assets/wsx.js:414 | The pattern can split a token in only one way, so the value of a time token is well defined. |
| TimeSpec.ParseMilliseconds | landing/assets/wsx.js:411-421 | Round trip: `"<n>ms"` parses to n. |
| TimeSpec.ParseSeconds | landing/assets/wsx.js:417-420 | Round trip: `"<n>s"` parses to 1000·n. |
| TimeSpec.ParseBareNumber | public/wsx.js:241-251 | Round trip: a bare `"<n>"` parses to n, as milliseconds. |
| TimeSpec.ParseFractionalSeconds | public/wsx.js:245-250 | `"1.5s"` is 1500: a fractional mantissa is kept. |
| TimeSpec.ParseRejectsOtherUnits | landing/assets/wsx.js:414-415 | `"2m"` and `"-5ms"` degrade to 0. |
| SwapSpec.ParseSwapSpec | landing/assets/wsx.js:360-378 | An empty string gives the defaults `innerHTML`/0/20/null/null/false. A first token without `:` becomes the style verbatim, recognised or not. Otherwise the style stays `innerHTML`. Durations are non-negative, and show/scroll positions are non-empty. |
| SwapSpec.ApplyModifier | landing/assets/wsx.js:381-401 | One modifier token changes at most the field its key names. A key outside `swap`, `settle`, `show`, `scroll` and `focus-scroll` changes nothing. |
| SwapSpec.SwapFromLastOccurrence | landing/assets/wsx.js:386-388 | `swap` is `parseTime` of the value of the last `swap:` token, or its start value when there is none. |
| SwapSpec.SettleFromLastOccurrence | landing/assets/wsx.js:389-391 | The same for `settle`. |
| SwapSpec.ShowFromLastOccurrence | landing/assets/wsx.js:392-394 | `show` is the last `show` token's value, or `"top"` when that value is empty. |
| SwapSpec.ScrollFromLastOccurrence | landing/assets/wsx.js:395-397 | The same for `scroll`. |
| SwapSpec.FocusFromLastOccurrence | landing/assets/wsx.js:398-400 | `focus` follows the last `focus-scroll` token: on unless its value is exactly `false`. |
| SwapSpec.ModifiersFollowLastOccurrence | landing/assets/wsx.js:381-401 | The whole modifier loop: every field follows the last token carrying its key, and a later duplicate overwrites an earlier one. |
| SwapSpec.ParsedFieldsFromLastOccurrence | public/wsx.js:190-234 | The reduced runtime's identical parser gives each field its default unless a modifier token sets it, and then takes the last such token. |
| SwapSpec.ValuelessPositions | landing/assets/wsx.js:392-397 | `show`, `show:` and `scroll` with no value mean `"top"`. |
| SwapSpec.FocusScrollFlag | landing/assets/wsx.js:398-400 | `focus-scroll` and `focus-scroll:no` switch focus on; `focus-scroll:false` switches it off. |
| SwapSpec.FocusScrollWith | landing/assets/wsx.js:398-400 | For any colon-free value v, `focus-scroll:v` sets focus to `v != "false"`. |
| SwapSpec.RenderThenParse | landing/assets/wsx.js:360-404 | Round trip: a directive written as `style swap:<a>ms settle:<b>ms [show:x] [scroll:y]` parses back to exactly those values. |
| TriggerSpec.MatchEventPart | landing/assets/wsx.js:527-528 | `^(\w+)(?:\[([^\]]+)\])?$`: a bare word matches with no condition. `word[cond]` matches with the bracket's content as the condition. Anything else does not match. |
| TriggerSpec.EventPartRoundTrip | landing/assets/wsx.js:527-535 | Round trip: rendering an event name with an optional `[condition]` and matching it gives both back. |
| TriggerSpec.ApplyModifier | landing/assets/wsx.js:537-565 | One modifier token changes at most the field its key names. Unknown keys change nothing. |
| TriggerSpec.ParseClause | landing/assets/wsx.js:521-568 | When the first token does not match, the event is `"click"` with no condition. Otherwise it is the matched name and condition. The modifiers come from the remaining tokens. |
| TriggerSpec.ParseTriggerSpec | landing/assets/wsx.js:518-522 | The empty string gives the single default click clause. Otherwise there is one clause per comma-separated part: the number of commas plus one. |
| TriggerSpec.ClausesOfJoin | landing/assets/wsx.js:521 | Joining comma-free clause texts with `,` and parsing the result parses each text on its own, in order. |
| TriggerSpec.OnceFromAnyToken | landing/assets/wsx.js:540-542 | `once` is set iff some modifier token has key `once`. |
| TriggerSpec.ChangedFromAnyToken | landing/assets/wsx.js:543-545 | `changed` is set iff some token has key `changed`. |
| TriggerSpec.ConsumeFromAnyToken | landing/assets/wsx.js:558-560 | `consume` is set iff some token has key `consume`. |
| TriggerSpec.DelayFromLastOccurrence | landing/assets/wsx.js:546-548 | `delay` is `parseTime` of the last `delay:` value. |
| TriggerSpec.ThrottleFromLastOccurrence | landing/assets/wsx.js:549-551 | `throttle` is `parseTime` of the last `throttle:` value. |
| TriggerSpec.FromFromLastOccurrence | landing/assets/wsx.js:552-554 | `from` is the last `from:` value. |
| TriggerSpec.TargetFromLastOccurrence | landing/assets/wsx.js:555-557 | `target` is the last `target:` value. |
| TriggerSpec.QueueFromLastOccurrence | landing/assets/wsx.js:561-563 | `queue` is the last `queue:` value, or `"last"` when it is empty. |
| TriggerSpec.UnknownModifiersIgnored | landing/assets/wsx.js:537-565 | Inserting a token with an unrecognised key anywhere among the modifiers changes nothing. |
| TriggerSpec.BareEventName | landing/assets/wsx.js:518-535 | A bare event name parses to exactly one clause of that event, with no condition and no modifiers. |
| TriggerSpec.ClauseRoundTrip | landing/assets/wsx.js:521-568 | Round trip: an event part followed by whitespace-free modifier tokens parses to that event, that condition and those modifiers. |
| Dom.Ancestors | landing/assets/wsx.js:492-509 | The chain from an element through each `parentElement` ends at an element without a parent element. Each step moves to the parent, and depth strictly decreases along it. |
| Dom.AncestorsDistinct | landing/assets/wsx.js:492-509 | The walk visits no element twice. |
| Dom.ContainsIffOnChain | landing/assets/wsx.js:597-599 | `a.contains(b)` holds exactly when `a` lies on `b`'s ancestor chain. |
| Dom.AncestorsSameShape | landing/assets/wsx.js:492-509 | Attribute writes made during the walk do not change the chain still to be walked. |
| LandingClient.CtrlKeyConditionNeverFires | landing/assets/wsx.js:579-589 | With Control held and key `"Control"`, `[ctrlKey]` fails as written but holds under the intended test. |
| LandingClient.CtrlKeyConditionIsTheFlag | landing/assets/wsx.js:582 | Under the intended test, `[ctrlKey]` holds exactly when the event's ctrlKey flag is set. |
| LandingClient.AsWrittenNeedsLiteralKey | landing/assets/wsx.js:582-589 | As written, a flag-name condition passes only when `event.key` is literally that name. On every other condition the written and intended tests agree. |
| LandingClient.ShouldTrigger | landing/assets/wsx.js:574-619 | The runtime gate, with the condition test as written. It accepts iff all five gates pass: the clause event equals the dispatched event; a non-empty condition holds as written; a non-empty `from` selector is found and contains the event target; the target matches a non-empty `target` selector; and `changed` does not see a form field whose value equals its recorded one. An acceptance changes only the element's recorded last value. |
| LandingClient.ShouldTriggerIntended | landing/assets/wsx.js:579-594 | The same gate with the intended condition test: a failing intended condition rejects, and otherwise the result is the runtime gate's result with the condition removed. |
| LandingClient.IntendedGateAgreesOffFlags | landing/assets/wsx.js:582-589 | When the condition is not one of the four flag names, the runtime gate and the intended gate give the same result. |
| LandingClient.CtrlKeyClauseGate | landing/assets/wsx.js:579-594 | For `keyup[ctrlKey]` and a keyup with Control held, the runtime gate rejects and the intended gate accepts without changing the tree. |
| LandingClient.ChangedFiresOnNewValue | landing/assets/wsx.js:607-616 | A `changed` clause fires iff the value differs from the recorded one. Right after firing, the same value is rejected. |
| LandingClient.BranchOf | landing/assets/wsx.js:628-679 | Exactly one branch, chosen on the tree before the `once` flag is written, in this order. The clause is skipped iff it is `once` and the element's flag is already truthy. Then come `delay`; `throttle`, dropped iff its key is pending; `queue`, when present and truthy; and otherwise immediate. |
| LandingClient.ArmThrottle | landing/assets/wsx.js:654-657 | Opening a throttle window keeps the client invariant. The key names one new expiry timer, due after the throttle time, and every earlier timer stays. |
| LandingClient.CancelQueued | landing/assets/wsx.js:665-667 | `clearTimeout` of a key's queued request removes exactly that timer, and nothing when the key has none. The invariant is kept. |
| LandingClient.ArmQueued | landing/assets/wsx.js:669-674 | Queuing under a free key registers one request timer 300 ms out under a fresh handle and names it by the key. Every other timer stays and the invariant is kept. |
| LandingClient.Marked | landing/assets/wsx.js:625-632 | Only element n changes. It keeps or gets an id, and a `once` clause leaves its triggered flag set. |
| LandingClient.RunBranch | landing/assets/wsx.js:643-679 | Runs the chosen branch. A skipped or dropped occurrence changes nothing. A delay adds one request timer and sends nothing. A queue sends nothing. A throttle that fires, and the immediate branch, send what `handleTrigger` sends. The tree is never changed. |
| LandingClient.ProcessTrigger | landing/assets/wsx.js:624-680 | Keeps the client invariant, and changes the tree only by the id and once writes. Per branch: a skipped or dropped occurrence leaves sent requests and timers alone; delay and queue send nothing; a firing throttle and the immediate branch send exactly one request when connected. |
| LandingClient.OnceIsPerElement | landing/assets/wsx.js:628-632 | After any `once` clause was processed on an element, its flag is set and every later `once` clause on it is a no-op. When the flag was not yet set, the first `once` clause sends and schedules exactly what the same clause without `once` would. |
| LandingClient.OnceFirstRunsPlain | landing/assets/wsx.js:628-632 | The first `once` clause on an element, with the flag not yet set, sends and schedules exactly what the same clause without `once` would. |
| LandingClient.OnceSendsExactlyOnce | landing/assets/wsx.js:628-679 | An immediate `once` clause on a connected client sends exactly one request, and processing it again sends nothing. |
| LandingClient.RunBranchIgnoresOnceFlag | landing/assets/wsx.js:628-632 | Writing the element's `data-wsx-triggered` flag before a branch runs changes neither what the branch sends nor its timers. |
| LandingClient.OnceFlagNotSent | landing/assets/wsx.js:737-742 | The `data-wsx-triggered` flag is not part of the request `handleTrigger` sends. |
| LandingClient.DelayKeepsEarlierTimers | landing/assets/wsx.js:643-647 | Unless a spent `once` skips it, a truthy delay sends nothing, adds one request timer under a fresh handle, and keeps every earlier timer. |
| LandingClient.ThrottleWindow | landing/assets/wsx.js:649-659 | Unless a spent `once` skips it: with the key free, the request is sent at once and the key is armed with an expiry timer. A second occurrence while it is armed sends nothing and arms nothing. |
| LandingClient.ThrottleReopens | landing/assets/wsx.js:649-659 | Once the throttle's expiry timer has run, the next occurrence sends again, unless the clause is `once`, whose flag is now set. |
| LandingClient.QueueKeepsOnlyLatest | landing/assets/wsx.js:663-676 | Unless a spent `once` skips it, nothing is sent. The key's previous queued timer is gone, and exactly one queued request, due 300 ms out, remains for the key. |
| LandingClient.ImmediateSends | landing/assets/wsx.js:678-679 | Unless a spent `once` skips it, with no timing modifier exactly one request `req_<counter+1>` is sent and no timer is added. |
| LandingClient.FirstMatch | landing/assets/wsx.js:498-507 | Finds the first clause whose gate accepts; every earlier clause was rejected. When there is none, all were rejected. |
| LandingClient.Visit | landing/assets/wsx.js:494-508 | An element without `wx-send`, or one where no clause accepts, changes nothing. |
| LandingClient.Walk | landing/assets/wsx.js:493-510 | The walk up the `parentElement` chain ends: the invariant and the tree's shape are kept, and nothing is sent to the scroll log. |
| LandingClient.WalkVisitsEveryAncestor | landing/assets/wsx.js:489-511 | The walk visits the target and every ancestor in order and does not stop after a match. |
| LandingClient.DefaultTriggerIsEventName | landing/assets/wsx.js:494-496 | Without `wx-trigger`, the one clause is the dispatched event's name, and it is the first match. |
| LandingClient.HandleEvent | landing/assets/wsx.js:473-511 | An event keeps the client invariant, the tree's shape and the scroll log. An event that is not one of the eight listened types that bubble to the document changes nothing. |
| LandingClient.UnlistenedEventsIgnored | landing/assets/wsx.js:475-481 | `dblclick` and `mouseenter` are not listened for, and `focus`, `blur`, `load` and `scroll` on an element never bubble to the document listener, so each leaves the client unchanged. |
| LandingClient.ClickWalks | landing/assets/wsx.js:475-511 | A click runs the ancestor walk from its target. |
| LandingClient.Updates | landing/assets/wsx.js:245-259 | The primary update (with `swap || 'innerHTML'`) comes first, then each `oob` entry in array order. Only the OOB ones are flagged OOB. |
| LandingClient.SwapTimer | landing/assets/wsx.js:271-277 | An update arms a swap timer iff its target is found. A missing target skips only that update. |
| LandingClient.ArmInOrder | landing/assets/wsx.js:254-259 | Registering swap timers keeps every earlier timer, puts the new ones under consecutive handles in order, and adds nothing else. |
| LandingClient.ArmAllRegisters | landing/assets/wsx.js:245-259 | Processing the updates registers exactly their swap timers, in order. |
| LandingClient.HandleMessage | landing/assets/wsx.js:245-263 | The pending entry for `message.id` is always deleted, whatever was found. The invariant is kept, and only pending entries and timers change. |
| LandingClient.HandleMessageSchedules | landing/assets/wsx.js:245-263 | The timers after a message are the earlier ones plus the swap timers of the found updates, in order. |
| LandingClient.OnlyPrimaryScrolls | landing/assets/wsx.js:312-315 | Every armed swap after the first is OOB. The first is the primary one (the scrolling one) iff the primary target was found. |
| ClientCore.HandleTrigger | landing/assets/wsx.js:703-770 | Does nothing when not connected. Otherwise it sends exactly one request `req_<n+1>`: handler `""`, target `"body"`, swap `"innerHTML"` and the event as trigger by default. The payload is the merged data, and the request is recorded as pending. |
| ClientCore.HandleTriggerFreshId | landing/assets/wsx.js:744-753 | A request's id differs from every earlier request's id. |
| ClientCore.RequestIdsDistinct | landing/assets/wsx.js:744-753 | Under the invariant, no two sent requests share an id. |
| ClientCore.SettleDelay | landing/assets/wsx.js:300 | `settle || 20`: a parsed 0 becomes 20, and any other value is kept. |
| ClientCore.Directive | landing/assets/wsx.js:279-280 | An absent or empty swap parses as `innerHTML`. The directive is always well formed. |
| ClientCore.ProcessSwapUpdate | landing/assets/wsx.js:271-320 | A missing target changes nothing. A found one gets one swap timer, due after the directive's `swap` delay, carrying the OOB flag. |
| ClientCore.RunApply | landing/assets/wsx.js:296-303 | A firing swap timer performs the swap. When it does not throw, it arms the settle step after `settle || 20`; when it throws, nothing more happens. |
| ClientCore.RunRequestJob | landing/assets/wsx.js:639-676 | A delayed or queued request that fires consumes its timer, and when queued its key (as at line 670). It keeps the invariant. When connected it sends exactly one new request `req_<counter+1>`, with the element's `wx-send` (or `""`) as handler and its `wx-trigger` (or the event) as trigger. When not connected it sends nothing. |
| ClientCore.RunSettle | landing/assets/wsx.js:303-317 | The settle step scrolls only for a non-OOB update, and as `handleShowScroll` says. |
| ClientCore.FireTimer | landing/assets/wsx.js:639-676 | A fired timer is consumed and the invariant kept. A throttle expiry frees its key and sends nothing. A queued request frees its key. A delayed or queued request sends exactly one request `req_<counter+1>` when connected and nothing otherwise. Swap and settle steps send nothing. An unknown handle does nothing, and OOB settle steps never scroll. |
| ClientCore.Initial | landing/assets/wsx.js:37-55 | A fresh client satisfies the invariant. |
| RequestData.FromEntries | landing/assets/wsx.js:717-719 | `Object.fromEntries`: the keys are exactly the entry names. |
| RequestData.BookkeepingWriteNotSent | landing/assets/wsx.js:737-742 | Writing an attribute whose name starts with `data-wsx` does not change the payload. |
| RequestData.FromEntriesLastWins | landing/assets/wsx.js:717-719 | A later entry with the same name overwrites an earlier one. |
| RequestData.ElementData | landing/assets/wsx.js:717-723 | A form gives its entries. An input, textarea or select gives its value under `name`, or under `"value"` when it has none. Any other element gives nothing. |
| RequestData.WithJson | landing/assets/wsx.js:725-734 | Valid `wx-data` JSON adds its keys. Invalid or absent JSON leaves the data unchanged. |
| RequestData.DataAttributes | landing/assets/wsx.js:736-742 | Exactly the `data-*` attributes not starting with `data-wsx`, keyed without the `data-` prefix. |
| RequestData.BookkeepingNotSent | landing/assets/wsx.js:738 | The runtime's own `data-wsx-triggered` and `data-wsx-last-value` never reach the payload. |
| RequestData.BuildPrecedence | landing/assets/wsx.js:714-742 | Key by key: a `data-*` attribute (full runtime only) beats `wx-data`, which beats the element's own data. A key none has is absent. |
| Patch.StyleOf | landing/assets/wsx.js:322-353 | Any style the switch does not list is the `innerHTML` branch. |
| Patch.EditTarget | landing/assets/wsx.js:329-349 | The swap throws exactly for `outerHTML` on the root, and for `beforebegin`/`afterend` next to an element without a parent element. |
| Patch.PerformSwap | landing/assets/wsx.js:322-353 | The same throwing condition. Otherwise the element set and well-formedness are kept, and only the target changes (with `innerHTML`, also its former children). |
| Patch.InsertPositions | public/wsx.js:162-173 | The four insert positions add the markup at the named boundary only, and keep the rest of the element's markup in order. |
| Patch.InnerSwap | public/wsx.js:156-158 | `innerHTML`: the content becomes exactly the markup, and the former child elements leave the document. |
| Patch.UnknownStyleIsInner | public/wsx.js:180-181 | An unrecognised style behaves exactly like `innerHTML`. |
| Patch.DeleteAndNone | public/wsx.js:174-179 | `delete` detaches the element and changes nothing else; `none` changes nothing. |
| Patch.BlockOf | public/wsx.js:284-298 | top→start, bottom→end, center→center, anything else→nearest. |
| Patch.BlockNameRoundTrip | public/wsx.js:284-298 | The three named positions map back to their alignments. |
| Patch.ShowScroll | public/wsx.js:258-270 | Nothing unless show or scroll is set. Show wins over scroll. When either is `"window"`, the window scrolls, and to the bottom only for `"bottom"`. |
| Patch.ShowBeatsScroll | landing/assets/wsx.js:428-440 | With `show` set, the scroll goes to the position `show` names, whatever `scroll` says. `scroll` matters only when it names `window`: then the window scrolls instead of the element, to the bottom iff `show` is `bottom`. |
| PublicClient.Listener | public/wsx.js:303-343 | A listener acts only when the event target itself has `wx-send`, and only for click, submit, input and keyup. |
| PublicClient.Route | public/wsx.js:303-343 | A routed event sends at most one request and changes no timer, tree or scroll. |
| PublicClient.NoAncestorWalk | public/wsx.js:305-311 | A target without `wx-send` sends nothing, whatever its ancestors carry. |
| PublicClient.ClickAndSubmitSend | public/wsx.js:305-320 | Click and submit on a `wx-send` element send exactly one request when connected. |
| PublicClient.InputRouting | public/wsx.js:323-331 | An input event sends iff `wx-trigger` is present and contains `input` or `change`. |
| PublicClient.KeyupRouting | public/wsx.js:334-342 | A keyup sends iff `wx-trigger` is present and contains `keyup`. |
| PublicClient.OtherEventsIgnored | public/wsx.js:303-343 | No other event type (`change` included) does anything. |
| PublicClient.NoDataAttributes | public/wsx.js:356-375 | The payload is the element's data overridden by `wx-data` only: no `data-*` collection. |
| PublicClient.HandleMessage | public/wsx.js:110-150 | A missing target returns before the pending entry is deleted. A found one arms the single swap (never OOB) and deletes the entry. |
| PublicClient.MissingTargetKeepsPending | public/wsx.js:113-116 | For a missing target, the reduced runtime keeps the pending entry and the full one drops it. |
| Dispatch.On | packages/core/wsx-server.ts:110-122 | `on(name, f)` registers f under name, replacing any handler there, and leaves every other key unchanged. |
| Dispatch.OnCatchAll | src/wsx-server.ts:172-175 | `on(f)` registers f under `""`. |
| Dispatch.Route | packages/core/wsx-server.ts:45-61 | The named handler when `request.handler` is non-empty and registered. Otherwise the `""` catch-all when registered. Otherwise none. |
| Dispatch.NamedBeatsCatchAll | packages/core/wsx-server.ts:47-51 | A registered named handler is used even when a catch-all exists. |
| Dispatch.FallThrough | src/wsx-server.ts:100-116 | An empty or unregistered name goes to the catch-all. With no catch-all, nothing is sent. |
| Dispatch.Replies | packages/core/wsx-server.ts:63-97 | No reply for a falsy result; one response for a single result; each array element in order; one error response for a throw. |
| Dispatch.ErrorResponse | packages/core/wsx-server.ts:86-93 | The error response carries the request's id and target, swap `innerHTML`, and the message in the error markup. |
| Dispatch.ThrowYieldsOneError | src/wsx-server.ts:137-151 | A throwing handler yields exactly one response, at `request.id` and `request.target`. |
| Dispatch.HandleRequest | src/wsx-server.ts:100-152 | The responses a request gets are those of the routed handler's outcome, or none without a route. |
| Dispatch.OnOtherNameKeepsRoute | packages/core/wsx-server.ts:114-116 | Registering under another name does not change how a named request is routed. |
| Dispatch.SendAll | packages/core/wsx-server.ts:74-79 | Each response goes to the connection, in order. |
| Dispatch.Remove | packages/core/wsx-server.ts:171 | `Map.delete`: exactly that id goes, distinct ids stay distinct, the size drops by one for a present id, and an absent id changes nothing. |
| Dispatch.RemoveAt | packages/core/wsx-server.ts:171 | With distinct ids, deleting the id at position k gives the ids before k followed by the ids after k. |
| Dispatch.RemoveKeepsOrder | packages/core/wsx-server.ts:171 | With distinct ids, deleting a present id cuts out exactly its position, and the ids before and after it keep their order. |
| Dispatch.RemoveLast | packages/core/wsx-server.ts:171 | Deleting the id registered last restores the registry. |
| Dispatch.DistinctCount | packages/core/wsx-server.ts:164-166 | The number of registry entries is the number of distinct ids. |
| Dispatch.SwapOrDefault | packages/core/wsx-server.ts:129 | `swap || 'innerHTML'`. |
| Dispatch.BroadcastResponse | packages/core/wsx-server.ts:124-130 | The broadcast response carries the given target and markup, a swap defaulting to `innerHTML`, and an id `broadcast_` followed by the time stamp. |
| Dispatch.DirectResponse | packages/core/wsx-server.ts:145-150 | The same for `sendToConnection`, whose id starts with `direct_` instead. |
| Dispatch.Fanout | packages/core/wsx-server.ts:132-134 | The same response goes to every connection, in registration order. |
| Dispatch.SendTo | packages/core/wsx-server.ts:143-153 | One send to a registered id, none otherwise. |
| ServerCore.Create | packages/core/wsx-server.ts:3-14 | A fresh server has no connections or handlers, and a zero counter. |
| ServerCore.LifecycleHooks | packages/core/wsx-server.ts:28-35 | The config callback runs first, then the adapter callback, each only when defined. |
| ServerCore.Register | packages/core/wsx-server.ts:23-36 | A known id changes nothing. A new id is appended, and the connection callbacks fire once. |
| ServerCore.RegisterIdempotent | packages/core/wsx-server.ts:24 | Registering twice is registering once. |
| ServerCore.OnMessage | packages/core/wsx-server.ts:18-42 | Unparsable data changes nothing, not even registration. Otherwise the connection is registered, then the routed responses are sent to it. |
| ServerCore.On | packages/core/wsx-server.ts:110-122 | Only the handler table changes: `on(name, f)` sets name, and `on(f)` sets `""`. |
| ServerCore.RemoveConnection | packages/core/wsx-server.ts:168-182 | An unknown id is a no-op. A known id loses exactly its entry (count minus one), and the config then the adapter disconnection callbacks fire. |
| ServerCore.RegisterThenRemove | packages/core/wsx-server.ts:168-182 | Removing a just-registered new connection restores the registry. |
| ServerCore.Broadcast | packages/core/wsx-server.ts:124-135 | Exactly one send per registered connection, in order, all of the same response. |
| ServerCore.SendToConnection | packages/core/wsx-server.ts:137-154 | An unknown id sends nothing. A known id gets exactly one response. |
| ServerCore.GenerateConnectionId | packages/core/wsx-server.ts:184-186 | The counter goes up by one and names the id `conn_<counter>`. |
| ServerCore.GenerateIds | packages/core/wsx-server.ts:184-186 | k calls return k distinct ids, none equal to any id issued before them. |
| ServerCore.ConnectionCount | packages/core/wsx-server.ts:164-166 | The count is the number of distinct registered ids. |
| ServerLegacy.FindConnection | src/wsx-server.ts:92-98 | A socket finds a connection iff it is mapped, and then the mapped id is registered. |
| ServerLegacy.NextIdIsFresh | src/wsx-server.ts:56 | The id the counter mints next is not registered. |
| ServerLegacy.Attach | src/wsx-server.ts:53-68 | A mapped socket keeps its connection. An unmapped one gets exactly one new connection `conn_<counter+1>`, mapped and appended. |
| ServerLegacy.OnMessage | src/wsx-server.ts:48-74 | Unparsable data changes nothing. Otherwise the socket is attached, then the routed responses are sent to its connection. |
| ServerLegacy.SecondMessageReuses | src/wsx-server.ts:54-55 | A second message on the same socket creates no connection. |
| ServerLegacy.DistinctSocketsDistinctIds | src/wsx-server.ts:54-66 | Two new sockets get two distinct connections. |
| ServerLegacy.OnClose | src/wsx-server.ts:76-83 | A known socket loses both its mapping and its registry entry (count minus one). An unknown one changes nothing. |
| ServerLegacy.Broadcast | src/wsx-server.ts:179-190 | Every registered connection receives the same response, in order. |
| ServerLegacy.SendToConnection | src/wsx-server.ts:192-209 | An unknown id is a no-op. A known id gets one response. |
| ServerLegacy.ConnectionCount | src/wsx-server.ts:219-221 | The count is the number of distinct registered ids, which equals the number of registered sockets. |
| ServerLegacy.Create | src/wsx-server.ts:34-37 | A fresh server has no connections and a zero counter, and it satisfies the registry invariant: distinct ids, each mapped from exactly one socket and issued by the counter. |
| Template.Render | packages/core/utils.ts:2 | `0`, `false`, `""`, `null` and `undefined` render as the empty string. A non-empty string renders verbatim, and a non-zero number as its decimal form. |
| Template.HtmlLoop | packages/core/utils.ts:1-2 | The `reduce` loop computes the fold. A single chunk with no values comes back unchanged. |
| Template.HtmlIsInterleave | packages/core/utils.ts:1-2 | The left fold equals the chunks interleaved in order with the rendered values. |
| Template.HtmlAppend | packages/core/utils.ts:2 | A further chunk appends itself and the value in its position. |
| Template.FalsyValuesVanish | packages/core/utils.ts:2 | When every value is falsy, the output is the chunks concatenated. |
| Template.SingleChunk | packages/core/utils.ts:1-2 | With no interpolations, the output is the single literal chunk. |
| Template.ExtraValuesIgnored | packages/core/utils.ts:2 | `reduce` runs once per chunk, so only as many values as there are chunks are read: appending further values changes nothing. |
| Template.StringsVerbatim | packages/core/utils.ts:2 | Non-empty string values appear verbatim between the chunks, with no escaping. |
| Template.MarkupAndZero | packages/core/utils.ts:1-2 | `html` of `<p>${"<b>x</b>"} ${0}</p>` is `<p><b>x</b> </p>`. |
| Text.SplitJoinRoundTrip | landing/assets/wsx.js:521 | `split(',')` then `join(',')` is the identity, and the number of parts is one more than the number of commas. |
| Text.Words | landing/assets/wsx.js:523 | `trim().split(/\s+/)` of a string with some non-space character: every part is non-empty and holds no whitespace. |
| Text.SplitOnJoin | landing/assets/wsx.js:521 | `join` then `split` on a separator no part holds gives the parts back. |
| Text.KeyValue | landing/assets/wsx.js:382 | `part.split(':')` destructured: the text before the first colon, and the text up to the next colon (`undefined` without a colon). |
| Text.PrefixedNumberInjective | landing/assets/wsx.js:745 | `prefix + n` names are distinct for distinct n. |

## Left out

- I/O and the transport are not modelled. This covers the WebSocket connection and its `onOpen`/`onClose`/`onError` handlers, reconnection (`scheduleReconnect`, `reconnect`, `disconnect`), the `send` wrapper's check of `ws`, `JSON.stringify`, and logging. A request counts as sent when the client is connected.
- `JSON.parse` is a parameter. On the server, `None` stands for a parse failure, which drops the message before registration.
- Demo mode (`enableDemoMode`, `generateDemoResponse`) is left out, because it uses `Math.random` and canned markup.
- `setupIntersectionObserver` and the `intersect` trigger are not modelled; they depend on the browser's visibility tracking.
- The programmatic `trigger(selector, data)` API of both runtimes is not modelled. It writes `wx-data` and calls `handleTrigger` with event `programmatic`.
- Custom events (`wsx:beforeSwap`, `wsx:afterSwap`, `wsx:beforeRequest`) are not modelled. They are dispatched but nothing in the core listens to them.
- Timer ordering is not modelled. `FireTimer` may run any pending timer, so "a 300 ms timer fires after a 200 ms one" is not expressed, and the throttle and queue properties are stated per step rather than over a clock.
- Real DOM parsing is not modelled. Markup inserted by a swap never creates new elements. `outerHTML` and `delete` detach the element, but its object stays addressable, as a timer's closure keeps it.
- `querySelector`, `matches` and the random id suffix are parameters of `Host`, and `Date.now()` is the `stamp` parameter of `broadcast`/`sendToConnection`.
- `preventDefault` on submit and click has no effect in the model.
- `async`/`await` is left out: each handler invocation is one atomic step, with no interleaving between handlers or connections.
- A failing `connection.send` is not modelled. The source swallows the error, so a send failure only loses that one message.
- `parseFloat` is modelled on exact reals, not IEEE doubles.
- The hono and express adapters, and `getApp`/`getConnections`, are not modelled. They are plumbing that returns internal state.
- The `isConnected()` method of both runtimes is unusable: the constructor's `isConnected` field shadows it, so calling it is a `TypeError`. The model has the field only.
- LandingClient.HandleEvent: states invariant and shape preservation and the listener filter only. What each visited element does is stated by `Visit`, `FirstMatch` and `WalkVisitsEveryAncestor`.
- `focus`, `blur`, `load` and `scroll` dispatched on the document or window itself would reach the listener, but have no element to walk; the model gives every such event no effect.
- Exceptions from `querySelector` and `matches` are not modelled: the host's selector functions are total. In the source an invalid selector throws. In `handleMessage` that aborts the remaining OOB updates and the pending delete. In `shouldTrigger` it ends the ancestor walk.
- A throwing `config.onConnection` or adapter callback is not modelled. In the source it skips the rest of the registration, including the handler.
- A request body whose JSON parses to `null` or to a non-object is not modelled. In the source it is registered and then throws on property access; the model's parse result is a record or a failure.
- Template interpolation of numbers covers integers only. Floating-point formatting is not modelled.
- ClientCore.FireTimer: the scroll log is pinned down for settle steps only through `RunSettle`, not in `FireTimer`'s own contract.

## Behaviour worth knowing

- **The ancestor walk.** It does not stop at the first ancestor that matches. Every ancestor carrying `wx-send` processes its own first matching clause (`LandingClient.WalkVisitsEveryAncestor`).
- **`consume`.** It calls `stopPropagation` on an event that is already at the document listener. That does not end the runtime's own ancestor walk, so `consume` has no effect here.
- **`once`.** The flag is per element, not per clause: one `data-wsx-triggered` attribute is shared by every `once` clause of the element. The first `once` clause to be processed on an element runs exactly as it would without `once`, and every later `once` clause on that element does nothing (`LandingClient.OnceIsPerElement`, `LandingClient.OnceSendsExactlyOnce`).
- **Listened events.** The document listens for twelve event types. `focus`, `blur`, `load` and `scroll` do not bubble from elements, so only the other eight reach the ancestor walk (`LandingClient.UnlistenedEventsIgnored`).
- **Flag-name conditions.** `[ctrlKey]`, `[shiftKey]`, `[altKey]` and `[metaKey]` must also equal `event.key`, so they never fire in practice; see Findings.
- **Unrecognised condition forms.** They do not fail closed. A condition that is neither a single word nor mentions a flag name always passes.
- **`changed`.** It records the new value only when the earlier gates passed and the value differs.
- **Failed structural swaps.** They are not caught: `outerHTML` on the root, and `beforebegin`/`afterend` next to an element without a parent element, throw inside the timer callback. The settle step then never runs (`ClientCore.RunApply`).
- **An empty `wx-trigger`.** It falls back to the dispatched event's name, through `|| eventType` in `handleEvent`. It never reaches `parseTriggerSpec`'s own `click` default.
- **The pending entry.** The reduced runtime deletes it only when the target is found (`PublicClient.MissingTargetKeepsPending`).

## Findings

| source | as written | input that shows it | evidently intended | confidence | as-written member | corrected member |
|---|---|---|---|---|---|---|
| landing/assets/wsx.js:582-589 | After the flag tests, every single-word condition must also equal `event.key`, and `ctrlKey`, `shiftKey`, `altKey` and `metaKey` are single words. | `keyup[ctrlKey]` with Control held: the key is `"Control"`, never `"ctrlKey"`, so the clause never fires (`LandingClient.CtrlKeyConditionNeverFires`). | A flag-name condition is satisfied by its flag alone, and only other single words name a key (`LandingClient.CtrlKeyConditionIsTheFlag`). The runtime gate `LandingClient.ShouldTrigger` keeps the test as written; `LandingClient.ShouldTriggerIntended` uses the intended one, and `LandingClient.CtrlKeyClauseGate` shows the two gates disagree on `keyup[ctrlKey]`. | high, not executed | LandingClient.ConditionHoldsAsWritten | LandingClient.ConditionHolds |
