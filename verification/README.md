# A verified model of `Event<T>` (jtjs-event)

The library is one class, `Event<T>` in `lib/event.ts`: a synchronous
publish/subscribe primitive. An event holds an ordered list of listener
records, each a handler plus a `once` flag. `subscribe` and `once` append a
record and hand back an unsubscription function; `unsubscribe(handler)`
replaces the list with a copy filtered by handler identity; `trigger(...args)`
runs `forEach` over the list, invokes every handler with `args`, and
unsubscribes the handler of every `once` record right after invoking it.

The model (`events.dfy`, module `Events`) is functional:

- handlers are values of a type parameter `H` compared by equality, standing in
  for JavaScript function identity (`!==`);
- the arguments of `trigger` are one opaque value of a type parameter `A`;
- an `Event<H>` is an immutable value holding `seq<Listener<H>>`, and every
  operation returns the new event;
- an unsubscription function is an `Unsubscription<H>` datatype remembering its
  handler; `CallToken` applies it to the event as it is when it is called,
  which is what the closure over `this` does;
- `Trigger` returns a `Fired` value: the trace of invocations made, as
  `(handler, args)` pairs in order, together with the event afterwards.

`trigger` is modelled step by step by `Pass`. Because `unsubscribe` assigns a
new filtered array to `this.listeners` while `forEach` keeps walking the array
it started on, the pass iterates a snapshot taken at the start. Every entry
present at the start is invoked, including a later duplicate of a `once`
handler that an earlier removal already took out of the live list.
`PassClosedForm` proves that this loop equals a closed form: one invocation
per snapshot entry, and the snapshot minus every listener whose handler has a
`once` entry in it. `Trigger` states that closed form as its contract.

`scenarios.dfy` (module `EventScenarios`) restates the cases of
`lib/spec/event.spec.ts` as lemmas over concrete numeric handlers. It also
states the duplicate-handler snapshot case.

A consequence of the code is that an entry taken out of the live list during a
pass is still invoked. `unsubscribe` assigns a new filtered array
(lib/event.ts:72), while `forEach` keeps walking the array it started on
(lib/event.ts:81). So a duplicate entry whose handler an earlier `once` entry
already removed is still invoked, as `SnapshotInvokesRemovedDuplicate` shows.

## Model

| member | source | states |
|---|---|---|
| Events.RemoveHandlersSpec | lib/event.ts:71-73 | `RemoveHandlers` is the filter behind `unsubscribe`: every survivor comes from the input and has a handler outside the removed set; each listener whose handler is kept appears as often as before; nothing changes when no handler matches |
| Events.RemoveHandlersAppend | lib/event.ts:72 | filtering keeps relative order: filtering a concatenation is concatenating the filtered parts |
| Events.RemoveHandlersCompose | lib/event.ts:84-86 | two successive removals equal one removal of the union of their handler sets, which is how repeated unsubscribes inside a pass add up |
| Events.RemoveHandlersKeepsEntries | lib/event.ts:72 | a handler that is not removed keeps its number of listeners |
| Events.New | lib/event.ts:20-22 | a new event has an empty listener list |
| Events.Subscribe | lib/event.ts:32-40 | the list grows by exactly one record `{once: false, handler: h}` at the end; all earlier records are unchanged and in order; the returned unsubscription function is for `h` |
| Events.Once | lib/event.ts:53-61 | the list grows by exactly one record `{once: true, handler: h}` at the end; all earlier records are unchanged and in order; the returned unsubscription function is for `h` |
| Events.UnsubscribeSpec | lib/event.ts:71-73 | `Unsubscribe(e, h)` models `unsubscribe(handler)`: afterwards no record has handler `h`; no record is added; every record of another handler is kept with its multiplicity; a no-op when `h` is absent |
| Events.CallToken | lib/event.ts:38-40 | calling an unsubscription function leaves no record of its handler and keeps every other record |
| Events.TokenIsUnsubscribe | lib/event.ts:59-61 | the functions returned by `subscribe(h)` and `once(h)` act exactly as `unsubscribe(h)` on the event as it is when they are called |
| Events.UnsubscribeUndoesSubscribe | lib/event.ts:71-73 | `unsubscribe(h)` restores the event that `subscribe(h)` or `once(h)` started from, when `h` was not subscribed before |
| Events.UnsubscribeIdempotent | lib/event.ts:49-51 | unsubscribing a handler that is already gone has no effect |
| Events.UnsubscribeKeepsOrder | lib/event.ts:72 | `unsubscribe` keeps the relative order of the survivors: unsubscribing from a concatenation is concatenating the results |
| Events.UnsubscribeKeepsOthers | lib/event.ts:72 | `unsubscribe(h)` keeps every listener of every other handler |
| Events.Invocations | lib/event.ts:81-82 | the invocations of a pass over a list: exactly one per record |
| Events.InvocationsAt | lib/event.ts:81-82 | a pass over a list makes one invocation per record, in list order, each with the same arguments |
| Events.PassClosedForm | lib/event.ts:80-88 | `Pass` models the `forEach` of `trigger`; the pass over the starting snapshot, unsubscribing each `once` handler after its call, produces one invocation per snapshot entry and leaves the starting list minus all handlers of `once` entries |
| Events.Trigger | lib/event.ts:80-88 | the trace has one invocation per starting record, in order, each with `args` unchanged; afterwards no record's handler has a `once` record at the start; every other record survives in order with its multiplicity; with no `once` records the event is unchanged |
| Events.InvocationsCount | lib/event.ts:81-82 | a handler is invoked once for each record it has in the list |
| Events.TriggerInvocationCount | lib/event.ts:80-88 | `trigger` invokes each handler as many times as it had records when the pass began |
| Events.PersistentInvokedEveryTrigger | lib/spec/event.spec.ts:12-40 | a handler subscribed once through `subscribe` is invoked exactly once by `trigger` and is still subscribed the same way afterwards |
| Events.SubscribeMakesPersistent | lib/event.ts:32-36 | `subscribe(h)` on an event without `h` leaves `h` with exactly one listener, a persistent one |
| Events.OtherOperationsKeepPersistent | lib/spec/event.spec.ts:27-32 | `subscribe`, `once` and `unsubscribe` of any other handler keep `h` subscribed exactly once and persistently; with `PersistentInvokedEveryTrigger`, `h` is invoked once per trigger in every sequence of operations that does not `subscribe`, `once` or `unsubscribe` `h` itself |
| Events.OtherOperationsKeepUnsubscribed | lib/spec/event.spec.ts:34-39 | `subscribe`, `once` and `unsubscribe` of any other handler keep an unsubscribed `h` without listeners; with `UnsubscribedNeverInvoked`, `h` is never invoked again in any sequence of operations that does not `subscribe` or `once` `h` |
| Events.UnsubscribedNeverInvoked | lib/spec/event.spec.ts:34-39 | a handler with no record is not invoked by `trigger` and still has no record afterwards |
| Events.OnceInvokedOnlyOnFirstTrigger | lib/event.ts:84-86 | a handler with a `once` record is invoked by the next trigger, has no record afterwards, and is not invoked by the trigger after that |
| Events.OnceScenario | lib/spec/event.spec.ts:87-114 | after `once(h)` on an event without `h`, the first trigger invokes `h` exactly once and the second not at all; calling the returned function before any trigger means `h` is never invoked |
| EventScenarios.SubscribeTrigger | lib/spec/event.spec.ts:12-32 | the first two passes of the first test: the first invokes only `handler`, the second `handler` then `handler2`, and both leave the list unchanged |
| EventScenarios.SubscribeTriggerUnsubscribe | lib/spec/event.spec.ts:12-40 | the call counts 1/0, 2/1, 2/2 of the first test, with handlers invoked in subscription order |
| EventScenarios.ArgumentsPassedUnchanged | lib/spec/event.spec.ts:42-53 | a handler receives exactly `("hello world", 5)` |
| EventScenarios.SubscribeTokenStopsInvocations | lib/spec/event.spec.ts:56-72 | after the unsubscription function of `subscribe` is called, a trigger invokes nothing |
| EventScenarios.OnceHandlerScenarios | lib/spec/event.spec.ts:76-114 | a `once` handler is invoked by the first trigger only, and never when its unsubscription function is called first |
| Events.TriggerWithoutOnce | lib/event.ts:80-88 | with no `once` listener, a trigger invokes every listener in order with the same arguments and leaves the event unchanged |
| EventScenarios.SnapshotInvokesRemovedDuplicate | lib/event.ts:80-88 | with records `[once h, h]`, a trigger invokes `h` twice, because the second record is still in the snapshot, and leaves no record |

## Left out

- Handler bodies and re-entrancy. Handlers are opaque foreign calls, so the model records each invocation in the trace and does not run the handler. A handler that calls `subscribe`, `unsubscribe` or `trigger` on the same event during a pass is not modelled.
- Exceptions thrown by a handler. In the code they abort the `forEach` and propagate to the caller of `trigger`. The model covers only passes in which every handler returns.
- `Parameters<T>` arity and type checking is type-level only. The model treats the arguments as one opaque value.
- JavaScript closure identity (`!==` on functions) is replaced by equality on the handler type.
- Object identity and mutation of the `Event` instance are not modelled. Each operation returns a new immutable event value instead of updating `this.listeners`.
- vite.config.ts is build configuration with no logic, and is not part of this model.
