/**
 A model of the `Event<T>` publish/subscribe primitive of lib/event.ts.

 An event owns an ordered sequence of listeners; each listener pairs a handler
 with a `once` flag. Handlers are modelled by their identity only (any type with
 equality), and the arguments passed to `trigger` by an opaque value. Invoking a
 handler is recorded in a trace instead of being performed.
 */
module Events {

  /** One registration: the handler, and whether it unsubscribes itself after its first invocation. */
  datatype Listener<H> = Listener(once: bool, handler: H)

  /** The event: its listeners in registration order, which is also the invocation order. */
  datatype Event<H> = Event(listeners: seq<Listener<H>>)

  /** The unsubscription function handed out by `subscribe` and `once`: it remembers the handler to remove. */
  datatype Unsubscription<H> = Unsubscription(handler: H)

  /** What `subscribe` and `once` produce: the updated event and the unsubscription function. */
  datatype Registration<H> = Registration(event: Event<H>, token: Unsubscription<H>)

  /** One handler invocation made by `trigger`, with the arguments it received. */
  datatype Invocation<H, A> = Invocation(handler: H, args: A)

  /** What `trigger` produces: the invocations made, in order, and the event afterwards. */
  datatype Fired<H, A> = Fired(trace: seq<Invocation<H, A>>, event: Event<H>)

  /* ----------------------------------------------------------------------------
     Observations on listener sequences and traces
     ---------------------------------------------------------------------------- */

  /** The handlers that have at least one listener in `ls`. */
  function Handlers<H>(ls: seq<Listener<H>>): set<H>
  {
    set l | l in ls :: l.handler
  }

  /** True iff `h` has at least one listener on `e`. */
  predicate Subscribed<H(==)>(e: Event<H>, h: H)
  {
    h in Handlers(e.listeners)
  }

  /** The handlers of the `once` listeners in `ls`. */
  function OnceHandlers<H>(ls: seq<Listener<H>>): set<H>
  {
    set l | l in ls && l.once :: l.handler
  }

  /** Number of listeners in `ls` whose handler is `h`. */
  function EntriesOf<H(==,!new)>(ls: seq<Listener<H>>, h: H): nat
  {
    if ls == [] then 0
    else (if ls[0].handler == h then 1 else 0) + EntriesOf(ls[1..], h)
  }

  /** Number of invocations of `h` recorded in `trace`. */
  function InvocationsOf<H(==,!new), A>(trace: seq<Invocation<H, A>>, h: H): nat
  {
    if trace == [] then 0
    else (if trace[0].handler == h then 1 else 0) + InvocationsOf(trace[1..], h)
  }

  /* ----------------------------------------------------------------------------
     Removal by handler identity
     ---------------------------------------------------------------------------- */

  /** The listeners of `ls` whose handler is not in `hs`, in their original order. */
  function RemoveHandlers<H(==)>(ls: seq<Listener<H>>, hs: set<H>): seq<Listener<H>>
  {
    if ls == [] then []
    else if ls[0].handler in hs then RemoveHandlers(ls[1..], hs)
    else [ls[0]] + RemoveHandlers(ls[1..], hs)
  }

  /**
   What removal keeps: every survivor comes from `ls` and has a handler outside
   `hs`; every listener whose handler is outside `hs` keeps its multiplicity;
   and nothing changes when no handler of `ls` is in `hs`.
   */
  lemma RemoveHandlersSpec<H(!new)>(ls: seq<Listener<H>>, hs: set<H>)
    ensures forall l :: l in RemoveHandlers(ls, hs) ==> l in ls && l.handler !in hs
    ensures forall l :: multiset(RemoveHandlers(ls, hs))[l] == if l.handler in hs then 0 else multiset(ls)[l]
    ensures Handlers(ls) !! hs ==> RemoveHandlers(ls, hs) == ls
  {
    RemoveHandlersCounts(ls, hs);
    if Handlers(ls) !! hs {
      RemoveHandlersNoMatch(ls, hs);
    }
  }

  /** Removal keeps each listener outside `hs` as often as it occurs, and drops the rest. */
  lemma {:induction false} RemoveHandlersCounts<H(!new)>(ls: seq<Listener<H>>, hs: set<H>)
    ensures forall l :: multiset(RemoveHandlers(ls, hs))[l] == if l.handler in hs then 0 else multiset(ls)[l]
    decreases |ls|
  {
    if ls != [] {
      RemoveHandlersCounts(ls[1..], hs);
      assert ls == [ls[0]] + ls[1..];
      assert multiset(ls) == multiset{ls[0]} + multiset(ls[1..]);
    }
  }

  /** Removal of handlers that `ls` does not have changes nothing. */
  lemma {:induction false} RemoveHandlersNoMatch<H(!new)>(ls: seq<Listener<H>>, hs: set<H>)
    requires Handlers(ls) !! hs
    ensures RemoveHandlers(ls, hs) == ls
    decreases |ls|
  {
    if ls != [] {
      assert ls[0] in ls;
      assert Handlers(ls[1..]) <= Handlers(ls) by {
        assert forall l :: l in ls[1..] ==> l in ls;
      }
      RemoveHandlersNoMatch(ls[1..], hs);
      assert ls == [ls[0]] + ls[1..];
    }
  }

  /** Removal keeps the relative order: it distributes over concatenation. */
  lemma {:induction false} RemoveHandlersAppend<H(!new)>(a: seq<Listener<H>>, b: seq<Listener<H>>, hs: set<H>)
    ensures RemoveHandlers(a + b, hs) == RemoveHandlers(a, hs) + RemoveHandlers(b, hs)
    decreases |a|
  {
    if a == [] {
      assert a + b == b;
    } else {
      assert (a + b)[0] == a[0];
      assert (a + b)[1..] == a[1..] + b;
      RemoveHandlersAppend(a[1..], b, hs);
    }
  }

  /** Removing `a` and then `b` is removing `a + b` in one pass. */
  lemma {:induction false} RemoveHandlersCompose<H(!new)>(ls: seq<Listener<H>>, a: set<H>, b: set<H>)
    ensures RemoveHandlers(RemoveHandlers(ls, a), b) == RemoveHandlers(ls, a + b)
    decreases |ls|
  {
    if ls != [] {
      RemoveHandlersCompose(ls[1..], a, b);
      if ls[0].handler !in a {
        assert RemoveHandlers(ls, a) == [ls[0]] + RemoveHandlers(ls[1..], a);
        assert ([ls[0]] + RemoveHandlers(ls[1..], a))[1..] == RemoveHandlers(ls[1..], a);
      }
    }
  }

  /** Removal leaves the count of every handler outside `hs` unchanged. */
  lemma {:induction false} RemoveHandlersKeepsEntries<H(!new)>(ls: seq<Listener<H>>, hs: set<H>, h: H)
    requires h !in hs
    ensures EntriesOf(RemoveHandlers(ls, hs), h) == EntriesOf(ls, h)
    decreases |ls|
  {
    if ls != [] {
      RemoveHandlersKeepsEntries(ls[1..], hs, h);
      if ls[0].handler !in hs {
        assert ([ls[0]] + RemoveHandlers(ls[1..], hs))[1..] == RemoveHandlers(ls[1..], hs);
      }
    }
  }

  /* ----------------------------------------------------------------------------
     The operations of Event<T>
     ---------------------------------------------------------------------------- */

  /** The constructor: an event with no listeners. */
  function New<H>(): (e: Event<H>)
    ensures e.listeners == []
  {
    Event([])
  }

  /** Appends one listener record; shared by `subscribe` and `once`. */
  function Register<H>(e: Event<H>, l: Listener<H>): (r: Registration<H>)
  {
    Registration(Event(e.listeners + [l]), Unsubscription(l.handler))
  }

  /** `subscribe(handler)`: a persistent listener goes to the end; every earlier listener stays in place. */
  function Subscribe<H>(e: Event<H>, h: H): (r: Registration<H>)
    ensures |r.event.listeners| == |e.listeners| + 1
    ensures r.event.listeners[..|e.listeners|] == e.listeners
    ensures r.event.listeners[|e.listeners|] == Listener(false, h)
    ensures r.token.handler == h
    ensures Subscribed(r.event, h)
  {
    Register(e, Listener(false, h))
  }

  /** `once(handler)`: a self-removing listener goes to the end; every earlier listener stays in place. */
  function Once<H>(e: Event<H>, h: H): (r: Registration<H>)
    ensures |r.event.listeners| == |e.listeners| + 1
    ensures r.event.listeners[..|e.listeners|] == e.listeners
    ensures r.event.listeners[|e.listeners|] == Listener(true, h)
    ensures r.token.handler == h
    ensures Subscribed(r.event, h)
  {
    Register(e, Listener(true, h))
  }

  /** `unsubscribe(handler)`: keeps exactly the listeners whose handler is not `h`. */
  function Unsubscribe<H(==)>(e: Event<H>, h: H): Event<H>
  {
    Event(RemoveHandlers(e.listeners, {h}))
  }

  /**
   After `unsubscribe(h)` no listener of `h` is left, whatever its flag; no
   listener is added; every listener of another handler keeps its
   multiplicity; and the call is a no-op when `h` has no listener.
   */
  lemma UnsubscribeSpec<H(!new)>(e: Event<H>, h: H)
    ensures !Subscribed(Unsubscribe(e, h), h)
    ensures forall l :: l in Unsubscribe(e, h).listeners ==> l in e.listeners
    ensures forall l: Listener<H> :: l.handler != h ==>
              multiset(Unsubscribe(e, h).listeners)[l] == multiset(e.listeners)[l]
    ensures !Subscribed(e, h) ==> Unsubscribe(e, h) == e
  {
    RemoveHandlersSpec(e.listeners, {h});
  }

  /** Calling an unsubscription function on the event as it is at the time of the call. */
  function CallToken<H(==,!new)>(e: Event<H>, t: Unsubscription<H>): (r: Event<H>)
    ensures !Subscribed(r, t.handler)
    ensures forall l :: l in r.listeners ==> l in e.listeners
    ensures forall l: Listener<H> :: l.handler != t.handler ==> multiset(r.listeners)[l] == multiset(e.listeners)[l]
  {
    UnsubscribeSpec(e, t.handler);
    Unsubscribe(e, t.handler)
  }

  /** The invocations a pass over `ls` makes: one per listener, each with `args`. */
  function Invocations<H, A>(ls: seq<Listener<H>>, args: A): (t: seq<Invocation<H, A>>)
    ensures |t| == |ls|
  {
    if ls == [] then []
    else [Invocation(ls[0].handler, args)] + Invocations(ls[1..], args)
  }

  /** The `k`-th invocation of a pass is of the `k`-th listener's handler, with `args`. */
  lemma {:induction false} InvocationsAt<H, A>(ls: seq<Listener<H>>, args: A)
    ensures forall k :: 0 <= k < |ls| ==> Invocations(ls, args)[k] == Invocation(ls[k].handler, args)
    decreases |ls|
  {
    if ls != [] {
      InvocationsAt(ls[1..], args);
    }
  }

  /**
   The `forEach` of `trigger`, one step per listener of the snapshot taken when
   the pass began: the listener at index `i` is invoked, and when it is a `once`
   listener its handler is then unsubscribed from the live event. Removals touch
   only the live event, never the snapshot being iterated.
   */
  function Pass<H(==,!new), A>(snapshot: seq<Listener<H>>, args: A, i: nat,
                          trace: seq<Invocation<H, A>>, live: Event<H>): Fired<H, A>
    requires i <= |snapshot|
    decreases |snapshot| - i
  {
    if i == |snapshot| then Fired(trace, live)
    else
      var l := snapshot[i];
      var trace' := trace + [Invocation(l.handler, args)];
      var live' := if l.once then Unsubscribe(live, l.handler) else live;
      Pass(snapshot, args, i + 1, trace', live')
  }

  /**
   The step-by-step pass equals its closed form: the trace gains one invocation
   per remaining snapshot entry, and the live list loses every handler that has
   a `once` entry among them.
   */
  lemma PassClosedForm<H(!new), A>(snapshot: seq<Listener<H>>, args: A, i: nat,
                                   trace: seq<Invocation<H, A>>, live: Event<H>)
    requires i <= |snapshot|
    ensures Pass(snapshot, args, i, trace, live)
            == Fired(trace + Invocations(snapshot[i..], args),
                     Event(RemoveHandlers(live.listeners, OnceHandlers(snapshot[i..]))))
  {
    PassTrace(snapshot, args, i, trace, live);
    PassLive(snapshot, args, i, trace, live);
  }

  /** The trace of the pass gains one invocation per snapshot entry from `i` on. */
  lemma {:induction false} PassTrace<H(!new), A>(snapshot: seq<Listener<H>>, args: A, i: nat,
                                                trace: seq<Invocation<H, A>>, live: Event<H>)
    requires i <= |snapshot|
    ensures Pass(snapshot, args, i, trace, live).trace == trace + Invocations(snapshot[i..], args)
    decreases |snapshot| - i
  {
    if i == |snapshot| {
      assert snapshot[i..] == [];
      assert trace + [] == trace;
    } else {
      var l := snapshot[i];
      var live' := if l.once then Unsubscribe(live, l.handler) else live;
      PassTrace(snapshot, args, i + 1, trace + [Invocation(l.handler, args)], live');
      assert snapshot[i..] == [l] + snapshot[i + 1..];
      InvocationsCons(l, snapshot[i + 1..], args);
      assert (trace + [Invocation(l.handler, args)]) + Invocations(snapshot[i + 1..], args)
          == trace + ([Invocation(l.handler, args)] + Invocations(snapshot[i + 1..], args));
    }
  }

  /** The live event of the pass loses every handler of a `once` snapshot entry from `i` on. */
  lemma {:induction false} PassLive<H(!new), A>(snapshot: seq<Listener<H>>, args: A, i: nat,
                                               trace: seq<Invocation<H, A>>, live: Event<H>)
    requires i <= |snapshot|
    ensures Pass(snapshot, args, i, trace, live).event
            == Event(RemoveHandlers(live.listeners, OnceHandlers(snapshot[i..])))
    decreases |snapshot| - i
  {
    if i == |snapshot| {
      assert OnceHandlers(snapshot[i..]) == {};
      RemoveHandlersNoMatch(live.listeners, {});
    } else {
      var l := snapshot[i];
      var live' := if l.once then Unsubscribe(live, l.handler) else live;
      PassLive(snapshot, args, i + 1, trace + [Invocation(l.handler, args)], live');
      assert snapshot[i..] == [l] + snapshot[i + 1..];
      OnceHandlersCons(l, snapshot[i + 1..]);
      if l.once {
        RemoveHandlersCompose(live.listeners, {l.handler}, OnceHandlers(snapshot[i + 1..]));
      } else {
        assert {} + OnceHandlers(snapshot[i + 1..]) == OnceHandlers(snapshot[i + 1..]);
      }
    }
  }

  /** The invocations of a list headed by `l`: `l`'s first, then the rest. */
  lemma InvocationsCons<H, A>(l: Listener<H>, rest: seq<Listener<H>>, args: A)
    ensures Invocations([l] + rest, args) == [Invocation(l.handler, args)] + Invocations(rest, args)
  {
  }

  /** The `once` handlers of a list headed by `l`: `l`'s handler if it is `once`, then those of the rest. */
  lemma OnceHandlersCons<H(!new)>(l: Listener<H>, rest: seq<Listener<H>>)
    ensures OnceHandlers([l] + rest) == (if l.once then {l.handler} else {}) + OnceHandlers(rest)
  {
  }

  /**
   `trigger(...args)`: every listener present when the pass starts is invoked, in
   order, with the same `args`; afterwards every listener whose handler had a
   `once` entry at the start is gone, and all other listeners remain in order.
   */
  function Trigger<H(==,!new), A>(e: Event<H>, args: A): (r: Fired<H, A>)
    ensures |r.trace| == |e.listeners|
    ensures forall i :: 0 <= i < |e.listeners| ==> r.trace[i] == Invocation(e.listeners[i].handler, args)
    ensures r.event.listeners == RemoveHandlers(e.listeners, OnceHandlers(e.listeners))
    ensures forall l :: l in r.event.listeners ==> l in e.listeners && l.handler !in OnceHandlers(e.listeners)
    ensures forall l: Listener<H> :: l.handler !in OnceHandlers(e.listeners) ==>
              multiset(r.event.listeners)[l] == multiset(e.listeners)[l]
    ensures OnceHandlers(e.listeners) == {} ==> r.event == e
  {
    PassClosedForm(e.listeners, args, 0, [], e);
    assert e.listeners[0..] == e.listeners;
    RemoveHandlersSpec(e.listeners, OnceHandlers(e.listeners));
    InvocationsAt(e.listeners, args);
    Pass(e.listeners, args, 0, [], e)
  }

  /** A trigger of an event without `once` listeners invokes every listener in order and changes nothing. */
  lemma TriggerWithoutOnce<H(!new), A>(e: Event<H>, args: A)
    requires forall l :: l in e.listeners ==> !l.once
    ensures Trigger(e, args) == Fired(Invocations(e.listeners, args), e)
  {
    assert OnceHandlers(e.listeners) == {};
    InvocationsAt(e.listeners, args);
    assert Trigger(e, args).trace == Invocations(e.listeners, args);
  }

  /* ----------------------------------------------------------------------------
     Properties relating the operations
     ---------------------------------------------------------------------------- */

  /** `unsubscribe(h)` undoes `subscribe(h)` when `h` was not already subscribed. */
  lemma {:induction false} UnsubscribeUndoesSubscribe<H(!new)>(e: Event<H>, h: H)
    requires !Subscribed(e, h)
    ensures Unsubscribe(Subscribe(e, h).event, h) == e
    ensures Unsubscribe(Once(e, h).event, h) == e
  {
    RemoveHandlersAppend(e.listeners, [Listener(false, h)], {h});
    RemoveHandlersAppend(e.listeners, [Listener(true, h)], {h});
    assert RemoveHandlers([Listener(false, h)], {h}) == [];
    assert RemoveHandlers([Listener(true, h)], {h}) == [];
    assert e.listeners + [] == e.listeners;
    RemoveHandlersNoMatch(e.listeners, {h});
  }

  /**
   The unsubscription function of `subscribe(h)` or `once(h)`, called on whatever
   the event has become by then, does exactly what `unsubscribe(h)` does.
   */
  lemma TokenIsUnsubscribe<H(!new)>(e: Event<H>, h: H, later: Event<H>)
    ensures CallToken(later, Subscribe(e, h).token) == Unsubscribe(later, h)
    ensures CallToken(later, Once(e, h).token) == Unsubscribe(later, h)
  {
  }

  /** A second `unsubscribe` of the same handler changes nothing. */
  lemma UnsubscribeIdempotent<H(!new)>(e: Event<H>, h: H)
    ensures Unsubscribe(Unsubscribe(e, h), h) == Unsubscribe(e, h)
  {
    UnsubscribeSpec(e, h);
    UnsubscribeSpec(Unsubscribe(e, h), h);
  }

  /**
   `unsubscribe(h)` keeps the relative order of the survivors: removing from a
   concatenation is concatenating the removals.
   */
  lemma UnsubscribeKeepsOrder<H(!new)>(a: seq<Listener<H>>, b: seq<Listener<H>>, h: H)
    ensures Unsubscribe(Event(a + b), h).listeners
            == Unsubscribe(Event(a), h).listeners + Unsubscribe(Event(b), h).listeners
  {
    RemoveHandlersAppend(a, b, {h});
  }

  /** `unsubscribe(h)` keeps every listener of every other handler. */
  lemma UnsubscribeKeepsOthers<H(!new)>(e: Event<H>, h: H, g: H)
    requires g != h
    ensures EntriesOf(Unsubscribe(e, h).listeners, g) == EntriesOf(e.listeners, g)
  {
    RemoveHandlersKeepsEntries(e.listeners, {h}, g);
  }

  /** A pass invokes each handler once per listener it has. */
  lemma {:induction false} InvocationsCount<H(!new), A>(ls: seq<Listener<H>>, args: A, h: H)
    ensures InvocationsOf(Invocations(ls, args), h) == EntriesOf(ls, h)
    decreases |ls|
  {
    if ls != [] {
      InvocationsCount(ls[1..], args, h);
      assert Invocations(ls, args)[1..] == Invocations(ls[1..], args);
    }
  }

  /** `trigger` invokes `h` as many times as `h` had listeners when the pass began. */
  lemma TriggerInvocationCount<H(!new), A>(e: Event<H>, args: A, h: H)
    ensures InvocationsOf(Trigger(e, args).trace, h) == EntriesOf(e.listeners, h)
  {
    InvocationsAt(e.listeners, args);
    assert Trigger(e, args).trace == Invocations(e.listeners, args);
    InvocationsCount(e.listeners, args, h);
  }

  /** `h` is subscribed exactly once, through `subscribe`. */
  predicate PersistentlySubscribed<H(==,!new)>(e: Event<H>, h: H)
  {
    && EntriesOf(e.listeners, h) == 1
    && forall l :: l in e.listeners && l.handler == h ==> !l.once
  }

  /**
   A handler subscribed once through `subscribe` is invoked exactly once by a
   `trigger`, and is still subscribed the same way afterwards; so it is invoked
   once per `trigger` for as long as it stays subscribed.
   */
  lemma PersistentInvokedEveryTrigger<H(!new), A>(e: Event<H>, args: A, h: H)
    requires PersistentlySubscribed(e, h)
    ensures InvocationsOf(Trigger(e, args).trace, h) == 1
    ensures PersistentlySubscribed(Trigger(e, args).event, h)
  {
    TriggerInvocationCount(e, args, h);
    assert h !in OnceHandlers(e.listeners);
    RemoveHandlersKeepsEntries(e.listeners, OnceHandlers(e.listeners), h);
  }

  /** `subscribe(h)` on an event where `h` has no listener makes `h` persistently subscribed. */
  lemma SubscribeMakesPersistent<H(!new)>(e: Event<H>, h: H)
    requires !Subscribed(e, h)
    ensures PersistentlySubscribed(Subscribe(e, h).event, h)
  {
    NoEntriesWhenUnsubscribed(e.listeners, h);
    EntriesAppend(e.listeners, [Listener(false, h)], h);
    assert EntriesOf([Listener(false, h)], h) == 1 by {
      assert [Listener(false, h)][1..] == [];
    }
    assert forall l :: l in e.listeners ==> l.handler in Handlers(e.listeners);
    assert Subscribe(e, h).event.listeners == e.listeners + [Listener(false, h)];
  }

  /**
   `subscribe`, `once` and `unsubscribe` of any other handler leave a
   persistently subscribed handler persistently subscribed; together with
   `PersistentInvokedEveryTrigger` this covers every sequence of operations
   that does not touch `h` itself.
   */
  lemma OtherOperationsKeepPersistent<H(!new)>(e: Event<H>, h: H, g: H)
    requires PersistentlySubscribed(e, h)
    requires g != h
    ensures PersistentlySubscribed(Subscribe(e, g).event, h)
    ensures PersistentlySubscribed(Once(e, g).event, h)
    ensures PersistentlySubscribed(Unsubscribe(e, g), h)
  {
    EntriesAppend(e.listeners, [Listener(false, g)], h);
    EntriesAppend(e.listeners, [Listener(true, g)], h);
    assert [Listener(false, g)][1..] == [];
    assert [Listener(true, g)][1..] == [];
    assert Subscribe(e, g).event.listeners == e.listeners + [Listener(false, g)];
    assert Once(e, g).event.listeners == e.listeners + [Listener(true, g)];
    UnsubscribeKeepsOthers(e, g, h);
    UnsubscribeSpec(e, g);
  }

  /**
   `subscribe`, `once` and `unsubscribe` of any other handler leave a handler
   without listeners without listeners; together with `UnsubscribedNeverInvoked`
   an unsubscribed handler is never invoked again in any sequence of operations
   that does not `subscribe` or `once` it.
   */
  lemma OtherOperationsKeepUnsubscribed<H(!new)>(e: Event<H>, h: H, g: H)
    requires !Subscribed(e, h)
    requires g != h
    ensures !Subscribed(Subscribe(e, g).event, h)
    ensures !Subscribed(Once(e, g).event, h)
    ensures !Subscribed(Unsubscribe(e, g), h)
  {
    UnsubscribeSpec(e, g);
    assert Subscribe(e, g).event.listeners == e.listeners + [Listener(false, g)];
    assert Once(e, g).event.listeners == e.listeners + [Listener(true, g)];
  }

  /** A handler without listeners is not invoked by `trigger`, and is still without listeners afterwards. */
  lemma UnsubscribedNeverInvoked<H(!new), A>(e: Event<H>, args: A, h: H)
    requires !Subscribed(e, h)
    ensures InvocationsOf(Trigger(e, args).trace, h) == 0
    ensures !Subscribed(Trigger(e, args).event, h)
  {
    TriggerInvocationCount(e, args, h);
    NoEntriesWhenUnsubscribed(e.listeners, h);
  }

  /** A handler outside `Handlers(ls)` has no listener in `ls`. */
  lemma {:induction false} NoEntriesWhenUnsubscribed<H(!new)>(ls: seq<Listener<H>>, h: H)
    requires h !in Handlers(ls)
    ensures EntriesOf(ls, h) == 0
    decreases |ls|
  {
    if ls != [] {
      assert ls[0] in ls;
      assert forall l :: l in ls[1..] ==> l in ls;
      NoEntriesWhenUnsubscribed(ls[1..], h);
    }
  }

  /**
   A handler with a `once` listener is invoked by the next `trigger` (once per
   listener it has) and then has no listener left, so a second `trigger` does
   not invoke it.
   */
  lemma OnceInvokedOnlyOnFirstTrigger<H(!new), A>(e: Event<H>, first: A, second: A, h: H)
    requires Listener(true, h) in e.listeners
    ensures InvocationsOf(Trigger(e, first).trace, h) == EntriesOf(e.listeners, h) >= 1
    ensures !Subscribed(Trigger(e, first).event, h)
    ensures InvocationsOf(Trigger(Trigger(e, first).event, second).trace, h) == 0
  {
    TriggerInvocationCount(e, first, h);
    OneEntryWhenListed(e.listeners, Listener(true, h));
    UnsubscribedNeverInvoked(Trigger(e, first).event, second, h);
  }

  /** A listener present in `ls` contributes to its handler's count. */
  lemma {:induction false} OneEntryWhenListed<H(!new)>(ls: seq<Listener<H>>, l: Listener<H>)
    requires l in ls
    ensures EntriesOf(ls, l.handler) >= 1
    decreases |ls|
  {
    if ls[0] != l {
      OneEntryWhenListed(ls[1..], l);
    }
  }

  /**
   `once(h)` on an event where `h` has no listener: the next `trigger` invokes
   `h` exactly once and the one after does not; and if the returned
   unsubscription function is called first, no `trigger` invokes `h`.
   */
  lemma OnceScenario<H(!new), A>(e: Event<H>, first: A, second: A, h: H)
    requires !Subscribed(e, h)
    ensures InvocationsOf(Trigger(Once(e, h).event, first).trace, h) == 1
    ensures InvocationsOf(Trigger(Trigger(Once(e, h).event, first).event, second).trace, h) == 0
    ensures InvocationsOf(Trigger(CallToken(Once(e, h).event, Once(e, h).token), first).trace, h) == 0
  {
    var r := Once(e, h);
    OnceInvokedOnlyOnFirstTrigger(r.event, first, second, h);
    NoEntriesWhenUnsubscribed(e.listeners, h);
    assert r.event.listeners == e.listeners + [Listener(true, h)];
    EntriesAppend(e.listeners, [Listener(true, h)], h);
    UnsubscribeUndoesSubscribe(e, h);
    UnsubscribedNeverInvoked(e, first, h);
  }

  /** Counting listeners distributes over concatenation. */
  lemma {:induction false} EntriesAppend<H(!new)>(a: seq<Listener<H>>, b: seq<Listener<H>>, h: H)
    ensures EntriesOf(a + b, h) == EntriesOf(a, h) + EntriesOf(b, h)
    decreases |a|
  {
    if a == [] {
      assert a + b == b;
    } else {
      assert (a + b)[1..] == a[1..] + b;
      EntriesAppend(a[1..], b, h);
    }
  }
}
