/**
 The scenarios of lib/spec/event.spec.ts, stated over the model with handlers
 named by numbers, plus the snapshot behaviour of `trigger` on a handler that is
 listed twice.
 */
module EventScenarios {
  import opened Events

  /** Handlers `handler` and `handler2` of the scenarios. */
  const First: nat := 1
  const Second: nat := 2

  /** The event after the first test's `subscribe(handler)`, `trigger()`, `subscribe(handler2)`, `trigger()`. */
  function TwoSubscribed(): Fired<nat, ()>
  {
    Trigger(Subscribe(Trigger(Subscribe(New<nat>(), First).event, ()).event, Second).event, ())
  }

  /**
   Subscribe, trigger, subscribe a second handler, trigger: the first pass
   invokes only the first handler, the second pass both, in subscription order.
   */
  lemma SubscribeTrigger()
    ensures Trigger(Subscribe(New<nat>(), First).event, ()).trace == [Invocation(First, ())]
    ensures TwoSubscribed().trace == [Invocation(First, ()), Invocation(Second, ())]
    ensures TwoSubscribed().event.listeners == [Listener(false, First), Listener(false, Second)]
  {
    var e1 := Subscribe(New<nat>(), First).event;
    TriggerWithoutOnce(e1, ());
    var e2 := Subscribe(Trigger(e1, ()).event, Second).event;
    assert e2.listeners == [Listener(false, First), Listener(false, Second)];
    TriggerWithoutOnce(e2, ());
  }

  /**
   The first test: subscribe, trigger, subscribe a second handler, trigger,
   unsubscribe the first, trigger. The call counts go 1/0, then 2/1, then 2/2.
   */
  lemma SubscribeTriggerUnsubscribe()
    ensures var f1 := Trigger(Subscribe(New<nat>(), First).event, ());
            var f2 := TwoSubscribed();
            var f3 := Trigger(Unsubscribe(f2.event, First), ());
            && f1.trace == [Invocation(First, ())]
            && f2.trace == [Invocation(First, ()), Invocation(Second, ())]
            && f3.trace == [Invocation(Second, ())]
            && InvocationsOf(f1.trace, First) + InvocationsOf(f2.trace, First) + InvocationsOf(f3.trace, First) == 2
            && InvocationsOf(f1.trace, Second) + InvocationsOf(f2.trace, Second) + InvocationsOf(f3.trace, Second) == 2
  {
    SubscribeTrigger();
    var f2 := TwoSubscribed();
    var e3 := Unsubscribe(f2.event, First);
    assert e3.listeners == [Listener(false, Second)] by {
      assert f2.event.listeners == [Listener(false, First)] + [Listener(false, Second)];
      RemoveHandlersAppend([Listener(false, First)], [Listener(false, Second)], {First});
    }
    TriggerWithoutOnce(e3, ());
    assert f2.trace[1..] == [Invocation(Second, ())];
  }

  /** Unsubscribing the handler of the only listener leaves no listener. */
  lemma UnsubscribeSole(l: Listener<nat>)
    ensures Unsubscribe(Event([l]), l.handler) == Event([])
  {
    assert RemoveHandlers([l], {l.handler}) == RemoveHandlers([], {l.handler});
  }

  /** A handler taking `(string, number)` receives exactly the arguments passed to `trigger`. */
  lemma ArgumentsPassedUnchanged()
    ensures Trigger(Subscribe(New<nat>(), First).event, ("hello world", 5)).trace
            == [Invocation(First, ("hello world", 5))]
  {
  }

  /** Calling the unsubscription function of `subscribe` after one trigger stops further invocations. */
  lemma SubscribeTokenStopsInvocations()
    ensures var r := Subscribe(New<nat>(), First);
            var f1 := Trigger(r.event, ());
            var f2 := Trigger(CallToken(f1.event, r.token), ());
            && InvocationsOf(f1.trace, First) == 1
            && f2.trace == []
  {
    var r := Subscribe(New<nat>(), First);
    TriggerWithoutOnce(r.event, ());
    var f1 := Trigger(r.event, ());
    UnsubscribeSole(Listener(false, First));
    assert CallToken(f1.event, r.token).listeners == [];
  }

  /**
   A `once` handler is invoked by the first trigger and not by the second; if
   its unsubscription function is called before any trigger, it is never invoked.
   */
  lemma OnceHandlerScenarios()
    ensures var r := Once(New<nat>(), First);
            var f1 := Trigger(r.event, ());
            && InvocationsOf(f1.trace, First) == 1
            && Trigger(f1.event, ()).trace == []
            && Trigger(CallToken(r.event, r.token), ()).trace == []
  {
    var r := Once(New<nat>(), First);
    assert r.event.listeners == [Listener(true, First)];
    assert OnceHandlers(r.event.listeners) == {First};
    UnsubscribeSole(Listener(true, First));
    var f1 := Trigger(r.event, ());
    assert f1.event.listeners == [];
    assert CallToken(r.event, r.token).listeners == [];
  }

  /**
   A handler listed twice, first as `once` and then persistently: the pass runs
   over the snapshot, so both entries are invoked although the first one's
   removal already took the second out of the live list; afterwards neither is left.
   */
  lemma SnapshotInvokesRemovedDuplicate()
    ensures var e := Subscribe(Once(New<nat>(), First).event, First).event;
            var f := Trigger(e, ());
            && f.trace == [Invocation(First, ()), Invocation(First, ())]
            && f.event.listeners == []
  {
    var e := Subscribe(Once(New<nat>(), First).event, First).event;
    assert e.listeners == [Listener(true, First), Listener(false, First)];
    assert OnceHandlers(e.listeners) == {First};
    assert RemoveHandlers(e.listeners, {First}) == RemoveHandlers([Listener(false, First)], {First}) == [];
  }
}
