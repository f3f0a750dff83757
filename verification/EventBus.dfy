/** The event bus (Dimensionals/bus.py): bounded log, delivery and replay. */
module EventBus {
  import opened Sequences
  import opened Wrappers
  import VC = VectorClocks

  datatype Event = Event(eventType: string, source: string, data: string)
  type Handler = nat
  datatype Delivery = Delivery(handler: Handler, event: Event)
  type Subscribers = map<string, seq<Handler>>

  const WILDCARD := "*"

  function Subscribed(subs: Subscribers, topic: string): seq<Handler> {
    if topic in subs then subs[topic] else []
  }

  function OfType(events: seq<Event>, topic: string): seq<Event>
    decreases |events|
  {
    if events == [] then []
    else
      var last := events[|events| - 1];
      OfType(events[..|events| - 1], topic) + if last.eventType == topic then [last] else []
  }

  /** Python's `s[-n:]`: everything when `n` is 0, and a prefix cut off when `n` is negative. */
  function LastSlice<T>(s: seq<T>, n: int): seq<T> {
    if n > 0 then (if n < |s| then s[|s| - n..] else s)
    else if -n < |s| then s[-n..] else []
  }

  function Trimmed(log: seq<Event>, limit: int): seq<Event> {
    if |log| > limit then LastSlice(log, limit) else log
  }

  /** The replay log after publishing `events` in order. */
  function Log(events: seq<Event>, limit: int): seq<Event>
    decreases |events|
  {
    if events == [] then [] else Trimmed(Log(events[..|events| - 1], limit) + [events[|events| - 1]], limit)
  }

  function To(handlers: seq<Handler>, event: Event): seq<Delivery> {
    seq(|handlers|, i requires 0 <= i < |handlers| => Delivery(handlers[i], event))
  }

  /** What one publish delivers: the topic's handlers in order, then the wildcard ones. */
  function Deliver(subs: Subscribers, event: Event): seq<Delivery> {
    To(Subscribed(subs, event.eventType) + Subscribed(subs, WILDCARD), event)
  }

  /** What clients do with the bus, in the order they do it. */
  datatype Action =
    | Publishing(event: Event)
    | Subscribing(topic: string, handler: Handler)
    | Unsubscribing(topic: string, handler: Handler)

  function Joining(subs: Subscribers, topic: string, h: Handler): Subscribers {
    subs[topic := Subscribed(subs, topic) + [h]]
  }

  function NextSubs(subs: Subscribers, action: Action): Subscribers {
    match action
    case Publishing(_) => subs
    case Subscribing(topic, h) => Joining(subs, topic, h)
    case Unsubscribing(topic, h) => if topic in subs then subs[topic := Without(subs[topic], h)] else subs
  }

  function Delivered(subs: Subscribers, action: Action): seq<Delivery> {
    if action.Publishing? then Deliver(subs, action.event) else []
  }

  function SubsAfter(subs: Subscribers, actions: seq<Action>): Subscribers
    decreases |actions|
  {
    if actions == [] then subs else NextSubs(SubsAfter(subs, actions[..|actions| - 1]), actions[|actions| - 1])
  }

  function DeliverAll(subs: Subscribers, actions: seq<Action>): seq<Delivery>
    decreases |actions|
  {
    if actions == [] then []
    else
      var done := actions[..|actions| - 1];
      DeliverAll(subs, done) + Delivered(SubsAfter(subs, done), actions[|actions| - 1])
  }

  function Published(actions: seq<Action>): seq<Event>
    decreases |actions|
  {
    if actions == [] then []
    else
      var last := actions[|actions| - 1];
      Published(actions[..|actions| - 1]) + if last.Publishing? then [last.event] else []
  }

  /** What a late subscriber's replay and the later actions deliver. */
  function Joined(published: seq<Event>, limit: int, subs: Subscribers, h: Handler, topic: string,
                  later: seq<Action>): seq<Delivery>
  {
    Each(h, OfType(Log(published, limit), topic)) + DeliverAll(Joining(subs, topic, h), later)
  }

  lemma {:induction false} NextAction(subs: Subscribers, done: seq<Action>, action: Action)
    ensures SubsAfter(subs, done + [action]) == NextSubs(SubsAfter(subs, done), action)
    ensures DeliverAll(subs, done + [action]) == DeliverAll(subs, done) + Delivered(SubsAfter(subs, done), action)
    ensures Published(done + [action]) == Published(done) + Published([action])
  {
    assert (done + [action])[..|done|] == done && [action][..0] == [];
  }

  lemma {:induction false} FirstActions(published: seq<Event>, log: seq<Delivery>, subs: Subscribers,
                                        actions: seq<Action>, i: nat)
    requires i < |actions|
    ensures var done, next := actions[..i], actions[..i + 1];
      && SubsAfter(subs, next) == NextSubs(SubsAfter(subs, done), actions[i])
      && log + DeliverAll(subs, next) == log + DeliverAll(subs, done) + Delivered(SubsAfter(subs, done), actions[i])
      && published + Published(next) == published + Published(done) + Published([actions[i]])
  {
    var done := actions[..i];
    assert actions[..i + 1] == done + [actions[i]];
    NextAction(subs, done, actions[i]);
    Associates(log, DeliverAll(subs, done), Delivered(SubsAfter(subs, done), actions[i]));
    Associates(published, Published(done), Published([actions[i]]));
  }

  lemma {:induction false} LogNext(events: seq<Event>, event: Event, limit: int)
    ensures Log(events + [event], limit) == Trimmed(Log(events, limit) + [event], limit)
  {
    assert (events + [event])[..|events|] == events;
  }

  class EventBus {
    const nodeId: string
    const replayLimit: int
    /** Which handlers raise on which events; an arbitrary behaviour. */
    const raises: (Handler, Event) -> bool
    const vectorClock: VC.VectorClock
    var subscribers: Subscribers
    var eventLog: seq<Event>
    ghost var published: seq<Event>
    var delivered: seq<Delivery>
    var errors: nat

    ghost predicate Valid()
      reads this, vectorClock
    {
      && eventLog == Log(published, replayLimit)
      && vectorClock.clock == if published == [] then map[] else map[nodeId := |published|]
    }

    constructor (nodeId: string, replayLimit: int, raises: (Handler, Event) -> bool)
      ensures Valid() && fresh(vectorClock) && published == [] && delivered == [] && subscribers == map[]
      ensures this.nodeId == nodeId && this.replayLimit == replayLimit
    {
      this.nodeId, this.replayLimit, this.raises := nodeId, replayLimit, raises;
      vectorClock := new VC.VectorClock();
      subscribers, eventLog, published, delivered, errors := map[], [], [], [], 0;
    }

    method Subscribe(eventType: string, handler: Handler)
      modifies this`subscribers
      ensures subscribers == old(subscribers)[eventType := Subscribed(old(subscribers), eventType) + [handler]]
    {
      subscribers := subscribers[eventType := Subscribed(subscribers, eventType) + [handler]];
    }

    /** Drops every subscription of the handler to that type, and nothing else. */
    method Unsubscribe(eventType: string, handler: Handler)
      modifies this`subscribers
      ensures subscribers == if eventType in old(subscribers)
                             then old(subscribers)[eventType := Without(old(subscribers)[eventType], handler)]
                             else old(subscribers)
    {
      if eventType in subscribers {
        subscribers := subscribers[eventType := Without(subscribers[eventType], handler)];
      }
    }

    method Publish(event: Event)
      requires Valid()
      modifies this`eventLog, this`published, this`delivered, this`errors, vectorClock
      ensures Valid() && published == old(published) + [event]
      ensures delivered == old(delivered) + Deliver(subscribers, event)
    {
      Record(event);
      Notify(Subscribed(subscribers, event.eventType) + Subscribed(subscribers, WILDCARD), event);
    }

    /** The part of publishing before any handler runs. */
    method Record(event: Event)
      requires Valid()
      modifies this`eventLog, this`published, vectorClock
      ensures Valid() && published == old(published) + [event]
    {
      vectorClock.Increment(nodeId);
      eventLog := eventLog + [event];
      if |eventLog| > replayLimit {
        eventLog := LastSlice(eventLog, replayLimit);
      }
      LogNext(published, event, replayLimit);
      published := published + [event];
    }

    method Notify(handlers: seq<Handler>, event: Event)
      modifies this`delivered, this`errors
      ensures delivered == old(delivered) + To(handlers, event)
    {
      for i := 0 to |handlers|
        invariant delivered == old(delivered) + To(handlers, event)[..i]
      {
        delivered := delivered + [Delivery(handlers[i], event)];
        if raises(handlers[i], event) {
          errors := errors + 1;
        }
      }
    }

    /** An empty event type means no filter. */
    method Replay(eventType: Option<string>, handler: Option<Handler>) returns (events: seq<Event>)
      requires Valid()
      modifies this`delivered, this`errors
      ensures events == if eventType.Some? && eventType.value != ""
                        then OfType(Log(published, replayLimit), eventType.value)
                        else Log(published, replayLimit)
      ensures delivered == old(delivered) + if handler.Some? then Each(handler.value, events) else []
    {
      events := eventLog;
      if eventType.Some? && eventType.value != "" {
        events := OfType(events, eventType.value);
      }
      if handler.Some? {
        Feed(handler.value, events);
      }
    }

    method Feed(handler: Handler, events: seq<Event>)
      modifies this`delivered, this`errors
      ensures delivered == old(delivered) + Each(handler, events)
    {
      for i := 0 to |events|
        invariant delivered == old(delivered) + Each(handler, events)[..i]
      {
        delivered := delivered + [Delivery(handler, events[i])];
        if raises(handler, events[i]) {
          errors := errors + 1;
        }
      }
    }

    /** One thing a client does with the bus. */
    method Perform(action: Action)
      requires Valid()
      modifies this, vectorClock
      ensures Valid() && published == old(published) + Published([action])
      ensures subscribers == NextSubs(old(subscribers), action)
      ensures delivered == old(delivered) + Delivered(old(subscribers), action)
    {
      assert [action][..0] == [];
      match action
      case Publishing(event) => Publish(event);
      case Subscribing(topic, handler) => Subscribe(topic, handler);
      case Unsubscribing(topic, handler) => Unsubscribe(topic, handler);
    }

    /** A late subscriber: replay, subscribe, and then whatever the others do. */
    method JoinLate(topic: string, handler: Handler, later: seq<Action>)
      requires Valid() && topic != ""
      modifies this, vectorClock
      ensures Valid() && published == old(published) + Published(later)
      ensures delivered == old(delivered) + Joined(old(published), replayLimit, old(subscribers), handler, topic, later)
    {
      var events := Replay(Some(topic), Some(handler));
      Subscribe(topic, handler);
      PerformAll(later);
      Associates(old(delivered), Each(handler, events), DeliverAll(Joining(old(subscribers), topic, handler), later));
    }

    method PerformAll(actions: seq<Action>)
      requires Valid()
      modifies this, vectorClock
      ensures Valid() && published == old(published) + Published(actions)
      ensures subscribers == SubsAfter(old(subscribers), actions)
      ensures delivered == old(delivered) + DeliverAll(old(subscribers), actions)
    {
      ghost var before, start, subs := published, delivered, subscribers;
      assert actions[..0] == [];
      for i := 0 to |actions|
        invariant Valid() && published == before + Published(actions[..i])
        invariant subscribers == SubsAfter(subs, actions[..i])
        invariant delivered == start + DeliverAll(subs, actions[..i])
      {
        FirstActions(before, start, subs, actions, i);
        Perform(actions[i]);
      }
      assert actions[..|actions|] == actions;
    }
  }

  function Each(h: Handler, events: seq<Event>): seq<Delivery> {
    seq(|events|, i requires 0 <= i < |events| => Delivery(h, events[i]))
  }

  // ---------------------------------------------------------------- the log

  /** The log for every limit: the last min(n, limit) events when it is positive,
      all of them when it is 0, none when it is negative. */
  lemma {:induction false} LogIsExact(events: seq<Event>, limit: int)
    ensures Log(events, limit) ==
            if limit > 0 then (if |events| <= limit then events else events[|events| - limit..])
            else if limit == 0 then events else []
    decreases |events|
  {
    if events != [] {
      var init, e := events[..|events| - 1], events[|events| - 1];
      LogIsExact(init, limit);
      assert init + [e] == events;
      if 0 < limit < |events| {
        assert events[|events| - limit..] == LastSlice(Log(init, limit) + [e], limit);
      }
    }
  }

  // ---------------------------------------------------------------- late subscribers

  /** The events of a topic that one handler has been given, in order. */
  function Received(h: Handler, topic: string, log: seq<Delivery>): seq<Event>
    decreases |log|
  {
    if log == [] then []
    else Received(h, topic, log[..|log| - 1]) +
         var d := log[|log| - 1]; if d.handler == h && d.event.eventType == topic then [d.event] else []
  }

  lemma {:induction false} ReceivedAppends(h: Handler, topic: string, a: seq<Delivery>, b: seq<Delivery>)
    ensures Received(h, topic, a + b) == Received(h, topic, a) + Received(h, topic, b)
    decreases |b|
  {
    if b == [] {
      assert a + b == a;
    } else {
      ReceivedAppends(h, topic, a, b[..|b| - 1]);
      assert (a + b)[..|a + b| - 1] == a + b[..|b| - 1];
    }
  }

  lemma {:induction false} OfTypeAppends(a: seq<Event>, b: seq<Event>, topic: string)
    ensures OfType(a + b, topic) == OfType(a, topic) + OfType(b, topic)
    decreases |b|
  {
    if b == [] {
      assert a + b == a;
    } else {
      OfTypeAppends(a, b[..|b| - 1], topic);
      assert (a + b)[..|a + b| - 1] == a + b[..|b| - 1];
    }
  }

  lemma {:induction false} OfTypeIdempotent(events: seq<Event>, topic: string)
    ensures OfType(OfType(events, topic), topic) == OfType(events, topic)
    decreases |events|
  {
    if events != [] {
      var init, e := events[..|events| - 1], events[|events| - 1];
      OfTypeIdempotent(init, topic);
      OfTypeAppends(OfType(init, topic), [e], topic);
      assert [e][..0] == [];
      assert OfType(init, topic) + [] == OfType(init, topic);
    }
  }

  lemma {:induction false} ReceivedEach(h: Handler, topic: string, events: seq<Event>)
    ensures Received(h, topic, Each(h, events)) == OfType(events, topic)
    decreases |events|
  {
    if events != [] {
      ReceivedEach(h, topic, events[..|events| - 1]);
      assert Each(h, events)[..|events| - 1] == Each(h, events[..|events| - 1]);
    }
  }

  /** How often a handler list calls `h`. */
  function Calls(handlers: seq<Handler>, h: Handler): nat
    decreases |handlers|
  {
    if handlers == [] then 0
    else Calls(handlers[..|handlers| - 1], h) + if handlers[|handlers| - 1] == h then 1 else 0
  }

  lemma {:induction false} CallsAppend(a: seq<Handler>, b: seq<Handler>, h: Handler)
    ensures Calls(a + b, h) == Calls(a, h) + Calls(b, h)
    decreases |b|
  {
    if b == [] {
      assert a + b == a;
    } else {
      CallsAppend(a, b[..|b| - 1], h);
      assert (a + b)[..|a + b| - 1] == a + b[..|b| - 1];
    }
  }

  lemma {:induction false} CallsWithout(handlers: seq<Handler>, h: Handler, gone: Handler)
    requires h != gone
    ensures Calls(Without(handlers, gone), h) == Calls(handlers, h)
    decreases |handlers|
  {
    if handlers != [] {
      CallsWithout(handlers[1..], h, gone);
      assert handlers == [handlers[0]] + handlers[1..] && [handlers[0]][..0] == [];
      CallsAppend([handlers[0]], handlers[1..], h);
      CallsAppend([handlers[0]], Without(handlers[1..], gone), h);
      assert [] + Without(handlers[1..], gone) == Without(handlers[1..], gone);
    }
  }

  lemma {:induction false} CallsNone(handlers: seq<Handler>, h: Handler)
    requires h !in handlers
    ensures Calls(handlers, h) == 0
    decreases |handlers|
  {
    if handlers != [] { CallsNone(handlers[..|handlers| - 1], h); }
  }

  lemma {:induction false} ReceivedTo(h: Handler, topic: string, handlers: seq<Handler>, event: Event)
    ensures Received(h, topic, To(handlers, event)) ==
            seq(if event.eventType == topic then Calls(handlers, h) else 0, _ => event)
    decreases |handlers|
  {
    if handlers != [] {
      ReceivedTo(h, topic, handlers[..|handlers| - 1], event);
      assert To(handlers, event)[..|handlers| - 1] == To(handlers[..|handlers| - 1], event);
    }
  }

  /** The action neither subscribes nor unsubscribes `h` where `topic` would reach it. */
  predicate Spares(h: Handler, topic: string, action: Action) {
    action.Publishing? || action.handler != h || (action.topic != topic && action.topic != WILDCARD)
  }

  /** A publish on `topic` calls `h` once. */
  ghost predicate CalledOnce(subs: Subscribers, topic: string, h: Handler) {
    Calls(Subscribed(subs, topic), h) == 1 && Calls(Subscribed(subs, WILDCARD), h) == 0
  }

  lemma {:induction false} SparedStaysOnce(subs: Subscribers, topic: string, h: Handler, action: Action)
    requires topic != WILDCARD && CalledOnce(subs, topic, h) && Spares(h, topic, action)
    ensures CalledOnce(NextSubs(subs, action), topic, h)
  {
    match action
    case Publishing(_) =>
    case Subscribing(t, other) =>
      CallsAppend(Subscribed(subs, t), [other], h);
      assert [other][..0] == [];
    case Unsubscribing(t, other) => if t in subs && other != h { CallsWithout(subs[t], h, other); }
  }

  lemma {:induction false} ReceivedOnce(subs: Subscribers, topic: string, h: Handler, e: Event)
    requires CalledOnce(subs, topic, h)
    ensures Received(h, topic, Deliver(subs, e)) == if e.eventType == topic then [e] else []
  {
    var own, wild := Subscribed(subs, e.eventType), Subscribed(subs, WILDCARD);
    CallsAppend(own, wild, h);
    ReceivedTo(h, topic, own + wild, e);
  }

  lemma {:induction false} ReceivedLater(h: Handler, topic: string, subs: Subscribers, actions: seq<Action>)
    requires topic != WILDCARD && CalledOnce(subs, topic, h)
    requires forall action :: action in actions ==> Spares(h, topic, action)
    ensures CalledOnce(SubsAfter(subs, actions), topic, h)
    ensures Received(h, topic, DeliverAll(subs, actions)) == OfType(Published(actions), topic)
    decreases |actions|
  {
    if actions != [] {
      var done, last := actions[..|actions| - 1], actions[|actions| - 1];
      var now := SubsAfter(subs, done);
      ReceivedLater(h, topic, subs, done);
      SparedStaysOnce(now, topic, h, last);
      ReceivedAppends(h, topic, DeliverAll(subs, done), Delivered(now, last));
      if last.Publishing? {
        ReceivedOnce(now, topic, h, last.event);
        OfTypeAppends(Published(done), [last.event], topic);
        assert [last.event][..0] == [];
      } else {
        assert Published(actions) == Published(done);
      }
    }
  }

  lemma {:induction false} LogIsSuffix(events: seq<Event>, limit: int) returns (k: nat)
    ensures k <= |events| && Log(events, limit) == events[k..]
    ensures |events| <= limit ==> k == 0
  {
    LogIsExact(events, limit);
    k := if limit > 0 then (if |events| <= limit then 0 else |events| - limit) else if limit == 0 then 0 else |events|;
  }

  lemma {:induction false} ReplayThenLive(published: seq<Event>, limit: int, subs: Subscribers, h: Handler,
                                          topic: string, later: seq<Action>)
    requires topic != WILDCARD && h !in Subscribed(subs, topic) && h !in Subscribed(subs, WILDCARD)
    requires forall action :: action in later ==> Spares(h, topic, action)
    ensures Received(h, topic, Joined(published, limit, subs, h, topic, later)) ==
            OfType(Log(published, limit), topic) + OfType(Published(later), topic)
  {
    var kept := Log(published, limit);
    ReceivedAppends(h, topic, Each(h, OfType(kept, topic)), DeliverAll(Joining(subs, topic, h), later));
    ReceivedEach(h, topic, OfType(kept, topic));
    OfTypeIdempotent(kept, topic);
    JoinsOnce(subs, topic, h);
    ReceivedLater(h, topic, Joining(subs, topic, h), later);
  }

  lemma {:induction false} JoinsOnce(subs: Subscribers, topic: string, h: Handler)
    requires topic != WILDCARD && h !in Subscribed(subs, topic) && h !in Subscribed(subs, WILDCARD)
    ensures CalledOnce(Joining(subs, topic, h), topic, h)
  {
    CallsNone(Subscribed(subs, topic), h);
    CallsNone(Subscribed(subs, WILDCARD), h);
    CallsAppend(Subscribed(subs, topic), [h], h);
    assert [h][..0] == [];
  }

  /** Main result: a handler that replays its topic and then subscribes has been given, after any
      further events and whatever other handlers subscribe or unsubscribe between them, a suffix
      of that topic's whole history: no gap and no repeat, and all of it while nothing has been
      trimmed. `EventBus.JoinLate` delivers exactly `Joined`. */
  lemma {:induction false} LateSubscriberSeesSuffix(published: seq<Event>, limit: int, subs: Subscribers,
                                                    h: Handler, topic: string, later: seq<Action>)
    returns (k: nat)
    requires topic != WILDCARD && topic != "" && h !in Subscribed(subs, topic) && h !in Subscribed(subs, WILDCARD)
    requires forall action :: action in later ==> Spares(h, topic, action)
    ensures k <= |OfType(published + Published(later), topic)|
    ensures Received(h, topic, Joined(published, limit, subs, h, topic, later)) ==
            OfType(published + Published(later), topic)[k..]
    ensures k <= |OfType(published, topic)| && (|published| <= limit ==> k == 0)
  {
    var cut := LogIsSuffix(published, limit);
    ReplayThenLive(published, limit, subs, h, topic, later);
    k := |OfType(published[..cut], topic)|;
    TopicSuffix(published, cut, topic, Published(later));
  }

  lemma {:induction false} TopicSuffix(published: seq<Event>, cut: nat, topic: string, later: seq<Event>)
    requires cut <= |published|
    ensures var k := |OfType(published[..cut], topic)|;
      k <= |OfType(published, topic)| && k <= |OfType(published + later, topic)| &&
      OfType(published + later, topic)[k..] == OfType(published[cut..], topic) + OfType(later, topic)
  {
    assert published[..cut] + published[cut..] == published;
    OfTypeAppends(published[..cut], published[cut..], topic);
    OfTypeAppends(published, later, topic);
  }

  // ---------------------------------------------------------------- one publish

  function HandlersOf(log: seq<Delivery>): seq<Handler> {
    seq(|log|, i requires 0 <= i < |log| => log[i].handler)
  }

  /** A publish calls the handlers subscribed to the type and then the ones subscribed to "*", in
      the order they subscribed, each as often as it stands in the two lists. */
  lemma {:induction false} PublishCallsEach(subs: Subscribers, event: Event)
    ensures var topic := if event.eventType in subs then subs[event.eventType] else [];
      var every := if "*" in subs then subs["*"] else [];
      && HandlersOf(Deliver(subs, event)) == topic + every
      && (forall d :: d in Deliver(subs, event) ==> d.event == event)
      && forall h :: multiset(HandlersOf(Deliver(subs, event)))[h] == multiset(topic)[h] + multiset(every)[h]
  {
    var all := Subscribed(subs, event.eventType) + Subscribed(subs, WILDCARD);
    assert HandlersOf(Deliver(subs, event)) == all;
  }

  /** The events of a type, in order and no others. */
  lemma {:induction false} OfTypeIsFilter(events: seq<Event>, topic: string, i: nat)
    requires i < |events|
    ensures OfType(events, topic) == OfType(events[..i], topic)
      + (if events[i].eventType == topic then [events[i]] else []) + OfType(events[i + 1..], topic)
  {
    assert events == events[..i] + ([events[i]] + events[i + 1..]);
    OfTypeAppends(events[..i], [events[i]] + events[i + 1..], topic);
    OfTypeAppends([events[i]], events[i + 1..], topic);
    assert [events[i]][..0] == [];
  }
}
