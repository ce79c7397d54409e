/**
 The in-process event bus. Each event type has a set object; an unsubscribe closure keeps the set object it
 was born with, which need not be the one the type uses when the closure runs.
 */
module EventBus {
  /** The identity of a handler function. */
  type Handler = nat

  type SetId = nat

  const ALL_EVENTS := "*"

  /** A set object: the type it was created for and its members in insertion order. */
  datatype HandlerSet = HandlerSet(kind: string, members: seq<Handler>)

  /** `sets` holds every set object ever created, also those the bus no longer refers to. */
  datatype Bus = Bus(handlers: map<string, SetId>, sets: map<SetId, HandlerSet>, next: SetId)

  /** What an unsubscribe closure captured. */
  datatype Subscription = Subscription(kind: string, handler: Handler, captured: SetId)

  // ---------------------------------------------------------------------------
  // Subscribing
  // ---------------------------------------------------------------------------

  function Add(members: seq<Handler>, h: Handler): seq<Handler> {
    if h in members then members else members + [h]
  }

  function Remove(members: seq<Handler>, h: Handler): seq<Handler> {
    if members == [] then []
    else if members[0] == h then Remove(members[1..], h)
    else [members[0]] + Remove(members[1..], h)
  }

  function MembersOf(b: Bus, id: SetId): seq<Handler> {
    if id in b.sets then b.sets[id].members else []
  }

  function SubscribedSet(b: Bus, kind: string): SetId {
    if kind in b.handlers then b.handlers[kind] else b.next
  }

  function Subscribed(b: Bus, kind: string, h: Handler): Bus {
    var id := SubscribedSet(b, kind);
    Bus(b.handlers[kind := id], b.sets[id := HandlerSet(kind, Add(MembersOf(b, id), h))],
        if kind in b.handlers then b.next else b.next + 1)
  }

  function Unsubscribed(b: Bus, s: Subscription): Bus {
    var left := Remove(MembersOf(b, s.captured), s.handler);
    Bus(if left == [] then b.handlers - {s.kind} else b.handlers, b.sets[s.captured := HandlerSet(s.kind, left)], b.next)
  }

  /** The handlers an event of the type reaches by its own type. */
  function Of(b: Bus, kind: string): seq<Handler> {
    if kind in b.handlers then MembersOf(b, b.handlers[kind]) else []
  }

  function Targets(b: Bus, kind: string): seq<Handler> {
    Of(b, kind) + Of(b, ALL_EVENTS)
  }

  function Empty(): Bus {
    Bus(map[], map[], 0)
  }

  /** The set a type uses is its own and not empty. */
  ghost predicate Inv(b: Bus) {
    && (forall id | id in b.sets :: id < b.next)
    && (forall kind | kind in b.handlers :: b.handlers[kind] in b.sets)
    && (forall kind | kind in b.handlers :: b.sets[b.handlers[kind]].kind == kind && b.sets[b.handlers[kind]].members != [])
  }

  /** A closure handed out earlier. */
  ghost predicate Issued(b: Bus, s: Subscription) {
    s.captured in b.sets && b.sets[s.captured].kind == s.kind
  }

  lemma {:induction false} RemoveMembers(members: seq<Handler>, h: Handler, x: Handler)
    ensures x in Remove(members, h) <==> x in members && x != h
  {
    if members != [] {
      RemoveMembers(members[1..], h, x);
      assert members == [members[0]] + members[1..];
    }
  }

  lemma SubscribeKeepsInv(b: Bus, kind: string, h: Handler)
    requires Inv(b)
    ensures Inv(Subscribed(b, kind, h))
    ensures Issued(Subscribed(b, kind, h), Subscription(kind, h, SubscribedSet(b, kind)))
    ensures forall s | Issued(b, s) :: Issued(Subscribed(b, kind, h), s)
    ensures Of(Subscribed(b, kind, h), kind) == Add(Of(b, kind), h)
    ensures forall other | other != kind :: Of(Subscribed(b, kind, h), other) == Of(b, other)
  {
  }

  lemma UnsubscribeKeepsInv(b: Bus, s: Subscription)
    requires Inv(b) && Issued(b, s)
    ensures Inv(Unsubscribed(b, s))
    ensures forall t | Issued(b, t) :: Issued(Unsubscribed(b, s), t)
    ensures forall other | other != s.kind :: Of(Unsubscribed(b, s), other) == Of(b, other)
  {
  }

  // ---------------------------------------------------------------------------
  // What one closure silences
  // ---------------------------------------------------------------------------

  /** The type has moved on to another set, and the captured one is left empty. */
  predicate Stale(b: Bus, s: Subscription) {
    && s.kind in b.handlers && b.handlers[s.kind] != s.captured
    && Remove(MembersOf(b, s.captured), s.handler) == []
  }

  ghost predicate SilencesAnother(b: Bus, s: Subscription) {
    exists h :: h != s.handler && h in Of(b, s.kind) && h !in Of(Unsubscribed(b, s), s.kind)
  }

  /** An unsubscribe takes away exactly its own handler, unless its set is stale: then it takes the whole type away. */
  lemma UnsubscribeRemoves(b: Bus, s: Subscription)
    requires Inv(b) && Issued(b, s)
    ensures Stale(b, s) ==> Of(Unsubscribed(b, s), s.kind) == []
    ensures !Stale(b, s) && s.kind in b.handlers && b.handlers[s.kind] == s.captured ==>
              Of(Unsubscribed(b, s), s.kind) == Remove(Of(b, s.kind), s.handler)
    ensures !Stale(b, s) && (s.kind in b.handlers ==> b.handlers[s.kind] != s.captured) ==>
              Of(Unsubscribed(b, s), s.kind) == Of(b, s.kind)
  {
  }

  /** In every state: which handlers of which types a closure silences. */
  lemma ClosureSilencesExactly(b: Bus, s: Subscription, kind: string, h: Handler)
    requires Inv(b) && Issued(b, s) && h in Of(b, kind)
    ensures h !in Of(Unsubscribed(b, s), kind) <==>
              kind == s.kind && (Stale(b, s) || (b.handlers[kind] == s.captured && h == s.handler))
  {
    UnsubscribeKeepsInv(b, s);
    UnsubscribeRemoves(b, s);
    RemoveMembers(Of(b, s.kind), s.handler, h);
  }

  /** Other handlers of the type go silent exactly when the closure is stale and there is another handler. */
  lemma SilencesExactly(b: Bus, s: Subscription)
    requires Inv(b) && Issued(b, s)
    ensures SilencesAnother(b, s) <==> Stale(b, s) && exists h :: h != s.handler && h in Of(b, s.kind)
  {
    forall h | h in Of(b, s.kind)
      ensures h !in Of(Unsubscribed(b, s), s.kind) <==>
                Stale(b, s) || (b.handlers[s.kind] == s.captured && h == s.handler)
    {
      ClosureSilencesExactly(b, s, s.kind, h);
    }
  }

  /** Unsubscribe, let another handler subscribe, unsubscribe again: the newcomer is gone. */
  lemma SecondCallSilencesTheNewcomer(kind: string, first: Handler, second: Handler)
    requires first != second
    ensures var s := Subscription(kind, first, 0);
            var renewed := Subscribed(Unsubscribed(Subscribed(Empty(), kind, first), s), kind, second);
            && Of(renewed, kind) == [second]
            && Of(Unsubscribed(renewed, s), kind) == []
  {
    var one := Subscribed(Empty(), kind, first);
    assert one.sets[0] == HandlerSet(kind, [first]) && one.next == 1;
    EmptiedThenRenewed(one, kind, first, second);
  }

  lemma EmptiedThenRenewed(one: Bus, kind: string, first: Handler, second: Handler)
    requires one.handlers == map[kind := 0] && one.sets == map[0 := HandlerSet(kind, [first])] && one.next == 1
    requires first != second
    ensures var s := Subscription(kind, first, 0);
            var renewed := Subscribed(Unsubscribed(one, s), kind, second);
            && Of(renewed, kind) == [second] && Of(Unsubscribed(renewed, s), kind) == []
  {
    var s := Subscription(kind, first, 0);
    assert Remove([first], first) == [];
    var none := Unsubscribed(one, s);
    assert kind !in none.handlers && none.sets[0] == HandlerSet(kind, []) && none.next == 1;
    var renewed := Subscribed(none, kind, second);
    assert renewed.handlers[kind] == 1 && renewed.sets[1] == HandlerSet(kind, [second]) && renewed.sets[0].members == [];
  }

  /**
   Two subscriptions of one handler have closures that captured the same set; each run once, around the
   subscription of another handler, they take the newcomer away as one closure run twice does.
   */
  lemma TwinClosuresSilenceTheNewcomer(kind: string, twin: Handler, other: Handler)
    requires twin != other
    ensures var one := Subscribed(Empty(), kind, twin);
            var first, second := Subscription(kind, twin, SubscribedSet(Empty(), kind)), Subscription(kind, twin, SubscribedSet(one, kind));
            var renewed := Subscribed(Unsubscribed(Subscribed(one, kind, twin), first), kind, other);
            && Of(renewed, kind) == [other] && Of(Unsubscribed(renewed, second), kind) == []
  {
    var one := Subscribed(Empty(), kind, twin);
    assert one.sets[0] == HandlerSet(kind, [twin]) && one.next == 1 && one.handlers[kind] == 0;
    var both := Subscribed(one, kind, twin);
    assert both.sets == map[0 := HandlerSet(kind, [twin])] && both.handlers == map[kind := 0];
    EmptiedThenRenewed(both, kind, twin, other);
  }

  // ---------------------------------------------------------------------------
  // Whole runs
  // ---------------------------------------------------------------------------

  datatype Event = Subscribe(kind: string, handler: Handler) | Unsubscribe(index: nat)

  /** A live subscription, named by the position of its event. */
  datatype Entry = Entry(index: nat, kind: string, handler: Handler)

  /** The bus with the closures it handed out. */
  datatype World = World(bus: Bus, closures: map<nat, Subscription>)

  function Apply(w: World, e: Event, index: nat): World {
    match e
    case Subscribe(kind, handler) =>
      World(Subscribed(w.bus, kind, handler), w.closures[index := Subscription(kind, handler, SubscribedSet(w.bus, kind))])
    case Unsubscribe(i) => if i in w.closures then World(Unsubscribed(w.bus, w.closures[i]), w.closures) else w
  }

  function Run(events: seq<Event>): World {
    if events == [] then World(Empty(), map[])
    else Apply(Run(events[..|events| - 1]), events[|events| - 1], |events| - 1)
  }

  function Drop(live: seq<Entry>, index: nat): seq<Entry> {
    if live == [] then []
    else
      var n := |live| - 1;
      if live[n].index == index then Drop(live[..n], index) else Drop(live[..n], index) + [live[n]]
  }

  /** What a bus is for: subscriptions in order, each leaving when its closure runs. */
  function Live(events: seq<Event>): seq<Entry> {
    if events == [] then []
    else
      var n := |events| - 1;
      match events[n]
      case Subscribe(kind, handler) => Live(events[..n]) + [Entry(n, kind, handler)]
      case Unsubscribe(i) => Drop(Live(events[..n]), i)
  }

  /** The handlers of the live subscriptions of a type, each once, in the order of their first subscription. */
  function HandlersOf(live: seq<Entry>, kind: string): seq<Handler> {
    if live == [] then []
    else
      var n := |live| - 1;
      if live[n].kind == kind then Add(HandlersOf(live[..n], kind), live[n].handler) else HandlersOf(live[..n], kind)
  }

  predicate Twins(e: Entry, x: Entry) {
    e.index != x.index && e.kind == x.kind && e.handler == x.handler
  }

  /** The subscription is live and no other live one has its type and handler. */
  ghost predicate LiveAlone(live: seq<Entry>, index: nat) {
    && (exists e :: e in live && e.index == index)
    && (forall e, x | e in live && x in live && e.index == index :: !Twins(e, x))
  }

  /** Each closure runs at most once, and never while another live subscription shares its type and handler. */
  ghost predicate Disciplined(events: seq<Event>) {
    events == [] ||
    var n := |events| - 1;
    && Disciplined(events[..n])
    && (events[n].Unsubscribe? ==> LiveAlone(Live(events[..n]), events[n].index))
  }

  ghost predicate Distinct(live: seq<Entry>) {
    forall i, k | 0 <= i < k < |live| :: live[i].index != live[k].index
  }

  /** The closure of a live subscription still holds the set its type uses. */
  ghost predicate Current(w: World, e: Entry) {
    && e.index in w.closures && w.closures[e.index].kind == e.kind && w.closures[e.index].handler == e.handler
    && e.kind in w.bus.handlers && w.bus.handlers[e.kind] == w.closures[e.index].captured
  }

  ghost predicate Refines(w: World, live: seq<Entry>, now: nat) {
    && Inv(w.bus) && Distinct(live)
    && (forall e | e in live :: e.index < now && Current(w, e))
    && (forall i | i in w.closures :: i < now && Issued(w.bus, w.closures[i]))
    && (forall kind :: Of(w.bus, kind) == HandlersOf(live, kind))
  }

  lemma LastOf(live: seq<Entry>, e: Entry)
    ensures (live + [e])[..|live + [e]| - 1] == live
  {
  }

  lemma {:induction false} HandlersAre(live: seq<Entry>, kind: string, h: Handler)
    ensures h in HandlersOf(live, kind) <==> exists e :: e in live && e.kind == kind && e.handler == h
  {
    if live != [] {
      var n := |live| - 1;
      HandlersAre(live[..n], kind, h);
      assert live == live[..n] + [live[n]];
    }
  }

  lemma {:induction false} DropMembers(live: seq<Entry>, index: nat, e: Entry)
    ensures e in Drop(live, index) <==> e in live && e.index != index
  {
    if live != [] {
      var n := |live| - 1;
      DropMembers(live[..n], index, e);
      assert live == live[..n] + [live[n]];
    }
  }

  lemma {:induction false} DropKeepsDistinct(live: seq<Entry>, index: nat)
    requires Distinct(live)
    ensures Distinct(Drop(live, index))
  {
    if live != [] {
      var n := |live| - 1;
      DropKeepsDistinct(live[..n], index);
      var rest := Drop(live[..n], index);
      forall k | 0 <= k < |rest|
        ensures rest[k].index != live[n].index
      {
        DropMembers(live[..n], index, rest[k]);
        var i :| 0 <= i < n && live[..n][i] == rest[k];
        assert live[i] == rest[k];
      }
    }
  }

  lemma {:induction false} RemoveAppends(members: seq<Handler>, x: Handler, h: Handler)
    ensures Remove(members + [x], h) == if x == h then Remove(members, h) else Remove(members, h) + [x]
  {
    if members == [] {
      assert [x][1..] == [];
    } else {
      RemoveAppends(members[1..], x, h);
      assert (members + [x])[1..] == members[1..] + [x];
    }
  }

  lemma RemoveNothing(h: Handler)
    ensures Remove([], h) == []
  {
  }

  lemma AddAndRemove(members: seq<Handler>, x: Handler, h: Handler)
    ensures Remove(Add(members, x), h) == if x == h then Remove(members, h) else Add(Remove(members, h), x)
  {
    RemoveAppends(members, x, h);
    RemoveMembers(members, h, x);
  }

  lemma HandlersAppend(live: seq<Entry>, e: Entry, kind: string)
    ensures HandlersOf(live + [e], kind) == if e.kind == kind then Add(HandlersOf(live, kind), e.handler) else HandlersOf(live, kind)
  {
    hide Add;
    LastOf(live, e);
  }

  lemma DropAppend(live: seq<Entry>, e: Entry, index: nat)
    ensures Drop(live + [e], index) == if e.index == index then Drop(live, index) else Drop(live, index) + [e]
  {
    LastOf(live, e);
  }

  /** Dropping an entry without twins removes its handler from its type and touches no other type. */
  lemma {:induction false} DropRemoves(live: seq<Entry>, e: Entry, kind: string)
    requires forall x | x in live :: x.index == e.index <==> x.kind == e.kind && x.handler == e.handler
    ensures HandlersOf(Drop(live, e.index), kind)
         == if kind == e.kind then Remove(HandlersOf(live, kind), e.handler) else HandlersOf(live, kind)
  {
    hide Add, Remove;
    if live == [] {
      RemoveNothing(e.handler);
    } else {
      hide HandlersOf, Drop;
      var init, x := live[..|live| - 1], live[|live| - 1];
      assert live == init + [x];
      DropRemoves(init, e, kind);
      DropAppend(init, x, e.index);
      HandlersAppend(init, x, kind);
      HandlersAppend(Drop(init, e.index), x, kind);
      AddAndRemove(HandlersOf(init, kind), x.handler, e.handler);
    }
  }

  /** A subscription gives a set to a type that had none and leaves every other type with its own. */
  lemma SubscribeKeepsCurrent(w: World, now: nat, kind: string, h: Handler, x: Entry)
    requires Current(w, x) && x.index != now
    ensures Current(Apply(w, Subscribe(kind, h), now), x)
  {
  }

  lemma NewIsCurrent(w: World, now: nat, kind: string, h: Handler)
    ensures Current(Apply(w, Subscribe(kind, h), now), Entry(now, kind, h))
  {
  }

  lemma SubscribeRefines(w: World, live: seq<Entry>, now: nat, kind: string, h: Handler)
    requires Refines(w, live, now)
    ensures Refines(Apply(w, Subscribe(kind, h), now), live + [Entry(now, kind, h)], now + 1)
  {
    hide Inv, Issued, Of;
    var after, e := Apply(w, Subscribe(kind, h), now), Entry(now, kind, h);
    SubscribeKeepsInv(w.bus, kind, h);
    LastOf(live, e);
    assert forall i | 0 <= i < |live| :: live[i] in live;
    forall k
      ensures Of(after.bus, k) == HandlersOf(live + [e], k)
    {
    }
    hide Subscribed;
    forall x | x in live
      ensures Current(after, x)
    {
      SubscribeKeepsCurrent(w, now, kind, h, x);
    }
    NewIsCurrent(w, now, kind, h);
  }

  lemma UnsubscribeRefines(w: World, live: seq<Entry>, now: nat, e: Entry)
    requires Refines(w, live, now) && e in live && LiveAlone(live, e.index)
    ensures Refines(Apply(w, Unsubscribe(e.index), now), Drop(live, e.index), now + 1)
  {
    hide Subscribed, Unsubscribed;
    var after, s := Apply(w, Unsubscribe(e.index), now), w.closures[e.index];
    assert Current(w, e);
    UnsubscribeKeepsInv(w.bus, s);
    UnsubscribeRemoves(w.bus, s);
    forall x | x in live
      ensures x.index == e.index <==> x.kind == e.kind && x.handler == e.handler
    {
      SameEntry(live, x, e);
    }
    forall k
      ensures Of(after.bus, k) == HandlersOf(Drop(live, e.index), k)
    {
      DropRemoves(live, e, k);
    }
    DropKeepsDistinct(live, e.index);
    forall x | x in Drop(live, e.index)
      ensures x.index < now + 1 && Current(after, x)
    {
      DropMembers(live, e.index, x);
      HandlersAre(Drop(live, e.index), x.kind, x.handler);
      StaysCurrent(w, s, x);
    }
  }

  lemma SameEntry(live: seq<Entry>, x: Entry, e: Entry)
    requires Distinct(live) && x in live && e in live
    ensures x.index == e.index ==> x == e
  {
    var i :| 0 <= i < |live| && live[i] == x;
    var k :| 0 <= k < |live| && live[k] == e;
    assert i < k || k < i || i == k;
  }

  /** A type that still has handlers keeps its set. */
  lemma StaysCurrent(w: World, s: Subscription, x: Entry)
    requires Current(w, x) && Of(Unsubscribed(w.bus, s), x.kind) != []
    ensures Current(World(Unsubscribed(w.bus, s), w.closures), x)
  {
  }

  /**
   As long as every closure runs at most once, and alone in its type and handler, the bus delivers to exactly
   the handlers of the live subscriptions, once each, in the order they came.
   */
  lemma BusDeliversToTheLive(events: seq<Event>, kind: string)
    requires Disciplined(events)
    ensures Targets(Run(events).bus, kind) == HandlersOf(Live(events), kind) + HandlersOf(Live(events), ALL_EVENTS)
  {
    RunRefines(events);
  }

  lemma {:induction false} RunRefines(events: seq<Event>)
    requires Disciplined(events)
    ensures Refines(Run(events), Live(events), |events|)
  {
    hide Refines;
    if events == [] {
      NothingRefines();
    } else {
      var n := |events| - 1;
      RunRefines(events[..n]);
      match events[n]
      case Subscribe(kind, handler) => SubscribeRefines(Run(events[..n]), Live(events[..n]), n, kind, handler);
      case Unsubscribe(i) =>
        var e :| e in Live(events[..n]) && e.index == i;
        UnsubscribeRefines(Run(events[..n]), Live(events[..n]), n, e);
    }
  }

  lemma NothingRefines()
    ensures Refines(World(Empty(), map[]), [], 0)
  {
  }

  ghost predicate Heard(w: World, e: Entry) {
    e.handler in Of(w.bus, e.kind)
  }

  /**
   After such a run every live subscription is heard, and the next closure, run for the first time, silences
   another live subscription exactly when that one has the same type and the same handler.
   */
  lemma TwinsSilenceExactly(events: seq<Event>, e: Entry, x: Entry)
    requires Disciplined(events) && e in Live(events) && x in Live(events) && x.index != e.index
    ensures Heard(Run(events), x)
    ensures !Heard(Apply(Run(events), Unsubscribe(e.index), |events|), x) <==> x.kind == e.kind && x.handler == e.handler
  {
    hide Inv;
    RunRefines(events);
    var w := Run(events);
    assert Current(w, e);
    HandlersAre(Live(events), x.kind, x.handler);
    ClosureSilencesExactly(w.bus, w.closures[e.index], x.kind, x.handler);
  }

  // ---------------------------------------------------------------------------
  // The bus in place
  // ---------------------------------------------------------------------------

  class Service {
    var handlers: map<string, SetId>
    var sets: map<SetId, HandlerSet>
    var next: SetId

    function State(): Bus
      reads this
    {
      Bus(handlers, sets, next)
    }

    constructor ()
      ensures State() == Empty()
    {
      handlers, sets, next := map[], map[], 0;
    }

    /** `subscribe`; the result is what the returned closure captures. */
    method SubscribeHandler(kind: string, handler: Handler) returns (closure: Subscription)
      modifies this
      ensures State() == Subscribed(old(State()), kind, handler)
      ensures closure == Subscription(kind, handler, SubscribedSet(old(State()), kind))
    {
      var existing := next;
      if kind in handlers {
        existing := handlers[kind];
      } else {
        next := next + 1;
      }
      var members := if existing in sets then sets[existing].members else [];
      if handler !in members {
        members := members + [handler];
      }
      sets := sets[existing := HandlerSet(kind, members)];
      handlers := handlers[kind := existing];
      closure := Subscription(kind, handler, existing);
    }

    /** The closure `subscribe` returned */
    method RunClosure(closure: Subscription)
      modifies this
      ensures State() == Unsubscribed(old(State()), closure)
    {
      var left := Remove(MembersOf(State(), closure.captured), closure.handler);
      sets := sets[closure.captured := HandlerSet(closure.kind, left)];
      if left == [] {
        handlers := handlers - {closure.kind};
      }
    }

    /** `emit`: the handlers run in order until the first failure, which the caller sees. */
    method Emit(kind: string, succeeds: Handler -> bool) returns (called: seq<Handler>, ok: bool)
      ensures ok <==> forall i | 0 <= i < |Targets(State(), kind)| :: succeeds(Targets(State(), kind)[i])
      ensures called <= Targets(State(), kind)
      ensures ok ==> called == Targets(State(), kind)
      ensures !ok ==> called != [] && !succeeds(called[|called| - 1])
      ensures forall i | 0 <= i < |called| - 1 :: succeeds(called[i])
    {
      hide Targets;
      var targets := Targets(State(), kind);
      called := [];
      for i := 0 to |targets|
        invariant called == targets[..i]
        invariant forall k | 0 <= k < i :: succeeds(targets[k])
      {
        called := called + [targets[i]];
        if !succeeds(targets[i]) {
          return called, false;
        }
      }
      ok := true;
    }
  }
}
