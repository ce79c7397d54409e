/**
 Delivery of a queued notice to the other backend, at least once. One attempt is one call of `handle`; its
 environment says what the database, the network and the deployment did, and where the process died.
 */
module CallbackDelivery {
  import opened Wrappers

  type EventId = nat

  /** The shapes a stored payload can have, as far as `leerAviso` looks. */
  datatype Body = NoBody | ScalarBody | ArrayBody | ObjectBody

  datatype Payload = Nothing | Payload(route: Option<string>, body: Body)

  datatype Event = Event(id: EventId, payload: Payload)

  datatype Config = Config(disabled: bool, hasBase: bool, hasKey: bool)

  datatype Reply = NetworkError | Status(code: int)

  /** The insertion of the mark: done, refused, or done by a process that died before it could return. */
  datatype MarkWrite = Written | NotWritten | WrittenThenDied

  /** A false flag is a failure of that step or the death of the process at that point. */
  datatype Environment = Environment(config: Config, readOk: bool, reply: Reply, auditOk: bool, mark: MarkWrite)

  datatype Attempt = Attempt(event: Event, env: Environment)

  datatype Outcome = Delivered | Permanent | Transient

  datatype Post = Post(id: EventId, reply: Reply)

  datatype Audit = Audit(id: EventId, permanent: bool)

  datatype World = World(processed: set<EventId>, posts: seq<Post>, audits: seq<Audit>)

  datatype Handled = Handled(world: World, returned: bool)

  // ---------------------------------------------------------------------------
  // One attempt
  // ---------------------------------------------------------------------------

  /** `leerAviso`: a route that starts with a slash and a body that is an object */
  predicate WellFormed(p: Payload) {
    && p.Payload? && p.route.Some? && |p.route.value| > 0 && p.route.value[0] == '/'
    && p.body == ObjectBody
  }

  predicate Ok(code: int) {
    200 <= code <= 299
  }

  function Classify(r: Reply): Outcome {
    match r
    case NetworkError => Transient
    case Status(code) =>
      if Ok(code) then Delivered
      else if code >= 500 || code in {408, 425, 429} then Transient
      else Permanent
  }

  /** `marcarEntregado` and the return after it */
  function Mark(w: World, id: EventId, m: MarkWrite): Handled {
    Handled(if m == NotWritten then w else w.(processed := w.processed + {id}), m == Written)
  }

  /** What follows a failed outcome: the audit row, then the mark or the throw */
  function Fail(w: World, id: EventId, permanent: bool, env: Environment): Handled {
    if !env.auditOk then Handled(w, false)
    else
      var audited := w.(audits := w.audits + [Audit(id, permanent)]);
      if permanent then Mark(audited, id, env.mark) else Handled(audited, false)
  }

  function Send(w: World, id: EventId, env: Environment): Handled {
    var posted := w.(posts := w.posts + [Post(id, env.reply)]);
    match Classify(env.reply)
    case Delivered => Mark(posted, id, env.mark)
    case Permanent => Fail(posted, id, true, env)
    case Transient => Fail(posted, id, false, env)
  }

  /** `handle` */
  function Handle(w: World, a: Attempt): Handled {
    if !WellFormed(a.event.payload) then Handled(w, true)
    else if !a.env.readOk then Handled(w, false)
    else if a.event.id in w.processed then Handled(w, true)
    else if a.env.config.disabled then Mark(w, a.event.id, a.env.mark)
    else if a.env.config.hasBase && a.env.config.hasKey then Send(w, a.event.id, a.env)
    else Fail(w, a.event.id, false, a.env)
  }

  function Start(): World {
    World({}, [], [])
  }

  function Run(attempts: seq<Attempt>): World {
    if attempts == [] then Start()
    else Handle(Run(attempts[..|attempts| - 1]), attempts[|attempts| - 1]).world
  }

  // ---------------------------------------------------------------------------
  // What an attempt may do, in terms of statuses and flags alone
  // ---------------------------------------------------------------------------

  /** A payload that can be delivered: a route of the other backend and a body with fields */
  predicate Deliverable(p: Payload) {
    && p != Nothing
    && p.route != None && "/" <= p.route.value
    && p.body !in {NoBody, ScalarBody, ArrayBody}
  }

  /** The other side took the notice over: a 2xx. */
  predicate TakenOver(r: Reply) {
    r.Status? && 200 <= r.code < 300
  }

  /** No answer, a failure of the server, or one of the three 4xx that say to come back */
  predicate WorthRetrying(r: Reply) {
    r == NetworkError || r.code >= 500 || r.code == 408 || r.code == 425 || r.code == 429
  }

  /** Every other answer, whatever the next attempt may be */
  predicate Hopeless(r: Reply) {
    && r.Status?
    && (r.code < 200 || 300 <= r.code < 408 || 408 < r.code < 425 || 425 < r.code < 429 || 429 < r.code < 500)
  }

  /** Which answers deliver, which are retried and which are given up */
  lemma ClassifiesExactly(r: Reply)
    ensures Classify(r) == Delivered <==> TakenOver(r)
    ensures Classify(r) == Transient <==> WorthRetrying(r)
    ensures Classify(r) == Permanent <==> Hopeless(r)
  {
  }

  lemma WellFormedExactly(p: Payload)
    ensures WellFormed(p) <==> Deliverable(p)
  {
    if p != Nothing && p.route != None && |p.route.value| > 0 {
      assert p.route.value[0] == '/' <==> "/" <= p.route.value;
    }
  }

  /** The attempt finds an event that is neither settled nor declared to go nowhere. */
  predicate Tries(w: World, a: Attempt) {
    Deliverable(a.event.payload) && a.env.readOk && a.event.id !in w.processed && !a.env.config.disabled
  }

  /** The attempt reaches the network. */
  predicate Posts(w: World, a: Attempt) {
    Tries(w, a) && a.env.config.hasBase && a.env.config.hasKey
  }

  /** The attempt leaves its failure in the audit trail. */
  predicate Audits(w: World, a: Attempt) {
    && Tries(w, a) && a.env.auditOk
    && !(a.env.config.hasBase && a.env.config.hasKey && TakenOver(a.env.reply))
  }

  /** What entitles an attempt to leave the mark */
  predicate Entitled(w: World, a: Attempt) {
    || (Posts(w, a) && TakenOver(a.env.reply))
    || (Posts(w, a) && Hopeless(a.env.reply) && a.env.auditOk)
    || (Deliverable(a.event.payload) && a.env.readOk && a.event.id !in w.processed && a.env.config.disabled)
  }

  /** The attempt ends without an exception, in a process that is still alive. */
  predicate Returns(w: World, a: Attempt) {
    || !Deliverable(a.event.payload)
    || (a.env.readOk && a.event.id in w.processed)
    || (Entitled(w, a) && a.env.mark == Written)
  }

  /** The whole effect of an attempt: at most one POST, one audit row and one mark, all for its own event */
  lemma AttemptEffect(w: World, a: Attempt)
    ensures var h := Handle(w, a);
            && h.world.posts == w.posts + (if Posts(w, a) then [Post(a.event.id, a.env.reply)] else [])
            && h.world.audits == w.audits
                 + (if Audits(w, a) then [Audit(a.event.id, Posts(w, a) && Hopeless(a.env.reply))] else [])
            && h.world.processed == w.processed + (if Entitled(w, a) && a.env.mark != NotWritten then {a.event.id} else {})
            && (h.returned <==> Returns(w, a))
  {
    hide Classify, WellFormed, Deliverable, TakenOver, WorthRetrying, Hopeless;
    WellFormedExactly(a.event.payload);
    ClassifiesExactly(a.env.reply);
  }

  /** A normal return means that the mark is there, or that the event could never be delivered. */
  lemma ReturnMeansSettled(w: World, a: Attempt)
    requires Handle(w, a).returned
    ensures a.event.id in Handle(w, a).world.processed || !Deliverable(a.event.payload)
  {
    hide Handle, Deliverable;
    AttemptEffect(w, a);
  }

  /** The statuses taken for permanent are wider than the 4xx ones the dispatcher announces. */
  lemma PermanentExactly(code: int)
    ensures Classify(Status(code)) == Permanent <==>
              code < 200 || 300 <= code <= 399 || (400 <= code <= 499 && code != 408 && code != 425 && code != 429)
  {
  }

  // ---------------------------------------------------------------------------
  // Whole runs
  // ---------------------------------------------------------------------------

  /** Attempt k of the run, for the event, in the world it finds, was entitled to the mark. */
  ghost predicate EntitledAt(attempts: seq<Attempt>, id: EventId, k: int) {
    0 <= k < |attempts| && attempts[k].event.id == id && Entitled(Run(attempts[..k]), attempts[k])
  }

  ghost predicate EverEntitled(attempts: seq<Attempt>, id: EventId) {
    exists k :: EntitledAt(attempts, id, k)
  }

  /** A mark exists only after a 2xx, an audited permanent answer, or the declared opt-out. */
  lemma {:induction false} MarksAreEntitled(attempts: seq<Attempt>, id: EventId)
    ensures id in Run(attempts).processed ==> EverEntitled(attempts, id)
  {
    if attempts != [] {
      var n := |attempts| - 1;
      MarksAreEntitled(attempts[..n], id);
      AttemptEffect(Run(attempts[..n]), attempts[n]);
      if id in Run(attempts[..n]).processed {
        var k :| EntitledAt(attempts[..n], id, k);
        assert attempts[..n][..k] == attempts[..k];
        assert EntitledAt(attempts, id, k);
      } else if id in Run(attempts).processed {
        assert EntitledAt(attempts, id, n);
      }
    }
  }

  function PostsOf(posts: seq<Post>, id: EventId): seq<Post> {
    if posts == [] then []
    else PostsOf(posts[..|posts| - 1], id) + if posts[|posts| - 1].id == id then [posts[|posts| - 1]] else []
  }

  lemma PostsOfAppend(posts: seq<Post>, p: Post, id: EventId)
    ensures PostsOf(posts + [p], id) == PostsOf(posts, id) + if p.id == id then [p] else []
  {
    assert (posts + [p])[..|posts|] == posts;
  }

  /** Once marked, the event stays marked and is never posted again, whatever happens next. */
  lemma {:induction false} NoPostAfterMark(attempts: seq<Attempt>, more: seq<Attempt>, id: EventId)
    requires id in Run(attempts).processed
    ensures id in Run(attempts + more).processed
    ensures PostsOf(Run(attempts + more).posts, id) == PostsOf(Run(attempts).posts, id)
  {
    if more == [] {
      assert attempts + more == attempts;
    } else {
      var n := |more| - 1;
      NoPostAfterMark(attempts, more[..n], id);
      assert (attempts + more)[..|attempts + more| - 1] == attempts + more[..n];
      var w, a := Run(attempts + more[..n]), more[n];
      AttemptEffect(w, a);
      if Posts(w, a) {
        PostsOfAppend(w.posts, Post(a.event.id, a.env.reply), id);
      }
    }
  }

  function Accepted(posts: seq<Post>): nat {
    if posts == [] then 0
    else Accepted(posts[..|posts| - 1]) + if TakenOver(posts[|posts| - 1].reply) then 1 else 0
  }

  /** The attempt was answered with a 2xx and died, or was refused, before the mark was written. */
  predicate Interrupted(w: World, a: Attempt, id: EventId) {
    a.event.id == id && Posts(w, a) && TakenOver(a.env.reply) && a.env.mark == NotWritten
  }

  function Interruptions(attempts: seq<Attempt>, id: EventId): nat {
    if attempts == [] then 0
    else
      var n := |attempts| - 1;
      Interruptions(attempts[..n], id) + if Interrupted(Run(attempts[..n]), attempts[n], id) then 1 else 0
  }

  lemma AcceptedAppend(posts: seq<Post>, p: Post)
    ensures Accepted(posts + [p]) == Accepted(posts) + if TakenOver(p.reply) then 1 else 0
  {
    assert (posts + [p])[..|posts|] == posts;
  }

  /** One attempt adds an accepted POST of the event, an interruption and a mark as its answer says. */
  lemma AttemptAccepts(w: World, a: Attempt, id: EventId)
    ensures var after := Handle(w, a).world;
            && Accepted(PostsOf(after.posts, id)) == Accepted(PostsOf(w.posts, id))
                 + (if a.event.id == id && Posts(w, a) && TakenOver(a.env.reply) then 1 else 0)
            && (id in w.processed ==> id in after.processed)
            && (id !in after.processed && a.event.id == id && Posts(w, a) && TakenOver(a.env.reply) ==>
                  a.env.mark == NotWritten)
  {
    hide Handle, Deliverable, TakenOver, Hopeless;
    AttemptEffect(w, a);
    if Posts(w, a) {
      PostsOfAppend(w.posts, Post(a.event.id, a.env.reply), id);
      AcceptedAppend(PostsOf(w.posts, id), Post(a.event.id, a.env.reply));
      assert PostsOf(w.posts, id) + [] == PostsOf(w.posts, id);
    } else {
      assert Handle(w, a).world.posts == w.posts;
    }
  }

  /**
   The other side accepts an event at most once more than the number of times a 2xx was not followed by the
   mark, and exactly as often as that while there is no mark.
   */
  lemma {:induction false} AcceptedAtMostOnceMore(attempts: seq<Attempt>, id: EventId)
    ensures var accepted := Accepted(PostsOf(Run(attempts).posts, id));
            && accepted <= Interruptions(attempts, id) + 1
            && (id !in Run(attempts).processed ==> accepted == Interruptions(attempts, id))
  {
    hide Handle, Deliverable, TakenOver, Hopeless, PostsOf, Accepted;
    if attempts == [] {
      NothingAccepted(id);
    } else {
      var n := |attempts| - 1;
      AcceptedAtMostOnceMore(attempts[..n], id);
      AttemptAccepts(Run(attempts[..n]), attempts[n], id);
    }
  }

  lemma NothingAccepted(id: EventId)
    ensures Accepted(PostsOf(Start().posts, id)) == 0
  {
  }

  // ---------------------------------------------------------------------------
  // The relay
  // ---------------------------------------------------------------------------

  /** One emission of a row: the handlers before and after the dispatcher, and the dispatcher's own attempt. */
  datatype Emission = Emission(before: bool, attempt: Attempt, after: bool)

  datatype Row = Row(world: World, published: bool)

  /** Handlers run in order and the first failure ends the emission; a published row is not emitted again. */
  function Emit(r: Row, e: Emission): Row {
    if r.published || !e.before then r
    else
      var h := Handle(r.world, e.attempt);
      Row(h.world, h.returned && e.after)
  }

  function Relay(emissions: seq<Emission>): Row {
    if emissions == [] then Row(Start(), false)
    else Emit(Relay(emissions[..|emissions| - 1]), emissions[|emissions| - 1])
  }

  /** Emission k runs through: the handlers on both sides of the dispatcher succeed and its attempt returns. */
  ghost predicate RunsThrough(emissions: seq<Emission>, k: int) {
    && 0 <= k < |emissions| && emissions[k].before && emissions[k].after
    && Returns(Relay(emissions[..k]).world, emissions[k].attempt)
  }

  ghost predicate SomeRunsThrough(emissions: seq<Emission>) {
    exists k :: RunsThrough(emissions, k)
  }

  /** A row leaves the outbox exactly with the first emission that runs through. */
  lemma {:induction false} PublishedExactly(emissions: seq<Emission>)
    ensures Relay(emissions).published <==> SomeRunsThrough(emissions)
  {
    hide Handle, Returns;
    if emissions != [] {
      var n := |emissions| - 1;
      PublishedExactly(emissions[..n]);
      AttemptEffect(Relay(emissions[..n]).world, emissions[n].attempt);
      forall k | 0 <= k < n
        ensures RunsThrough(emissions, k) <==> RunsThrough(emissions[..n], k)
      {
        assert emissions[..n][..k] == emissions[..k];
      }
      if Relay(emissions[..n]).published {
        var k :| RunsThrough(emissions[..n], k);
        assert RunsThrough(emissions, k);
      } else if Relay(emissions).published {
        assert RunsThrough(emissions, n);
      }
    }
  }

  /** The attempts that emissions lead to: those behind handlers that succeed, up to the first that runs through */
  ghost function Attempts(emissions: seq<Emission>): seq<Attempt> {
    if emissions == [] then []
    else
      var n := |emissions| - 1;
      Attempts(emissions[..n])
      + if !SomeRunsThrough(emissions[..n]) && emissions[n].before then [emissions[n].attempt] else []
  }

  /** What the relay does to the other side is a run of attempts, so whatever holds of runs holds of it. */
  lemma {:induction false} RelayIsARun(emissions: seq<Emission>)
    ensures Relay(emissions).world == Run(Attempts(emissions))
  {
    hide Handle, SomeRunsThrough;
    if emissions != [] {
      var n := |emissions| - 1;
      RelayIsARun(emissions[..n]);
      PublishedExactly(emissions[..n]);
      var attempts := Attempts(emissions[..n]);
      assert (attempts + [emissions[n].attempt])[..|attempts|] == attempts;
      assert attempts + [] == attempts;
    }
  }

  ghost predicate AllFor(emissions: seq<Emission>, event: Event) {
    forall i | 0 <= i < |emissions| :: emissions[i].attempt.event == event
  }

  /** A row leaves the outbox only with its mark written, unless its payload was malformed. */
  lemma {:induction false} PublishedMeansSettled(emissions: seq<Emission>, event: Event)
    requires AllFor(emissions, event)
    ensures Relay(emissions).published ==> event.id in Relay(emissions).world.processed || !Deliverable(event.payload)
  {
    hide Handle, Deliverable, TakenOver, Hopeless;
    if emissions != [] {
      var n := |emissions| - 1;
      PublishedMeansSettled(emissions[..n], event);
      var r := Relay(emissions[..n]);
      AttemptEffect(r.world, emissions[n].attempt);
    }
  }

  /** Nothing is lost: with the configuration, the network and the database in order, the next emission settles the row. */
  lemma GoodEmissionSettles(r: Row, e: Emission)
    requires !r.published && e.before && e.after && Deliverable(e.attempt.event.payload)
    requires e.attempt.env.readOk && e.attempt.env.mark == Written && !e.attempt.env.config.disabled
    requires e.attempt.env.config.hasBase && e.attempt.env.config.hasKey && TakenOver(e.attempt.env.reply)
    ensures Emit(r, e).published && e.attempt.event.id in Emit(r, e).world.processed
  {
    AttemptEffect(r.world, e.attempt);
  }
}
