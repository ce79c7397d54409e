/** The dispatcher with its tables updated in place; `HandleEvent` is proved to be one attempt. */
module CallbackDispatcher {
  import opened CallbackDelivery

  class Dispatcher {
    var processed: set<EventId>
    var posts: seq<Post>
    var audits: seq<Audit>

    function Seen(): World
      reads this
    {
      World(processed, posts, audits)
    }

    constructor ()
      ensures Seen() == Start()
    {
      processed, posts, audits := {}, [], [];
    }

    /** `marcarEntregado` */
    method MarkDelivered(id: EventId, m: MarkWrite) returns (ok: bool)
      modifies this`processed
      ensures Handled(Seen(), ok) == Mark(old(Seen()), id, m)
    {
      if m != NotWritten {
        processed := processed + {id};
      }
      ok := m == Written;
    }

    /** `enviar` */
    method SendNotice(id: EventId, reply: Reply) returns (outcome: Outcome)
      modifies this`posts
      ensures posts == old(posts) + [Post(id, reply)] && outcome == Classify(reply)
      ensures outcome == Delivered <==> TakenOver(reply)
      ensures outcome == Transient <==> WorthRetrying(reply)
      ensures outcome == Permanent <==> Hopeless(reply)
    {
      ClassifiesExactly(reply);
      posts := posts + [Post(id, reply)];
      if reply.NetworkError? {
        return Transient;
      }
      if Ok(reply.code) {
        return Delivered;
      }
      var transient := reply.code >= 500 || reply.code in {408, 425, 429};
      outcome := if transient then Transient else Permanent;
    }

    /** `handle`; the result tells a normal return from a throw or the death of the process. */
    method HandleEvent(event: Event, env: Environment) returns (returned: bool)
      modifies this
      ensures Handled(Seen(), returned) == Handle(old(Seen()), Attempt(event, env))
      ensures var w, a := old(Seen()), Attempt(event, env);
              && posts == w.posts + (if Posts(w, a) then [Post(event.id, env.reply)] else [])
              && audits == w.audits + (if Audits(w, a) then [Audit(event.id, Posts(w, a) && Hopeless(env.reply))] else [])
              && processed == w.processed + (if Entitled(w, a) && env.mark != NotWritten then {event.id} else {})
              && (returned <==> Returns(w, a))
    {
      AttemptEffect(Seen(), Attempt(event, env));
      hide Posts, Audits, Entitled, Returns, TakenOver, WorthRetrying, Hopeless;
      if !WellFormed(event.payload) {
        return true;
      }
      if !env.readOk {
        return false;
      }
      if event.id in processed {
        return true;
      }
      if env.config.disabled {
        returned := MarkDelivered(event.id, env.mark);
        return;
      }
      var outcome := Transient;
      if env.config.hasBase && env.config.hasKey {
        outcome := SendNotice(event.id, env.reply);
      }
      if outcome == Delivered {
        returned := MarkDelivered(event.id, env.mark);
        return;
      }
      var permanent := outcome == Permanent;
      if !env.auditOk {
        return false;
      }
      audits := audits + [Audit(event.id, permanent)];
      if permanent {
        returned := MarkDelivered(event.id, env.mark);
        return;
      }
      returned := false;
    }
  }
}
