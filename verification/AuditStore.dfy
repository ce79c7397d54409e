/**
 The shared store an append runs against, with the append written as the service runs it: take the
 tenant's lock, read the last visible event, seal, insert.
 */
module AuditStore {
  import opened Wrappers
  import opened Texts
  import opened CanonicalJson
  import opened HashKeys
  import opened AuditChain
  import opened AuditJournal
  import AdvisoryLock

  class Store {
    var committed: Table
    var nextId: nat
    var open: map<nat, Transaction>
    var config: HashConfig

    function State(): Database
      reads this
    {
      Database(committed, nextId, open, config)
    }

    constructor (config: HashConfig)
      ensures State() == Database(map[], 0, map[], config)
    {
      committed, nextId, open := map[], 0, map[];
      this.config := config;
    }

    method BeginTransaction(hmac: Hmac, t: nat)
      modifies this
      ensures State() == Apply(hmac, old(State()), Begin(t))
    {
      if t !in open {
        open := open[t := Transaction(map[], {}, Idle)];
      }
    }

    /** `findFirst` by tenant, ordered by descending id, over what the transaction sees. */
    method FindLast(t: nat, tenantId: int) returns (last: Option<Row>)
      requires t in open
      ensures last == Last(View(State(), t), tenantId, nextId)
    {
      var visible := committed + open[t].own;
      var bound: nat := nextId;
      while bound > 0 && !(bound - 1 in visible && visible[bound - 1].input.tenantId == tenantId)
        invariant bound <= nextId
        invariant Last(visible, tenantId, bound) == Last(visible, tenantId, nextId)
      {
        bound := bound - 1;
      }
      last := if bound == 0 then None else Some(visible[bound - 1]);
    }

    /** `appendWithin`, once the lock statement has returned; a failed seal rolls the transaction back. */
    method AppendWithin(hmac: Hmac, t: nat, input: Input) returns (created: Option<Row>)
      requires t in open && open[t].stage.Idle? && DistinctKeys(input.payload)
      requires LockIsFree(State(), t, LockOf(input.tenantId))
      modifies this
      ensures State() == Apply(hmac, Apply(hmac, Apply(hmac, old(State()), Lock(t, input)), ReadLast(t)), Insert(t))
      ensures created == Seal(hmac, config, input, HashOf(Last(old(View(State(), t)), input.tenantId, old(nextId))))
      ensures created.Some? <==> Sealable(config, input)
      ensures created.Some? ==> created.value.input == input && SealedUnder(hmac, config, created.value)
      ensures created.Some? ==> t in open && open[t].own == old(open[t].own)[old(nextId) := created.value]
      ensures created.None? ==> open == old(open) - {t} && committed == old(committed)
    {
      hide Canonicalize, Sealed, HmacWithKey, Sealable, SealedUnder;
      var key := AdvisoryLock.AdvisoryLockKey(AdvisoryLock.AuditChain, [input.tenantId]);
      open := open[t := open[t].(locks := open[t].locks + {key}, stage := Locked(input))];
      var last := FindLast(t, input.tenantId);
      var previous := HashOf(last);
      open := open[t := open[t].(stage := HasRead(input, previous))];
      created := Seal(hmac, config, input, previous);
      SealExactly(hmac, config, input, previous);
      match created {
        case None =>
          open := open - {t};
        case Some(row) =>
          open := open[t := open[t].(own := open[t].own[nextId := row], stage := Idle)];
          nextId := nextId + 1;
      }
    }

    method CommitTransaction(hmac: Hmac, t: nat)
      requires t in open && open[t].stage.Idle?
      modifies this
      ensures State() == Apply(hmac, old(State()), Commit(t))
      ensures committed == old(committed) + old(open)[t].own && open == old(open) - {t}
    {
      committed := committed + open[t].own;
      open := open - {t};
    }

    method RollbackTransaction(hmac: Hmac, t: nat)
      modifies this
      ensures State() == Apply(hmac, old(State()), Rollback(t))
    {
      open := open - {t};
    }
  }
}
