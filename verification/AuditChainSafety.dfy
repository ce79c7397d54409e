/**
 What every interleaving of transactions keeps: one chain per tenant, genuine rows, no shared hash.
 */
module AuditChainSafety {
  import opened Wrappers
  import opened Texts
  import opened CanonicalJson
  import opened HashKeys
  import opened AuditChain

  lemma BeginKeepsInv(hmac: Hmac, db: Database, t: nat)
    requires Inv(hmac, db)
    ensures Inv(hmac, Apply(hmac, db, Begin(t)))
  {
    hide Genuine, Chained, Last, LockOf;
    var next := Apply(hmac, db, Begin(t));
    forall u | u in next.open
      ensures TransactionOk(hmac, next, u)
    {
      if u in db.open {
        assert View(next, u) == View(db, u);
      }
    }
  }

  lemma LockKeepsInv(hmac: Hmac, db: Database, t: nat, input: Input)
    requires Inv(hmac, db)
    ensures Inv(hmac, Apply(hmac, db, Lock(t, input)))
  {
    hide AllGenuine, Chained, Last, LockOf;
    var next := Apply(hmac, db, Lock(t, input));
    if next != db {
      forall u | u in next.open
        ensures TransactionOk(hmac, next, u)
      {
        assert TransactionOk(hmac, db, u);
        assert View(next, u) == View(db, u);
        if u == t {
          forall tenantId | LockOf(tenantId) in next.open[t].locks
            ensures Chained(View(next, t), tenantId)
          {
            if LockOf(tenantId) !in db.open[t].locks {
              FreshLockSeesCommitted(hmac, db, t, tenantId);
            }
          }
        }
      }
    }
  }

  /** Without the lock a transaction has no rows of the tenant, so it sees the committed chain. */
  lemma FreshLockSeesCommitted(hmac: Hmac, db: Database, t: nat, tenantId: int)
    requires Inv(hmac, db) && t in db.open && LockOf(tenantId) !in db.open[t].locks
    ensures Chained(View(db, t), tenantId)
  {
    hide AllGenuine, Chained, Last, LockOf, Apart, HmacWithKey, SealedText;
    assert TransactionOk(hmac, db, t);
    ChainedOfSame(db.committed, View(db, t), tenantId, db.nextId);
  }

  lemma ReadKeepsInv(hmac: Hmac, db: Database, t: nat)
    requires Inv(hmac, db)
    ensures Inv(hmac, Apply(hmac, db, ReadLast(t)))
  {
    hide AllGenuine, Chained, Last, LockOf;
    var next := Apply(hmac, db, ReadLast(t));
    if next != db {
      forall u | u in next.open
        ensures TransactionOk(hmac, next, u)
      {
        assert TransactionOk(hmac, db, u);
        assert View(next, u) == View(db, u);
      }
    }
  }

  lemma CloseKeepsInv(hmac: Hmac, db: Database, t: nat)
    requires Inv(hmac, db)
    ensures Inv(hmac, db.(open := db.open - {t}))
  {
    hide Genuine, Chained, Last, LockOf;
    var next := db.(open := db.open - {t});
    forall u | u in next.open
      ensures TransactionOk(hmac, next, u)
    {
      assert TransactionOk(hmac, db, u);
      assert View(next, u) == View(db, u);
    }
  }

  lemma SealIsGenuine(hmac: Hmac, config: HashConfig, input: Input, previous: Option<Text>, row: Row)
    requires DistinctKeys(input.payload) && Seal(hmac, config, input, previous) == Some(row)
    ensures Genuine(hmac, config, row) && row.input == input && row.previousHash == previous
  {
    hide Canonicalize, Sealed;
  }

  lemma InsertedIsGenuine(hmac: Hmac, config: HashConfig, own: Table, id: nat, row: Row)
    requires AllGenuine(hmac, config, own) && Genuine(hmac, config, row)
    ensures AllGenuine(hmac, config, own[id := row])
  {
    hide Genuine;
  }

  lemma InsertedChains(view: Table, id: nat, row: Row, tenantId: int)
    requires (forall i | i in view :: i < id) && Chained(view, tenantId)
    requires row.previousHash == HashOf(Last(view, row.input.tenantId, id))
    ensures Chained(view[id := row], tenantId)
  {
    hide Chained, Last;
    ChainExtends(view, id, row, tenantId);
  }

  lemma InsertKeepsOwner(hmac: Hmac, db: Database, t: nat, row: Row, next: Database)
    requires Inv(hmac, db) && t in db.open && db.open[t].stage.HasRead?
    requires Seal(hmac, db.config, db.open[t].stage.input, db.open[t].stage.previous) == Some(row)
    requires next == Apply(hmac, db, Insert(t)) && t in next.open
    ensures TransactionOk(hmac, next, t)
  {
    hide AllGenuine, Chained, Last, LockOf, Seal, Genuine, Apart;
    assert TransactionOk(hmac, db, t);
    SealIsGenuine(hmac, db.config, db.open[t].stage.input, db.open[t].stage.previous, row);
    InsertedIsGenuine(hmac, db.config, db.open[t].own, db.nextId, row);
    assert View(next, t) == View(db, t)[db.nextId := row];
    assert forall i | i in View(db, t) :: i < db.nextId;
    forall tenantId | LockOf(tenantId) in next.open[t].locks
      ensures Chained(View(next, t), tenantId)
    {
      InsertedChains(View(db, t), db.nextId, row, tenantId);
    }
  }

  lemma LastSkipsAbsent(rows: Table, tenantId: int, bound: nat)
    requires bound !in rows
    ensures Last(rows, tenantId, bound + 1) == Last(rows, tenantId, bound)
  {
  }

  lemma InsertKeepsOthers(hmac: Hmac, db: Database, t: nat, u: nat, next: Database)
    requires Inv(hmac, db) && t in db.open && u in db.open && u != t
    requires next == Apply(hmac, db, Insert(t)) && u in next.open
    ensures TransactionOk(hmac, next, u)
  {
    hide AllGenuine, Genuine, Chained, LockOf, Seal, Last, Apart;
    assert TransactionOk(hmac, db, u);
    assert View(next, u) == View(db, u);
    assert db.nextId !in View(db, u);
    if next.open[u].stage.HasRead? {
      LastSkipsAbsent(View(db, u), next.open[u].stage.input.tenantId, db.nextId);
    }
  }

  lemma InsertKeepsApart(hmac: Hmac, db: Database, t: nat, u: nat, next: Database)
    requires Inv(hmac, db) && t in db.open && u in db.open && u != t
    requires next == Apply(hmac, db, Insert(t)) && t in next.open && u in next.open
    ensures Apart(next.open[t], next.open[u]) && Apart(next.open[u], next.open[t])
  {
    hide Genuine, Chained, LockOf, Seal, Last;
    assert Apart(db.open[t], db.open[u]) && TransactionOk(hmac, db, u);
  }

  lemma InsertKeepsInv(hmac: Hmac, db: Database, t: nat)
    requires Inv(hmac, db)
    ensures Inv(hmac, Apply(hmac, db, Insert(t)))
  {
    hide Genuine, Chained, Last, LockOf, Seal, Apart, TransactionOk;
    var next := Apply(hmac, db, Insert(t));
    if t in db.open && db.open[t].stage.HasRead? {
      var sealed := Seal(hmac, db.config, db.open[t].stage.input, db.open[t].stage.previous);
      if sealed.None? {
        CloseKeepsInv(hmac, db, t);
      } else {
        InsertKeepsOwner(hmac, db, t, sealed.value, next);
        forall u | u in db.open && u != t
          ensures TransactionOk(hmac, next, u)
          ensures Apart(next.open[t], next.open[u]) && Apart(next.open[u], next.open[t])
        {
          InsertKeepsOthers(hmac, db, t, u, next);
          InsertKeepsApart(hmac, db, t, u, next);
        }
      }
    }
  }

  /** A commit adds rows of locked tenants only, so it is invisible under any other lock. */
  lemma CommitInvisible(hmac: Hmac, db: Database, t: nat, u: nat, tenantId: int, bound: nat)
    requires Inv(hmac, db) && t in db.open && u in db.open && u != t
    requires LockOf(tenantId) in db.open[u].locks
    ensures SameTenant(View(db, u), View(db, t) + db.open[u].own, tenantId, bound)
  {
    hide Genuine, Chained, Last, LockOf;
    assert TransactionOk(hmac, db, t) && TransactionOk(hmac, db, u) && Apart(db.open[t], db.open[u]);
    ForeignRowsInvisible(db.committed, db.open[t].own, db.open[u].own, tenantId, bound);
  }

  lemma ForeignRowsInvisible(base: Table, foreign: Table, own: Table, tenantId: int, bound: nat)
    requires forall id | id in foreign :: id !in base && foreign[id].input.tenantId != tenantId
    ensures SameTenant(base + own, base + foreign + own, tenantId, bound)
  {
  }

  lemma CommitKeepsOther(hmac: Hmac, db: Database, t: nat, u: nat)
    requires Inv(hmac, db) && t in db.open && db.open[t].stage.Idle? && u in db.open && u != t
    ensures TransactionOk(hmac, Apply(hmac, db, Commit(t)), u)
  {
    hide Genuine, Chained, Last, LockOf;
    var next := Apply(hmac, db, Commit(t));
    var x := db.open[u];
    assert TransactionOk(hmac, db, t) && TransactionOk(hmac, db, u) && Apart(db.open[t], x);
    assert View(next, u) == View(db, t) + x.own;
    forall tenantId | LockOf(tenantId) in x.locks
      ensures Chained(View(next, u), tenantId)
      ensures Last(View(next, u), tenantId, db.nextId) == Last(View(db, u), tenantId, db.nextId)
    {
      CommitInvisible(hmac, db, t, u, tenantId, db.nextId);
      ChainedOfSame(View(db, u), View(next, u), tenantId, db.nextId);
      LastOfSame(View(db, u), View(next, u), tenantId, db.nextId);
    }
  }

  lemma CommitKeepsChains(hmac: Hmac, db: Database, t: nat, tenantId: int)
    requires Inv(hmac, db) && t in db.open
    ensures Chained(View(db, t), tenantId)
  {
    if LockOf(tenantId) !in db.open[t].locks {
      FreshLockSeesCommitted(hmac, db, t, tenantId);
    } else {
      assert TransactionOk(hmac, db, t);
    }
  }

  lemma CommitKeepsInv(hmac: Hmac, db: Database, t: nat)
    requires Inv(hmac, db)
    ensures Inv(hmac, Apply(hmac, db, Commit(t)))
  {
    hide Genuine, Chained, Last, LockOf;
    var next := Apply(hmac, db, Commit(t));
    if next != db {
      assert TransactionOk(hmac, db, t);
      forall tenantId
        ensures Chained(next.committed, tenantId)
      {
        CommitKeepsChains(hmac, db, t, tenantId);
      }
      forall u | u in next.open
        ensures TransactionOk(hmac, next, u)
      {
        CommitKeepsOther(hmac, db, t, u);
      }
    }
  }

  lemma RotationKeepsGenuine(hmac: Hmac, config: HashConfig, id: Text, secret: Text, row: Row)
    requires CanRotate(config, id) && Genuine(hmac, config, row)
    ensures Genuine(hmac, Rotate(config, id, secret), row)
  {
    hide Canonicalize, Sealed, SecretForKey;
    RotationAddsOneKey(config, id, secret, row.hashKeyId);
    RotationKeepsUse(config, id, row.hashKeyId);
  }

  lemma RotationKeepsUse(config: HashConfig, id: Text, other: Text)
    requires CanRotate(config, id) && SecretForKey(config, other).Success?
    ensures other != id
  {
  }

  lemma RotateKeepsInv(hmac: Hmac, db: Database, id: Text, secret: Text)
    requires Inv(hmac, db)
    ensures Inv(hmac, Apply(hmac, db, RotateKey(id, secret)))
  {
    hide Chained, Last, LockOf, Genuine, CanRotate, Rotate;
    var next := Apply(hmac, db, RotateKey(id, secret));
    if CanRotate(db.config, id) {
      forall row: Row | Genuine(hmac, db.config, row)
        ensures Genuine(hmac, next.config, row)
      {
        RotationKeepsGenuine(hmac, db.config, id, secret, row);
      }
      forall u | u in next.open
        ensures TransactionOk(hmac, next, u)
      {
        assert TransactionOk(hmac, db, u);
        assert View(next, u) == View(db, u);
      }
    }
  }

  lemma StepKeepsInv(hmac: Hmac, db: Database, step: Step)
    requires Inv(hmac, db)
    ensures Inv(hmac, Apply(hmac, db, step))
  {
    match step
    case Begin(t) => BeginKeepsInv(hmac, db, t);
    case Lock(t, input) => LockKeepsInv(hmac, db, t, input);
    case ReadLast(t) => ReadKeepsInv(hmac, db, t);
    case Insert(t) => InsertKeepsInv(hmac, db, t);
    case Commit(t) => CommitKeepsInv(hmac, db, t);
    case Rollback(t) => CloseKeepsInv(hmac, db, t);
    case RotateKey(id, secret) => RotateKeepsInv(hmac, db, id, secret);
  }

  lemma {:induction false} RunKeepsInv(hmac: Hmac, config: HashConfig, steps: seq<Step>)
    ensures Inv(hmac, Run(hmac, config, steps))
  {
    if steps != [] {
      RunKeepsInv(hmac, config, steps[..|steps| - 1]);
      StepKeepsInv(hmac, Run(hmac, config, steps[..|steps| - 1]), steps[|steps| - 1]);
    }
  }

  /** Over every interleaving the committed events of each tenant, by id, form one chain. */
  lemma CommittedEventsFormOneChain(hmac: Hmac, config: HashConfig, steps: seq<Step>, tenantId: int)
    ensures Chained(Run(hmac, config, steps).committed, tenantId)
  {
    RunKeepsInv(hmac, config, steps);
  }

  ghost predicate CollisionFree(hmac: Hmac) {
    forall s, a, t, b :: hmac(s, a) == hmac(t, b) ==> a == b
  }
}
