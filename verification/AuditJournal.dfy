/**
 The audit table against the journal of a run: a row is committed exactly when the steps of the run say so.
 The journal speaks of the steps and of the stage each transaction is in, never of the rows it holds.
 */
module AuditJournal {
  import opened Wrappers
  import opened Texts
  import opened CanonicalJson
  import opened HashKeys
  import opened AuditChain
  import opened AuditChainSafety
  import opened AuditSealing
  import AdvisoryLock

  /** A run: the steps taken and where they start. */
  datatype Journal = Journal(hmac: Hmac, config: HashConfig, steps: seq<Step>) {
    ghost function At(k: int): Database
      requires 0 <= k <= |steps|
    {
      Run(hmac, config, steps[..k])
    }

    ghost function End(): Database {
      Run(hmac, config, steps)
    }

    function Upto(k: int): Journal
      requires 0 <= k <= |steps|
    {
      this.(steps := steps[..k])
    }

    ghost predicate InStage(k: int, t: nat, stage: Stage)
      requires 0 <= k <= |steps|
    {
      t in At(k).open && At(k).open[t].stage == stage
    }
  }

  lemma PrefixAt(j: Journal, k: int, m: int)
    requires 0 <= m <= k <= |j.steps|
    ensures j.Upto(k).At(m) == j.At(m) && j.Upto(k).Upto(m) == j.Upto(m) && j.At(|j.steps|) == j.End()
  {
    assert j.steps[..k][..m] == j.steps[..m];
    assert j.steps[..|j.steps|] == j.steps;
  }

  lemma LastStep(j: Journal)
    requires j.steps != []
    ensures j.End() == Apply(j.hmac, j.At(|j.steps| - 1), j.steps[|j.steps| - 1])
    ensures j.Upto(|j.steps| - 1).End() == j.At(|j.steps| - 1)
  {
  }

  // ---------------------------------------------------------------------------
  // What the steps say
  // ---------------------------------------------------------------------------

  /** An event that can be signed: there is a secret, and the payload says something or is left out. */
  predicate Sealable(config: HashConfig, input: Input) {
    config.secret.Some? && Sayable(input.payload)
  }

  /** The row carries its own signed text, under the key that is active. */
  predicate SealedUnder(hmac: Hmac, config: HashConfig, row: Row) {
    && config.secret.Some? && row.canonicalPayload.Some?
    && row.canonicalPayload == SealedText(row)
    && row.hashKeyId == ActiveKeyId(config)
    && row.eventHash == hmac(config.secret.value, row.canonicalPayload.value)
  }

  /** An event is sealed exactly when it can be, and then into the row it says under the active key. */
  lemma SealExactly(hmac: Hmac, config: HashConfig, input: Input, previous: Option<Text>)
    requires DistinctKeys(input.payload)
    ensures var sealed := Seal(hmac, config, input, previous);
            && (sealed.Some? <==> Sealable(config, input))
            && (sealed.Some? ==>
                  && sealed.value.input == input && sealed.value.previousHash == previous
                  && SealedUnder(hmac, config, sealed.value))
  {
    hide Canonicalize, Sealed, Sayable, DistinctKeys;
    SealedTextExists(Row(input, previous, [], [], None));
  }

  lemma SealableWhenSealed(hmac: Hmac, config: HashConfig, row: Row)
    requires SealedUnder(hmac, config, row) && DistinctKeys(row.input.payload)
    ensures Sealable(config, row.input)
  {
    hide SealedText, Sayable, DistinctKeys;
    SealedTextExists(row);
  }

  /** A row that is sealed under a key is the one that sealing its event yields. */
  lemma SealedIsDetermined(hmac: Hmac, config: HashConfig, a: Row, b: Row)
    requires SealedUnder(hmac, config, a) && SealedUnder(hmac, config, b)
    requires a.input == b.input && a.previousHash == b.previousHash
    ensures a == b
  {
    hide Canonicalize, Sealed;
  }

  /** The step stores an event: an append that has read, of an event that can be signed. */
  ghost predicate StoresAt(j: Journal, i: int)
    requires 0 <= i < |j.steps|
  {
    && j.steps[i].Insert? && j.steps[i].t in j.At(i).open && j.At(i).open[j.steps[i].t].stage.HasRead?
    && Sealable(j.At(i).config, j.At(i).open[j.steps[i].t].stage.input)
  }

  /** The events stored so far, committed or not */
  ghost function StoredSoFar(j: Journal): nat
    decreases |j.steps|
  {
    if j.steps == [] then 0
    else StoredSoFar(j.Upto(|j.steps| - 1)) + if StoresAt(j, |j.steps| - 1) then 1 else 0
  }

  /** The transaction asked at step l for the lock of its event, and has not read since. */
  ghost predicate AskedAt(j: Journal, l: int, t: nat, input: Input) {
    && 0 <= l < |j.steps| && j.steps[l] == Lock(t, input) && j.InStage(l, t, Idle)
    && forall k | l < k <= |j.steps| :: j.InStage(k, t, Locked(input))
  }

  ghost predicate Asked(j: Journal, t: nat, input: Input) {
    exists l :: AskedAt(j, l, t, input)
  }

  /** At step r it read the hash of the last event of the tenant that it sees, and has not inserted since. */
  ghost predicate ReadAt(j: Journal, r: int, t: nat, input: Input, previous: Option<Text>) {
    && 0 <= r < |j.steps| && j.steps[r] == ReadLast(t) && Asked(j.Upto(r), t, input) && t in j.At(r).open
    && previous == HashOf(Last(View(j.At(r), t), input.tenantId, j.At(r).nextId))
    && forall k | r < k <= |j.steps| :: j.InStage(k, t, HasRead(input, previous))
  }

  ghost predicate Read(j: Journal, t: nat, input: Input, previous: Option<Text>) {
    exists r :: ReadAt(j, r, t, input, previous)
  }

  /** At step i it stored the row of that event under the next id. */
  ghost predicate InsertsAt(j: Journal, i: int, t: nat, id: nat, row: Row) {
    && 0 <= i < |j.steps| && j.steps[i] == Insert(t)
    && Read(j.Upto(i), t, row.input, row.previousHash)
    && SealedUnder(j.hmac, j.At(i).config, row)
    && id == StoredSoFar(j.Upto(i))
  }

  /** It has not ended since, by a rollback or otherwise. */
  ghost predicate OwnsSince(j: Journal, i: int, t: nat, id: nat, row: Row) {
    && InsertsAt(j, i, t, id, row)
    && (forall k | i < k < |j.steps| :: j.steps[k] != Rollback(t))
    && (forall k | i < k <= |j.steps| :: t in j.At(k).open)
  }

  ghost predicate Owns(j: Journal, t: nat, id: nat, row: Row) {
    exists i :: OwnsSince(j, i, t, id, row)
  }

  /** Step k committed a transaction that stored the row. */
  ghost predicate CommitsAt(j: Journal, k: int, id: nat, row: Row) {
    && 0 <= k < |j.steps| && j.steps[k].Commit?
    && j.InStage(k, j.steps[k].t, Idle) && Owns(j.Upto(k), j.steps[k].t, id, row)
  }

  ghost predicate Recorded(j: Journal, id: nat, row: Row) {
    exists k :: CommitsAt(j, k, id, row)
  }

  // ---------------------------------------------------------------------------
  // One step
  // ---------------------------------------------------------------------------

  predicate Holds(rows: Table, id: nat, row: Row) {
    id in rows && rows[id] == row
  }

  /** How a transaction that is open after a step stands to what it was before */
  lemma StageStep(hmac: Hmac, db: Database, step: Step, t: nat)
    requires t in Apply(hmac, db, step).open
    ensures var after := Apply(hmac, db, step).open[t].stage;
            match after
            case Idle => true
            case Locked(input) =>
              t in db.open && (db.open[t].stage == after || (db.open[t].stage == Idle && step == Lock(t, input)))
            case HasRead(input, previous) =>
              && t in db.open
              && (|| db.open[t].stage == after
                  || (&& db.open[t].stage == Locked(input) && step == ReadLast(t)
                      && previous == HashOf(Last(View(db, t), input.tenantId, db.nextId))))
  {
    hide Seal, Last, LockOf, DistinctKeys, CanRotate, Rotate, LockIsFree;
  }

  lemma OwnStep(hmac: Hmac, db: Database, step: Step, t: nat)
    requires t in Apply(hmac, db, step).open
    ensures var own := Apply(hmac, db, step).open[t].own;
            if t !in db.open then own == map[]
            else if step == Insert(t) && db.open[t].stage.HasRead? then
              var sealed := Seal(hmac, db.config, db.open[t].stage.input, db.open[t].stage.previous);
              sealed.Some? && own == db.open[t].own[db.nextId := sealed.value]
            else own == db.open[t].own
  {
    hide Seal, Last, LockOf, DistinctKeys, CanRotate, Rotate, LockIsFree;
  }

  lemma CommittedStep(hmac: Hmac, db: Database, step: Step)
    ensures Apply(hmac, db, step).committed
         == if step.Commit? && step.t in db.open && db.open[step.t].stage.Idle? then View(db, step.t) else db.committed
  {
    hide Seal, Last, LockOf, DistinctKeys, CanRotate, Rotate, LockIsFree;
  }

  lemma SealsExactly(hmac: Hmac, config: HashConfig, input: Input, previous: Option<Text>)
    requires DistinctKeys(input.payload)
    ensures Seal(hmac, config, input, previous).Some? <==> Sealable(config, input)
  {
    hide Seal, Sealable, SealedUnder, DistinctKeys;
    SealExactly(hmac, config, input, previous);
  }

  lemma IdOfStep(hmac: Hmac, db: Database, step: Step)
    ensures Apply(hmac, db, step).nextId
         == db.nextId
            + if && step.Insert? && step.t in db.open && db.open[step.t].stage.HasRead?
                 && Seal(hmac, db.config, db.open[step.t].stage.input, db.open[step.t].stage.previous).Some?
              then 1 else 0
  {
    hide Seal, Last, LockOf, CanRotate, Rotate, LockIsFree, DistinctKeys;
  }

  lemma IdStep(hmac: Hmac, db: Database, step: Step)
    requires Inv(hmac, db)
    ensures Apply(hmac, db, step).nextId
         == db.nextId
            + if && step.Insert? && step.t in db.open && db.open[step.t].stage.HasRead?
                 && Sealable(db.config, db.open[step.t].stage.input)
              then 1 else 0
  {
    IdOfStep(hmac, db, step);
    hide Apply, Seal, Sealable, DistinctKeys, Inv;
    if step.Insert? && step.t in db.open && db.open[step.t].stage.HasRead? {
      StageDistinct(hmac, db, step.t);
      SealsExactly(hmac, db.config, db.open[step.t].stage.input, db.open[step.t].stage.previous);
    }
  }

  // ---------------------------------------------------------------------------
  // The journal explains the state
  // ---------------------------------------------------------------------------

  lemma {:induction false} IdsAreCounted(j: Journal)
    ensures j.End().nextId == StoredSoFar(j)
    decreases |j.steps|
  {
    hide Apply, Sealable;
    if j.steps != [] {
      var n := |j.steps| - 1;
      IdsAreCounted(j.Upto(n));
      LastStep(j);
      RunKeepsInv(j.hmac, j.config, j.steps[..n]);
      IdStep(j.hmac, j.At(n), j.steps[n]);
    }
  }

  lemma AskedExtends(j: Journal, l: int, t: nat, input: Input)
    requires j.steps != [] && AskedAt(j.Upto(|j.steps| - 1), l, t, input)
    requires j.InStage(|j.steps|, t, Locked(input))
    ensures AskedAt(j, l, t, input)
  {
    hide Run;
    var n := |j.steps| - 1;
    forall k | 0 <= k <= n
      ensures j.Upto(n).At(k) == j.At(k)
    {
      PrefixAt(j, n, k);
    }
    forall k | l < k <= |j.steps|
      ensures j.InStage(k, t, Locked(input))
    {
      if k <= n {
        assert j.Upto(n).InStage(k, t, Locked(input));
      }
    }
    assert j.Upto(n).InStage(l, t, Idle);
  }

  lemma ReadExtends(j: Journal, r: int, t: nat, input: Input, previous: Option<Text>)
    requires j.steps != [] && ReadAt(j.Upto(|j.steps| - 1), r, t, input, previous)
    requires j.InStage(|j.steps|, t, HasRead(input, previous))
    ensures ReadAt(j, r, t, input, previous)
  {
    hide Run, Asked, Last;
    var n := |j.steps| - 1;
    forall k | 0 <= k <= n
      ensures j.Upto(n).At(k) == j.At(k)
    {
      PrefixAt(j, n, k);
    }
    PrefixAt(j, n, r);
    forall k | r < k <= |j.steps|
      ensures j.InStage(k, t, HasRead(input, previous))
    {
      if k <= n {
        assert j.Upto(n).InStage(k, t, HasRead(input, previous));
      }
    }
  }

  /** A transaction that waits to read asked for that event; one that waits to insert read that hash. */
  lemma {:induction false} StageIsExplained(j: Journal, t: nat)
    requires t in j.End().open
    ensures var stage := j.End().open[t].stage;
            match stage
            case Idle => true
            case Locked(input) => Asked(j, t, input)
            case HasRead(input, previous) => Read(j, t, input, previous)
    decreases |j.steps|
  {
    hide Apply, Last, Asked, Read, AskedAt, ReadAt;
    if j.steps != [] {
      var n := |j.steps| - 1;
      LastStep(j);
      PrefixAt(j, |j.steps|, |j.steps|);
      StageStep(j.hmac, j.At(n), j.steps[n], t);
      var stage := j.End().open[t].stage;
      if t in j.At(n).open {
        StageIsExplained(j.Upto(n), t);
        match stage {
          case Idle =>
          case Locked(input) =>
            AskedGoesOn(j, t, input);
          case HasRead(input, previous) =>
            ReadGoesOn(j, t, input, previous);
        }
      }
    }
  }

  lemma AskedGoesOn(j: Journal, t: nat, input: Input)
    requires j.steps != [] && t in j.At(|j.steps| - 1).open && j.InStage(|j.steps|, t, Locked(input))
    requires j.At(|j.steps| - 1).open[t].stage == Locked(input) ==> Asked(j.Upto(|j.steps| - 1), t, input)
    requires j.At(|j.steps| - 1).open[t].stage == Locked(input)
             || (j.At(|j.steps| - 1).open[t].stage == Idle && j.steps[|j.steps| - 1] == Lock(t, input))
    ensures Asked(j, t, input)
  {
    hide Run, AskedAt;
    var n := |j.steps| - 1;
    if j.At(n).open[t].stage == Locked(input) {
      var l :| AskedAt(j.Upto(n), l, t, input);
      AskedExtends(j, l, t, input);
    } else {
      AskedNow(j, t, input);
    }
  }

  lemma AskedNow(j: Journal, t: nat, input: Input)
    requires j.steps != [] && j.InStage(|j.steps|, t, Locked(input))
    requires j.InStage(|j.steps| - 1, t, Idle) && j.steps[|j.steps| - 1] == Lock(t, input)
    ensures AskedAt(j, |j.steps| - 1, t, input)
  {
    hide Run;
  }

  lemma ReadGoesOn(j: Journal, t: nat, input: Input, previous: Option<Text>)
    requires j.steps != [] && t in j.At(|j.steps| - 1).open && j.InStage(|j.steps|, t, HasRead(input, previous))
    requires var stage := j.At(|j.steps| - 1).open[t].stage;
             || (stage == HasRead(input, previous) && Read(j.Upto(|j.steps| - 1), t, input, previous))
             || (&& stage == Locked(input) && Asked(j.Upto(|j.steps| - 1), t, input)
                 && j.steps[|j.steps| - 1] == ReadLast(t)
                 && previous == HashOf(Last(View(j.At(|j.steps| - 1), t), input.tenantId, j.At(|j.steps| - 1).nextId)))
    ensures Read(j, t, input, previous)
  {
    hide Run, ReadAt, Asked, Last;
    var n := |j.steps| - 1;
    if j.At(n).open[t].stage == HasRead(input, previous) {
      var r :| ReadAt(j.Upto(n), r, t, input, previous);
      ReadExtends(j, r, t, input, previous);
    } else {
      ReadNow(j, t, input, previous);
    }
  }

  lemma ReadNow(j: Journal, t: nat, input: Input, previous: Option<Text>)
    requires j.steps != [] && t in j.At(|j.steps| - 1).open && j.InStage(|j.steps|, t, HasRead(input, previous))
    requires Asked(j.Upto(|j.steps| - 1), t, input) && j.steps[|j.steps| - 1] == ReadLast(t)
    requires previous == HashOf(Last(View(j.At(|j.steps| - 1), t), input.tenantId, j.At(|j.steps| - 1).nextId))
    ensures ReadAt(j, |j.steps| - 1, t, input, previous)
  {
    hide Run, Asked, Last;
  }

  /** Who waits to insert is who has read, and what. */
  lemma ReadMeansStage(j: Journal, t: nat, input: Input, previous: Option<Text>)
    requires Read(j, t, input, previous)
    ensures t in j.End().open && j.End().open[t].stage == HasRead(input, previous)
  {
    hide Run, Asked, Last;
    var r :| ReadAt(j, r, t, input, previous);
    assert j.InStage(|j.steps|, t, HasRead(input, previous));
    PrefixAt(j, |j.steps|, |j.steps|);
  }

  /** What the last step stores, if it is an insertion of the transaction */
  lemma InsertsNow(j: Journal, t: nat, id: nat, row: Row)
    requires j.steps != [] && t in j.End().open
    ensures var db := j.At(|j.steps| - 1);
            InsertsAt(j, |j.steps| - 1, t, id, row) <==>
              && j.steps[|j.steps| - 1] == Insert(t) && t in db.open && db.open[t].stage.HasRead?
              && id == db.nextId
              && Some(row) == Seal(j.hmac, db.config, db.open[t].stage.input, db.open[t].stage.previous)
  {
    hide Run, Apply, Seal, SealedUnder, Sealable, Read, StoredSoFar;
    var n := |j.steps| - 1;
    var before, db := j.Upto(n), j.At(n);
    LastStep(j);
    IdsAreCounted(before);
    if InsertsAt(j, n, t, id, row) {
      ReadMeansStage(before, t, row.input, row.previousHash);
    }
    if j.steps[n] == Insert(t) && t in db.open && db.open[t].stage.HasRead? {
      var stage := db.open[t].stage;
      StageIsExplained(before, t);
      RunKeepsInv(j.hmac, j.config, j.steps[..n]);
      StageDistinct(j.hmac, db, t);
      SealExactly(j.hmac, db.config, stage.input, stage.previous);
      var sealed := Seal(j.hmac, db.config, stage.input, stage.previous);
      if InsertsAt(j, n, t, id, row) {
        SealableWhenSealed(j.hmac, db.config, row);
        SealedIsDetermined(j.hmac, db.config, row, sealed.value);
      }
    }
  }

  lemma StageDistinct(hmac: Hmac, db: Database, t: nat)
    requires Inv(hmac, db) && t in db.open && db.open[t].stage.HasRead?
    ensures DistinctKeys(db.open[t].stage.input.payload)
  {
    hide AllGenuine, Chained, Apart, DistinctKeys, LockOf, Last;
    assert TransactionOk(hmac, db, t);
  }

  lemma InsertsBefore(j: Journal, i: int, t: nat, id: nat, row: Row)
    requires 0 <= i < |j.steps| - 1
    ensures InsertsAt(j, i, t, id, row) <==> InsertsAt(j.Upto(|j.steps| - 1), i, t, id, row)
  {
    hide Run, Read, SealedUnder, StoredSoFar;
    PrefixAt(j, |j.steps| - 1, i);
  }

  lemma RollbackEnds(hmac: Hmac, db: Database, t: nat)
    ensures t !in Apply(hmac, db, Rollback(t)).open && Apply(hmac, db, Rollback(t)).committed == db.committed
    ensures forall u | u in db.open && u != t ::
              u in Apply(hmac, db, Rollback(t)).open && Apply(hmac, db, Rollback(t)).open[u] == db.open[u]
  {
  }

  lemma OwnsExtends(j: Journal, i: int, t: nat, id: nat, row: Row)
    requires 0 <= i < |j.steps| - 1 && t in j.End().open
    ensures OwnsSince(j, i, t, id, row) <==> OwnsSince(j.Upto(|j.steps| - 1), i, t, id, row)
  {
    hide Run, InsertsAt, Apply;
    var n := |j.steps| - 1;
    LastStep(j);
    RollbackEnds(j.hmac, j.At(n), t);
    InsertsBefore(j, i, t, id, row);
    forall k | 0 <= k <= n
      ensures j.Upto(n).At(k) == j.At(k)
    {
      PrefixAt(j, n, k);
    }
    PrefixAt(j, |j.steps|, |j.steps|);
  }

  lemma OwnsNow(j: Journal, t: nat, id: nat, row: Row)
    requires j.steps != [] && t in j.End().open
    ensures OwnsSince(j, |j.steps| - 1, t, id, row) <==> InsertsAt(j, |j.steps| - 1, t, id, row)
  {
    hide Run, InsertsAt;
    PrefixAt(j, |j.steps|, |j.steps|);
  }

  /** What a transaction owns was inserted at the last step, or owned before. */
  lemma OwnsSplits(j: Journal, t: nat, id: nat, row: Row)
    requires j.steps != [] && t in j.End().open
    ensures Owns(j, t, id, row)
       <==> InsertsAt(j, |j.steps| - 1, t, id, row) || Owns(j.Upto(|j.steps| - 1), t, id, row)
  {
    hide Run, InsertsAt, OwnsSince;
    var n := |j.steps| - 1;
    OwnsNow(j, t, id, row);
    if Owns(j, t, id, row) {
      var i :| OwnsSince(j, i, t, id, row);
      OwnsInRange(j, i, t, id, row);
      if i < n {
        OwnsExtends(j, i, t, id, row);
      }
    }
    if Owns(j.Upto(n), t, id, row) {
      var i :| OwnsSince(j.Upto(n), i, t, id, row);
      OwnsInRange(j.Upto(n), i, t, id, row);
      OwnsExtends(j, i, t, id, row);
    }
  }

  lemma OwnsInRange(j: Journal, i: int, t: nat, id: nat, row: Row)
    requires OwnsSince(j, i, t, id, row)
    ensures 0 <= i < |j.steps|
    ensures t in j.At(|j.steps|).open
  {
    hide Run, Read, SealedUnder, StoredSoFar;
  }

  /** The rows a transaction holds are exactly those the journal says it stored. */
  lemma {:induction false} OwnExactly(j: Journal, t: nat, id: nat, row: Row)
    requires t in j.End().open
    ensures Holds(j.End().open[t].own, id, row) <==> Owns(j, t, id, row)
    decreases |j.steps|
  {
    hide Apply, Seal, InsertsAt, Owns;
    if j.steps != [] {
      var n := |j.steps| - 1;
      var db := j.At(n);
      LastStep(j);
      OwnStep(j.hmac, db, j.steps[n], t);
      InsertsNow(j, t, id, row);
      OwnsSplits(j, t, id, row);
      if t in db.open {
        OwnExactly(j.Upto(n), t, id, row);
        RunKeepsInv(j.hmac, j.config, j.steps[..n]);
        OwnIsOld(j.hmac, db, t);
      } else {
        ClosedOwnsNothing(j.Upto(n), t, id, row);
      }
    }
  }

  lemma ClosedOwnsNothing(j: Journal, t: nat, id: nat, row: Row)
    requires t !in j.End().open
    ensures !Owns(j, t, id, row)
  {
    hide Run, OwnsSince;
    PrefixAt(j, |j.steps|, |j.steps|);
    if Owns(j, t, id, row) {
      var i :| OwnsSince(j, i, t, id, row);
      OwnsInRange(j, i, t, id, row);
    }
  }

  /** Rows a transaction holds have ids already given, and are not committed. */
  lemma OwnIsOld(hmac: Hmac, db: Database, t: nat)
    requires Inv(hmac, db) && t in db.open
    ensures forall id | id in db.open[t].own :: id < db.nextId && id !in db.committed
  {
    hide AllGenuine, Chained, Apart, LockOf, Last;
    assert TransactionOk(hmac, db, t);
  }

  lemma CommitsBefore(j: Journal, k: int, id: nat, row: Row)
    requires 0 <= k < |j.steps| - 1
    ensures CommitsAt(j, k, id, row) <==> CommitsAt(j.Upto(|j.steps| - 1), k, id, row)
  {
    hide Run, Owns;
    PrefixAt(j, |j.steps| - 1, k);
  }

  lemma CommitsInRange(j: Journal, k: int, id: nat, row: Row)
    requires CommitsAt(j, k, id, row)
    ensures 0 <= k < |j.steps|
  {
    hide Run, Owns;
  }

  lemma RecordedSplits(j: Journal, id: nat, row: Row)
    requires j.steps != []
    ensures Recorded(j, id, row)
       <==> CommitsAt(j, |j.steps| - 1, id, row) || Recorded(j.Upto(|j.steps| - 1), id, row)
  {
    hide CommitsAt;
    var n := |j.steps| - 1;
    if Recorded(j, id, row) {
      var k :| CommitsAt(j, k, id, row);
      CommitsInRange(j, k, id, row);
      if k < n {
        CommitsBefore(j, k, id, row);
      }
    }
    if Recorded(j.Upto(n), id, row) {
      var k :| CommitsAt(j.Upto(n), k, id, row);
      CommitsInRange(j.Upto(n), k, id, row);
      CommitsBefore(j, k, id, row);
    }
  }

  lemma CommitsNow(j: Journal, id: nat, row: Row)
    requires j.steps != []
    ensures var db, step := j.At(|j.steps| - 1), j.steps[|j.steps| - 1];
            CommitsAt(j, |j.steps| - 1, id, row) <==>
              step.Commit? && step.t in db.open && db.open[step.t].stage.Idle? && Holds(db.open[step.t].own, id, row)
  {
    hide Run, Owns;
    var n := |j.steps| - 1;
    LastStep(j);
    if j.steps[n].Commit? && j.steps[n].t in j.At(n).open {
      OwnExactly(j.Upto(n), j.steps[n].t, id, row);
    }
  }

  /**
   Over every run the committed table is exactly what the journal records: the rows of the events whose lock was
   asked for, whose tenant's last event was read, which were signed under the key active then and stored under the
   next id, by transactions that committed before they ended otherwise.
   */
  lemma {:induction false} CommittedExactly(j: Journal, id: nat, row: Row)
    ensures Holds(j.End().committed, id, row) <==> Recorded(j, id, row)
    decreases |j.steps|
  {
    hide Apply, CommitsAt, Recorded;
    if j.steps == [] {
      NothingRecorded(j, id, row);
    } else {
      var n := |j.steps| - 1;
      var db := j.At(n);
      CommittedExactly(j.Upto(n), id, row);
      LastStep(j);
      CommittedStep(j.hmac, db, j.steps[n]);
      CommitsNow(j, id, row);
      RecordedSplits(j, id, row);
      if j.steps[n].Commit? && j.steps[n].t in db.open {
        RunKeepsInv(j.hmac, j.config, j.steps[..n]);
        OwnIsOld(j.hmac, db, j.steps[n].t);
      }
    }
  }

  lemma NothingRecorded(j: Journal, id: nat, row: Row)
    requires j.steps == []
    ensures !Recorded(j, id, row)
  {
    hide CommitsAt;
    if Recorded(j, id, row) {
      var k :| CommitsAt(j, k, id, row);
      CommitsInRange(j, k, id, row);
    }
  }

  /** A committed row never changes and never disappears. */
  lemma {:induction false} CommittedStays(hmac: Hmac, config: HashConfig, steps: seq<Step>, more: seq<Step>, id: nat)
    requires id in Run(hmac, config, steps).committed
    ensures Holds(Run(hmac, config, steps + more).committed, id, Run(hmac, config, steps).committed[id])
  {
    hide Apply;
    if more == [] {
      assert steps + more == steps;
    } else {
      var n := |more| - 1;
      CommittedStays(hmac, config, steps, more[..n], id);
      assert (steps + more)[..|steps + more| - 1] == steps + more[..n];
      var db := Run(hmac, config, steps + more[..n]);
      CommittedStep(hmac, db, more[n]);
      if more[n].Commit? && more[n].t in db.open {
        RunKeepsInv(hmac, config, steps + more[..n]);
        OwnIsOld(hmac, db, more[n].t);
      }
    }
  }

  /** What an append leaves when nothing comes between its steps */
  function Appended(hmac: Hmac, db: Database, t: nat, input: Input): Database {
    var locked := Apply(hmac, Apply(hmac, db, Begin(t)), Lock(t, input));
    Apply(hmac, Apply(hmac, Apply(hmac, locked, ReadLast(t)), Insert(t)), Commit(t))
  }

  /**
   Nothing stands in the way of an append but the lock of its tenant: with the lock free, an event that can be
   signed is committed under the next id, behind the last committed event of its tenant.
   */
  lemma FreeAppendCommits(hmac: Hmac, db: Database, t: nat, input: Input)
    requires t !in db.open && LockIsFree(db, t, LockOf(input.tenantId))
    requires DistinctKeys(input.payload) && Sealable(db.config, input)
    ensures var after := Appended(hmac, db, t, input);
            && after.committed.Keys == db.committed.Keys + {db.nextId}
            && (forall id | id in db.committed && id != db.nextId :: after.committed[id] == db.committed[id])
            && after.committed[db.nextId].input == input
            && after.committed[db.nextId].previousHash == HashOf(Last(db.committed, input.tenantId, db.nextId))
            && SealedUnder(hmac, db.config, after.committed[db.nextId])
            && after.open == db.open
  {
    hide Seal, Sealable, SealedUnder, DistinctKeys, LockOf, Last;
    var begun := Apply(hmac, db, Begin(t));
    assert begun.open[t] == Transaction(map[], {}, Idle);
    var locked := Apply(hmac, begun, Lock(t, input));
    assert LockIsFree(begun, t, LockOf(input.tenantId));
    assert View(locked, t) == db.committed;
    SealExactly(hmac, db.config, input, HashOf(Last(db.committed, input.tenantId, db.nextId)));
  }

  /** Events of two tenants, as the database numbers them, never wait for each other. */
  lemma TenantsNeverWait(a: int, b: int)
    requires -0x8000_0000_0000_0000 <= a < 0x8000_0000_0000_0000 && -0x8000_0000_0000_0000 <= b < 0x8000_0000_0000_0000
    ensures LockOf(a) == LockOf(b) <==> a == b
  {
    hide AdvisoryLock.LockKey;
    if a != b {
      AdvisoryLock.DatabaseIdsNeverShareKeys(AdvisoryLock.AuditChain, a, b);
    }
  }

  /** The last event of a tenant below a bound is the one with the greatest id, and is missing only if there is none. */
  lemma {:induction false} LastIsGreatest(rows: Table, tenantId: int, bound: nat, id: nat)
    ensures && id < bound && id in rows && rows[id].input.tenantId == tenantId
            && (forall k | id < k < bound && k in rows :: rows[k].input.tenantId != tenantId)
            ==> Last(rows, tenantId, bound) == Some(rows[id])
    ensures Last(rows, tenantId, bound) == None <==>
              forall k | k < bound && k in rows :: rows[k].input.tenantId != tenantId
  {
    if bound > 0 {
      LastIsGreatest(rows, tenantId, bound - 1, id);
    }
  }

  /** From a rotation on events are signed under the new id with the new secret; nothing else changes. */
  lemma RotationTakesEffect(hmac: Hmac, db: Database, id: Text, secret: Text)
    requires CanRotate(db.config, id)
    ensures var after := Apply(hmac, db, RotateKey(id, secret));
            && ActiveKeyId(after.config) == id && after.config.secret == Some(secret)
            && (forall other | other != id :: SecretForKey(after.config, other) == SecretForKey(db.config, other))
            && after.committed == db.committed && after.open == db.open && after.nextId == db.nextId
  {
    forall other | other != id
      ensures SecretForKey(Rotate(db.config, id, secret), other) == SecretForKey(db.config, other)
    {
      RotationAddsOneKey(db.config, id, secret, other);
    }
  }

  /** No other step touches the keys. */
  lemma OnlyRotationsTurnKeys(hmac: Hmac, db: Database, step: Step)
    ensures !(step.RotateKey? && CanRotate(db.config, step.id)) ==> Apply(hmac, db, step).config == db.config
  {
    hide Seal, Last, LockOf, CanRotate, Rotate, LockIsFree, DistinctKeys;
  }
}
