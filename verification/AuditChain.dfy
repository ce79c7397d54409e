/**
 The per-tenant audit hash chain as many concurrent transactions write it. Every statement of a
 transaction is one atomic step; it sees the committed rows and the transaction's own rows.
 */
module AuditChain {
  import opened Wrappers
  import opened Texts
  import opened CanonicalJson
  import opened HashKeys
  import AdvisoryLock

  datatype Input = Input(
    tenantId: int,
    eventType: Text,
    aggregateType: Text,
    aggregateId: Text,
    actorId: Text,
    requestId: Option<Text>,
    payload: Value)

  /** Rows written before the signed text was stored carry none. */
  datatype Row = Row(
    input: Input,
    previousHash: Option<Text>,
    eventHash: Text,
    hashKeyId: Text,
    canonicalPayload: Option<Text>)

  /** Rows by their autoincremented id. */
  type Table = map<nat, Row>

  /** How far an append has come inside its transaction. */
  datatype Stage = Idle | Locked(input: Input) | HasRead(input: Input, previous: Option<Text>)

  datatype Transaction = Transaction(own: Table, locks: set<int>, stage: Stage)

  datatype Database = Database(
    committed: Table,
    nextId: nat,
    open: map<nat, Transaction>,
    config: HashConfig)

  datatype Step =
    | Begin(t: nat)
    | Lock(t: nat, input: Input)
    | ReadLast(t: nat)
    | Insert(t: nat)
    | Commit(t: nat)
    | Rollback(t: nat)
    | RotateKey(id: Text, secret: Text)

  // ---------------------------------------------------------------------------
  // Sealing an event
  // ---------------------------------------------------------------------------

  const TENANT_ID: Text := Ascii("tenantId")
  const EVENT_TYPE: Text := Ascii("eventType")
  const AGGREGATE_TYPE: Text := Ascii("aggregateType")
  const AGGREGATE_ID: Text := Ascii("aggregateId")
  const ACTOR_ID: Text := Ascii("actorId")
  const REQUEST_ID: Text := Ascii("requestId")
  const PAYLOAD: Text := Ascii("payload")
  const PREVIOUS_HASH: Text := Ascii("previousHash")

  function TextOrNull(t: Option<Text>): Value {
    if t.Some? then Str(t.value) else Null
  }

  function SealedTail(input: Input, previous: Option<Text>): Entries {
    Entry(REQUEST_ID, TextOrNull(input.requestId),
      Entry(PAYLOAD, input.payload,
        Entry(PREVIOUS_HASH, TextOrNull(previous), NoEntry)))
  }

  function SealedEntries(input: Input, previous: Option<Text>): Entries {
    Entry(TENANT_ID, Str(Signed(input.tenantId)),
      Entry(EVENT_TYPE, Str(input.eventType),
        Entry(AGGREGATE_TYPE, Str(input.aggregateType),
          Entry(AGGREGATE_ID, Str(input.aggregateId),
            Entry(ACTOR_ID, Str(input.actorId), SealedTail(input, previous))))))
  }

  /** The object whose canonical text is signed: the event and the hash it follows. */
  function Sealed(input: Input, previous: Option<Text>): Value {
    Record(SealedEntries(input, previous))
  }

  /** The text an append signs for the columns and the link of the row, if they have one */
  function SealedText(row: Row): Option<Text> {
    match Canonicalize(Sealed(row.input, row.previousHash))
    case Success(text) => Some(text)
    case Failure(_) => None
  }

  /** What is signed again to check a row: the stored text, or the one rebuilt from the columns */
  function Material(row: Row): Option<Text> {
    if row.canonicalPayload.Some? then row.canonicalPayload else SealedText(row)
  }

  function Resign(hmac: Hmac, config: HashConfig, row: Row): Option<Text> {
    if Material(row).None? then None
    else
      match HmacWithKey(hmac, config, Material(row).value, row.hashKeyId)
      case Success(hash) => Some(hash)
      case Failure(_) => None
  }

  /** The row an append stores, or nothing when the payload or the key is unusable. */
  function Seal(hmac: Hmac, config: HashConfig, input: Input, previous: Option<Text>): Option<Row> {
    var keyId := ActiveKeyId(config);
    match Canonicalize(Sealed(input, previous))
    case Failure(_) => None
    case Success(text) =>
      match HmacWithKey(hmac, config, text, keyId)
      case Failure(_) => None
      case Success(hash) => Some(Row(input, previous, hash, keyId, Some(text)))
  }

  // ---------------------------------------------------------------------------
  // The steps
  // ---------------------------------------------------------------------------

  function LockOf(tenantId: int): int {
    AdvisoryLock.LockKey(AdvisoryLock.AuditChain, [tenantId])
  }

  /** The row of a tenant with the greatest id below a bound. */
  function Last(rows: Table, tenantId: int, bound: nat): Option<Row> {
    if bound == 0 then None
    else if bound - 1 in rows && rows[bound - 1].input.tenantId == tenantId then Some(rows[bound - 1])
    else Last(rows, tenantId, bound - 1)
  }

  function HashOf(row: Option<Row>): Option<Text> {
    if row.Some? then Some(row.value.eventHash) else None
  }

  function View(db: Database, t: nat): Table
    requires t in db.open
  {
    db.committed + db.open[t].own
  }

  predicate LockIsFree(db: Database, t: nat, key: int) {
    forall u | u in db.open :: u != t ==> key !in db.open[u].locks
  }

  /** One atomic step; a step that is not enabled (a lock held elsewhere, say) changes nothing. */
  function Apply(hmac: Hmac, db: Database, step: Step): Database {
    match step
    case Begin(t) =>
      if t in db.open then db else db.(open := db.open[t := Transaction(map[], {}, Idle)])
    case Lock(t, input) =>
      if t in db.open && db.open[t].stage.Idle? && DistinctKeys(input.payload)
         && LockIsFree(db, t, LockOf(input.tenantId))
      then
        var x := db.open[t];
        db.(open := db.open[t := x.(locks := x.locks + {LockOf(input.tenantId)}, stage := Locked(input))])
      else db
    case ReadLast(t) =>
      if t in db.open && db.open[t].stage.Locked? then
        var x := db.open[t];
        var previous := HashOf(Last(View(db, t), x.stage.input.tenantId, db.nextId));
        db.(open := db.open[t := x.(stage := HasRead(x.stage.input, previous))])
      else db
    case Insert(t) =>
      if t in db.open && db.open[t].stage.HasRead? then
        var x := db.open[t];
        match Seal(hmac, db.config, x.stage.input, x.stage.previous)
        case None => db.(open := db.open - {t})
        case Some(row) =>
          db.(open := db.open[t := x.(own := x.own[db.nextId := row], stage := Idle)], nextId := db.nextId + 1)
      else db
    case Commit(t) =>
      if t in db.open && db.open[t].stage.Idle? then
        db.(committed := View(db, t), open := db.open - {t})
      else db
    case Rollback(t) => db.(open := db.open - {t})
    case RotateKey(id, secret) =>
      if CanRotate(db.config, id) then db.(config := Rotate(db.config, id, secret)) else db
  }

  function Run(hmac: Hmac, config: HashConfig, steps: seq<Step>): Database {
    if steps == [] then Database(map[], 0, map[], config)
    else Apply(hmac, Run(hmac, config, steps[..|steps| - 1]), steps[|steps| - 1])
  }

  // ---------------------------------------------------------------------------
  // The chain
  // ---------------------------------------------------------------------------

  /** Each row of the tenant carries the hash of the tenant's row before it; the first carries none. */
  ghost predicate Chained(rows: Table, tenantId: int) {
    forall id | id in rows && rows[id].input.tenantId == tenantId ::
      rows[id].previousHash == HashOf(Last(rows, tenantId, id))
  }

  /** The row is what sealing yields under a secret the configuration still resolves. */
  ghost predicate Genuine(hmac: Hmac, config: HashConfig, row: Row) {
    && DistinctKeys(row.input.payload)
    && SealedText(row).Some? && Material(row) == SealedText(row)
    && Resign(hmac, config, row) == Some(row.eventHash)
  }

  ghost predicate AllGenuine(hmac: Hmac, config: HashConfig, rows: Table) {
    forall id | id in rows :: Genuine(hmac, config, rows[id])
  }

  ghost predicate TransactionOk(hmac: Hmac, db: Database, t: nat)
    requires t in db.open
  {
    var x := db.open[t];
    && (forall id | id in x.own :: id < db.nextId && id !in db.committed && LockOf(x.own[id].input.tenantId) in x.locks)
    && AllGenuine(hmac, db.config, x.own)
    && (x.stage.Idle? || (LockOf(x.stage.input.tenantId) in x.locks && DistinctKeys(x.stage.input.payload)))
    && (forall tenantId :: LockOf(tenantId) in x.locks ==> Chained(View(db, t), tenantId))
    && (x.stage.HasRead? ==>
          x.stage.previous == HashOf(Last(View(db, t), x.stage.input.tenantId, db.nextId)))
  }

  ghost predicate Apart(x: Transaction, y: Transaction) {
    x.locks !! y.locks && x.own.Keys !! y.own.Keys
  }

  ghost predicate Inv(hmac: Hmac, db: Database) {
    && (forall id | id in db.committed :: id < db.nextId)
    && AllGenuine(hmac, db.config, db.committed)
    && (forall tenantId :: Chained(db.committed, tenantId))
    && (forall t | t in db.open :: TransactionOk(hmac, db, t))
    && (forall t, u | t in db.open && u in db.open && t != u :: Apart(db.open[t], db.open[u]))
  }

  /** Two tables hold the same rows of a tenant below a bound. */
  ghost predicate SameTenant(a: Table, b: Table, tenantId: int, bound: nat) {
    forall id | id < bound ::
      && ((id in a && a[id].input.tenantId == tenantId) <==> (id in b && b[id].input.tenantId == tenantId))
      && (id in a && a[id].input.tenantId == tenantId ==> a[id] == b[id])
  }

  lemma {:induction false} LastOfSame(a: Table, b: Table, tenantId: int, bound: nat)
    requires SameTenant(a, b, tenantId, bound)
    ensures Last(a, tenantId, bound) == Last(b, tenantId, bound)
  {
    if bound > 0 {
      LastOfSame(a, b, tenantId, bound - 1);
    }
  }

  lemma ChainedOfSame(a: Table, b: Table, tenantId: int, bound: nat)
    requires SameTenant(a, b, tenantId, bound) && (forall id | id in a || id in b :: id < bound)
    requires Chained(a, tenantId)
    ensures Chained(b, tenantId)
  {
    forall id | id in b && b[id].input.tenantId == tenantId
      ensures b[id].previousHash == HashOf(Last(b, tenantId, id))
    {
      LastOfSame(a, b, tenantId, id);
    }
  }

  /** Appending a row that carries the hash of the last one keeps the tenant's chain. */
  lemma ChainExtends(rows: Table, id: nat, row: Row, tenantId: int)
    requires (forall i | i in rows :: i < id) && Chained(rows, tenantId)
    requires row.input.tenantId == tenantId ==> row.previousHash == HashOf(Last(rows, tenantId, id))
    ensures Chained(rows[id := row], tenantId)
  {
    var more := rows[id := row];
    forall i | i in more && more[i].input.tenantId == tenantId
      ensures more[i].previousHash == HashOf(Last(more, tenantId, i))
    {
      LastOfSame(rows, more, tenantId, i);
    }
  }
}
