/**
 Verification of a stored chain: every reachable chain verifies after any rotations, no two events
 share a hash, and tampering breaks a hash or a link.
 */
module AuditVerification {
  import opened Wrappers
  import opened Texts
  import opened CanonicalJson
  import opened HashKeys
  import opened AuditChain
  import opened AuditChainSafety
  import opened AuditSealing

  // ---------------------------------------------------------------------------
  // No forks
  // ---------------------------------------------------------------------------

  lemma {:induction false} LastId(rows: Table, tenantId: int, bound: nat) returns (id: nat)
    requires Last(rows, tenantId, bound).Some?
    ensures id < bound && id in rows && rows[id].input.tenantId == tenantId
    ensures Last(rows, tenantId, bound) == Some(rows[id])
    ensures forall k | id < k < bound && k in rows :: rows[k].input.tenantId != tenantId
  {
    if bound - 1 in rows && rows[bound - 1].input.tenantId == tenantId {
      id := bound - 1;
    } else {
      id := LastId(rows, tenantId, bound - 1);
    }
  }

  lemma {:induction false} NoLast(rows: Table, tenantId: int, bound: nat, id: nat)
    requires Last(rows, tenantId, bound).None? && id < bound && id in rows
    ensures rows[id].input.tenantId != tenantId
  {
    if id < bound - 1 {
      NoLast(rows, tenantId, bound - 1, id);
    }
  }

  /** Equal hashes seal equal links, under any keys. */
  lemma EqualHashesSealEqualLinks(hmac: Hmac, config: HashConfig, a: Row, b: Row)
    requires CollisionFree(hmac) && Genuine(hmac, config, a) && Genuine(hmac, config, b)
    requires a.eventHash == b.eventHash
    ensures a.input.tenantId == b.input.tenantId && a.previousHash == b.previousHash
    ensures Material(a) == Material(b)
  {
    hide SealedText;
    var s, t := SecretForKey(config, a.hashKeyId).value, SecretForKey(config, b.hashKeyId).value;
    assert hmac(s, Material(a).value) == hmac(t, Material(b).value);
    SealedTextDetermines(a, b);
  }

  /** Two events of well-formed chains never share a hash: their common history would have to start twice. */
  lemma {:induction false} NoSharedHash(hmac: Hmac, config: HashConfig, rows: Table, i: nat, j: nat)
    requires CollisionFree(hmac) && AllGenuine(hmac, config, rows) && forall tenantId :: Chained(rows, tenantId)
    requires i in rows && j in rows && i < j
    ensures rows[i].eventHash != rows[j].eventHash
    decreases j
  {
    hide Genuine;
    if rows[i].eventHash == rows[j].eventHash {
      EqualHashesSealEqualLinks(hmac, config, rows[i], rows[j]);
      var tenantId := rows[i].input.tenantId;
      assert Chained(rows, tenantId);
      if Last(rows, tenantId, j).None? {
        NoLast(rows, tenantId, j, i);
      } else {
        var q := LastId(rows, tenantId, j);
        assert Last(rows, tenantId, i).Some?;
        var p := LastId(rows, tenantId, i);
        assert p < i <= q;
        NoSharedHash(hmac, config, rows, p, q);
      }
    }
  }

  /** In every reachable state no two committed events, of any tenants, share an event hash. */
  lemma CommittedHashesUnique(hmac: Hmac, config: HashConfig, steps: seq<Step>, i: nat, j: nat)
    requires CollisionFree(hmac) && i != j
    requires i in Run(hmac, config, steps).committed && j in Run(hmac, config, steps).committed
    ensures Run(hmac, config, steps).committed[i].eventHash != Run(hmac, config, steps).committed[j].eventHash
  {
    RunKeepsInv(hmac, config, steps);
    var db := Run(hmac, config, steps);
    NoSharedHash(hmac, db.config, db.committed, if i < j then i else j, if i < j then j else i);
  }

  /** No forks: two committed events of one tenant never follow the same predecessor. */
  lemma NoForks(hmac: Hmac, config: HashConfig, steps: seq<Step>, i: nat, j: nat)
    requires CollisionFree(hmac) && i < j
    requires i in Run(hmac, config, steps).committed && j in Run(hmac, config, steps).committed
    requires Run(hmac, config, steps).committed[i].input.tenantId == Run(hmac, config, steps).committed[j].input.tenantId
    ensures Run(hmac, config, steps).committed[i].previousHash != Run(hmac, config, steps).committed[j].previousHash
  {
    RunKeepsInv(hmac, config, steps);
    var rows := Run(hmac, config, steps).committed;
    var tenantId := rows[i].input.tenantId;
    assert Chained(rows, tenantId);
    if Last(rows, tenantId, j).None? {
      NoLast(rows, tenantId, j, i);
    } else if Last(rows, tenantId, i).Some? {
      var q := LastId(rows, tenantId, j);
      var p := LastId(rows, tenantId, i);
      CommittedHashesUnique(hmac, config, steps, p, q);
    }
  }

  // ---------------------------------------------------------------------------
  // The verifier
  // ---------------------------------------------------------------------------

  /** The committed rows of a tenant with ids below a bound, in id order. */
  function TenantRows(rows: Table, tenantId: int, bound: nat): seq<Row> {
    if bound == 0 then []
    else if bound - 1 in rows && rows[bound - 1].input.tenantId == tenantId then
      TenantRows(rows, tenantId, bound - 1) + [rows[bound - 1]]
    else TenantRows(rows, tenantId, bound - 1)
  }

  predicate RowValid(hmac: Hmac, config: HashConfig, previous: Option<Text>, row: Row) {
    && row.previousHash == previous
    && Resign(hmac, config, row) == Some(row.eventHash)
  }

  function LinkBefore(rows: seq<Row>, i: nat): Option<Text>
    requires i <= |rows|
  {
    if i == 0 then None else Some(rows[i - 1].eventHash)
  }

  predicate ValidAt(hmac: Hmac, config: HashConfig, rows: seq<Row>, i: nat)
    requires i < |rows|
  {
    RowValid(hmac, config, LinkBefore(rows, i), rows[i])
  }

  predicate Verifies(hmac: Hmac, config: HashConfig, rows: seq<Row>) {
    forall i | 0 <= i < |rows| :: ValidAt(hmac, config, rows, i)
  }

  datatype Reason = PreviousHashMismatch | EventHashMismatch | HashKeyUnavailable

  /** A reported event, by its place in the tenant's listing. */
  datatype Problem = Problem(at: nat, reason: Reason)

  datatype Report = Report(valid: bool, eventCount: nat, headHash: Option<Text>, invalid: seq<Problem>)

  /** What one event is reported for, link before hash */
  function ProblemsAt(hmac: Hmac, config: HashConfig, previous: Option<Text>, event: Row, at: nat): (found: seq<Problem>)
    ensures forall p | p in found :: p.at == at
    ensures found == [] <==> RowValid(hmac, config, previous, event)
    ensures Problem(at, PreviousHashMismatch) in found <==> event.previousHash != previous
  {
    (if event.previousHash != previous then [Problem(at, PreviousHashMismatch)] else [])
    + match Resign(hmac, config, event)
      case Some(hash) => if hash != event.eventHash then [Problem(at, EventHashMismatch)] else []
      case None => [Problem(at, HashKeyUnavailable)]
  }

  function ProblemsOf(hmac: Hmac, config: HashConfig, rows: seq<Row>, i: nat): seq<Problem>
    requires i < |rows|
  {
    ProblemsAt(hmac, config, LinkBefore(rows, i), rows[i], i)
  }

  /** What the first n events should be reported for */
  function Problems(hmac: Hmac, config: HashConfig, rows: seq<Row>, n: nat): seq<Problem>
    requires n <= |rows|
  {
    if n == 0 then [] else Problems(hmac, config, rows, n - 1) + ProblemsOf(hmac, config, rows, n - 1)
  }

  /** The reports are in the order of the events. */
  predicate InOrder(problems: seq<Problem>) {
    forall i, k | 0 <= i < k < |problems| :: problems[i].at <= problems[k].at
  }

  /** An event is reported exactly for what is wrong with it. */
  lemma {:induction false} ProblemsExactly(hmac: Hmac, config: HashConfig, rows: seq<Row>, n: nat, p: Problem)
    requires n <= |rows|
    ensures p in Problems(hmac, config, rows, n) <==> p.at < n && p in ProblemsOf(hmac, config, rows, p.at)
  {
    hide ProblemsOf;
    if n > 0 {
      ProblemsExactly(hmac, config, rows, n - 1, p);
      PlaceOfProblems(hmac, config, rows, n - 1);
    }
  }

  /** All reports are in the order of the events. */
  lemma {:induction false} ProblemsInOrder(hmac: Hmac, config: HashConfig, rows: seq<Row>, n: nat)
    requires n <= |rows|
    ensures InOrder(Problems(hmac, config, rows, n))
    ensures forall k | 0 <= k < |Problems(hmac, config, rows, n)| :: Problems(hmac, config, rows, n)[k].at < n
  {
    hide ProblemsOf;
    if n > 0 {
      ProblemsInOrder(hmac, config, rows, n - 1);
      PlaceOfProblems(hmac, config, rows, n - 1);
      JoinInOrder(Problems(hmac, config, rows, n - 1), ProblemsOf(hmac, config, rows, n - 1), n - 1);
    }
  }

  lemma JoinInOrder(before: seq<Problem>, found: seq<Problem>, at: nat)
    requires InOrder(before) && (forall k | 0 <= k < |before| :: before[k].at < at) && forall p | p in found :: p.at == at
    ensures InOrder(before + found) && forall k | 0 <= k < |before + found| :: (before + found)[k].at < at + 1
  {
    assert forall k | 0 <= k < |found| :: found[k] in found;
  }

  lemma PlaceOfProblems(hmac: Hmac, config: HashConfig, rows: seq<Row>, i: nat)
    requires i < |rows|
    ensures forall p | p in ProblemsOf(hmac, config, rows, i) :: p.at == i
    ensures ProblemsOf(hmac, config, rows, i) == [] <==> ValidAt(hmac, config, rows, i)
  {
    hide Resign;
  }

  /** An event is reported at all exactly when it is not valid at its place. */
  lemma ReportedExactly(hmac: Hmac, config: HashConfig, rows: seq<Row>, i: nat)
    requires i < |rows|
    ensures (exists p :: p in Problems(hmac, config, rows, |rows|) && p.at == i) <==> !ValidAt(hmac, config, rows, i)
  {
    hide ValidAt, ProblemsOf, Problems;
    PlaceOfProblems(hmac, config, rows, i);
    forall p: Problem
      ensures p in Problems(hmac, config, rows, |rows|) <==> p.at < |rows| && p in ProblemsOf(hmac, config, rows, p.at)
    {
      ProblemsExactly(hmac, config, rows, |rows|, p);
    }
    if !ValidAt(hmac, config, rows, i) {
      var p := ProblemsOf(hmac, config, rows, i)[0];
      assert p in ProblemsOf(hmac, config, rows, i);
      assert p in Problems(hmac, config, rows, |rows|);
    }
  }

  /** Nothing is reported exactly when every event is valid at its place. */
  lemma {:induction false} NothingReportedExactly(hmac: Hmac, config: HashConfig, rows: seq<Row>, n: nat)
    requires n <= |rows|
    ensures Problems(hmac, config, rows, n) == [] <==> forall i | 0 <= i < n :: ValidAt(hmac, config, rows, i)
  {
    hide ValidAt, ProblemsOf;
    if n > 0 {
      NothingReportedExactly(hmac, config, rows, n - 1);
      PlaceOfProblems(hmac, config, rows, n - 1);
    }
  }

  /** `readAuditChainBatch`: the events after a place, at most so many */
  function Batch(rows: seq<Row>, after: nat, size: nat): seq<Row>
    requires after <= |rows|
  {
    if after + size <= |rows| then rows[after..after + size] else rows[after..]
  }

  /** `verifyAuditChain`: walks the chain in batches, carrying the running previous hash from one to the next. */
  method VerifyChain(hmac: Hmac, config: HashConfig, rows: seq<Row>, batchSize: nat) returns (v: Report)
    requires batchSize >= 1
    ensures v.invalid == Problems(hmac, config, rows, |rows|)
    ensures v.valid <==> Verifies(hmac, config, rows)
    ensures v.eventCount == |rows| && v.headHash == LinkBefore(rows, |rows|)
  {
    hide Resign, Verifies, ProblemsAt;
    var previousHash, eventCount, invalid := None, 0, [];
    while true
      invariant eventCount <= |rows|
      invariant previousHash == LinkBefore(rows, eventCount)
      invariant invalid == Problems(hmac, config, rows, eventCount)
      decreases |rows| - eventCount
    {
      var events := Batch(rows, eventCount, batchSize);
      if events == [] {
        break;
      }
      ghost var first := eventCount;
      for i := 0 to |events|
        invariant eventCount == first + i
        invariant previousHash == LinkBefore(rows, eventCount)
        invariant invalid == Problems(hmac, config, rows, eventCount)
      {
        assert events[i] == rows[eventCount];
        var found := CheckEvent(hmac, config, previousHash, events[i], eventCount);
        invalid := invalid + found;
        previousHash := Some(events[i].eventHash);
        eventCount := eventCount + 1;
      }
      if |events| < batchSize {
        break;
      }
    }
    NoReportMeansValid(hmac, config, rows);
    v := Report(invalid == [], eventCount, previousHash, invalid);
  }

  lemma NoReportMeansValid(hmac: Hmac, config: HashConfig, rows: seq<Row>)
    ensures Problems(hmac, config, rows, |rows|) == [] <==> Verifies(hmac, config, rows)
  {
    hide ValidAt, Problems;
    NothingReportedExactly(hmac, config, rows, |rows|);
  }

  /** The two checks of one event */
  method CheckEvent(hmac: Hmac, config: HashConfig, previousHash: Option<Text>, event: Row, at: nat)
    returns (found: seq<Problem>)
    ensures found == ProblemsAt(hmac, config, previousHash, event, at)
  {
    hide Resign;
    found := [];
    if event.previousHash != previousHash {
      found := [Problem(at, PreviousHashMismatch)];
    }
    match Resign(hmac, config, event) {
      case Some(hash) =>
        if hash != event.eventHash {
          found := found + [Problem(at, EventHashMismatch)];
        }
      case None =>
        found := found + [Problem(at, HashKeyUnavailable)];
    }
  }

  lemma ValidExtends(hmac: Hmac, config: HashConfig, rows: seq<Row>, row: Row)
    requires Verifies(hmac, config, rows) && RowValid(hmac, config, LinkBefore(rows, |rows|), row)
    ensures Verifies(hmac, config, rows + [row])
  {
    hide Resign;
    forall i | 0 <= i < |rows| + 1
      ensures ValidAt(hmac, config, rows + [row], i)
    {
      if i < |rows| {
        assert ValidAt(hmac, config, rows, i);
      }
    }
  }

  lemma {:induction false} TenantRowsVerify(hmac: Hmac, config: HashConfig, rows: Table, tenantId: int, bound: nat)
    requires AllGenuine(hmac, config, rows) && Chained(rows, tenantId)
    ensures Verifies(hmac, config, TenantRows(rows, tenantId, bound))
    ensures LinkBefore(TenantRows(rows, tenantId, bound), |TenantRows(rows, tenantId, bound)|)
         == HashOf(Last(rows, tenantId, bound))
  {
    hide SealedText, Resign, Verifies;
    if bound == 0 {
      NothingVerifies(hmac, config);
    } else {
      TenantRowsVerify(hmac, config, rows, tenantId, bound - 1);
      if bound - 1 in rows && rows[bound - 1].input.tenantId == tenantId {
        assert Genuine(hmac, config, rows[bound - 1]);
        ValidExtends(hmac, config, TenantRows(rows, tenantId, bound - 1), rows[bound - 1]);
      }
    }
  }

  lemma NothingVerifies(hmac: Hmac, config: HashConfig)
    ensures Verifies(hmac, config, [])
  {
  }

  /** Every committed chain re-hashes and links correctly, whatever rotations happened on the way. */
  lemma CommittedChainVerifies(hmac: Hmac, config: HashConfig, steps: seq<Step>, tenantId: int)
    ensures var db := Run(hmac, config, steps);
            Verifies(hmac, db.config, TenantRows(db.committed, tenantId, db.nextId))
  {
    RunKeepsInv(hmac, config, steps);
    var db := Run(hmac, config, steps);
    TenantRowsVerify(hmac, db.config, db.committed, tenantId, db.nextId);
  }

  /** A chain that verifies still verifies after further rotations that keep the retired secrets. */
  lemma RotationsKeepVerification(hmac: Hmac, config: HashConfig, keys: seq<(Text, Text)>, rows: seq<Row>)
    requires RotateAll(config, keys).Some? && Verifies(hmac, config, rows)
    ensures Verifies(hmac, RotateAll(config, keys).value, rows)
  {
    hide RotateAll, SecretForKey, SealedText;
    forall i | 0 <= i < |rows|
      ensures ValidAt(hmac, RotateAll(config, keys).value, rows, i)
    {
      assert ValidAt(hmac, config, rows, i);
      RotationsKeepSecrets(config, keys, rows[i].hashKeyId);
    }
  }

  // ---------------------------------------------------------------------------
  // Tampering
  // ---------------------------------------------------------------------------

  ghost predicate DistinctHashes(rows: seq<Row>) {
    forall i, j | 0 <= i < j < |rows| :: rows[i].eventHash != rows[j].eventHash
  }

  /** Any other signed text in a row is noticed, also where none was stored. */
  lemma ChangedPayloadBreaks(hmac: Hmac, config: HashConfig, rows: seq<Row>, i: nat, text: Text)
    requires CollisionFree(hmac) && Verifies(hmac, config, rows)
    requires i < |rows| && Some(text) != Material(rows[i])
    ensures !Verifies(hmac, config, rows[i := rows[i].(canonicalPayload := Some(text))])
  {
    hide SealedText;
    assert ValidAt(hmac, config, rows, i);
    var changed := rows[i := rows[i].(canonicalPayload := Some(text))];
    var secret := SecretForKey(config, rows[i].hashKeyId).value;
    assert hmac(secret, text) != hmac(secret, Material(rows[i]).value);
    assert !ValidAt(hmac, config, changed, i);
  }

  /**
   One row replaced by any other, in all its fields: the chain still verifies exactly when the new row has the
   same link, its own hash is right, and, unless it is the last, that hash is the old one.
   */
  lemma ReplacedRowUnnoticedExactly(hmac: Hmac, config: HashConfig, rows: seq<Row>, i: nat, row: Row)
    requires Verifies(hmac, config, rows) && i < |rows|
    ensures Verifies(hmac, config, rows[i := row]) <==>
              && RowValid(hmac, config, rows[i].previousHash, row)
              && (i < |rows| - 1 ==> row.eventHash == rows[i].eventHash)
  {
    hide Resign;
    var changed := rows[i := row];
    assert ValidAt(hmac, config, rows, i);
    forall k | 0 <= k < |rows| && k != i && k != i + 1
      ensures ValidAt(hmac, config, changed, k)
    {
      assert ValidAt(hmac, config, rows, k);
    }
    assert ValidAt(hmac, config, changed, i) <==> RowValid(hmac, config, rows[i].previousHash, row);
    if i < |rows| - 1 {
      assert ValidAt(hmac, config, rows, i + 1);
      assert ValidAt(hmac, config, changed, i + 1) <==> row.eventHash == rows[i].eventHash;
    }
  }

  /** A replaced row that goes unnoticed inside the chain carries the signed text of the old one, link included. */
  lemma InnerRowKeepsItsText(hmac: Hmac, config: HashConfig, rows: seq<Row>, i: nat, row: Row)
    requires CollisionFree(hmac) && Verifies(hmac, config, rows) && i < |rows| - 1
    requires Verifies(hmac, config, rows[i := row])
    ensures Material(row) == Material(rows[i])
    ensures row.previousHash == rows[i].previousHash && row.eventHash == rows[i].eventHash
  {
    hide SealedText;
    ReplacedRowUnnoticedExactly(hmac, config, rows, i, row);
    assert ValidAt(hmac, config, rows, i);
  }

  /** Where the signed text is stored, the columns are never compared with it: any edit of them alone goes unnoticed. */
  lemma ColumnsAreNotCompared(hmac: Hmac, config: HashConfig, rows: seq<Row>, i: nat, columns: Input)
    requires i < |rows| && rows[i].canonicalPayload.Some?
    ensures Verifies(hmac, config, rows[i := rows[i].(input := columns)]) <==> Verifies(hmac, config, rows)
  {
    hide HmacWithKey, SealedText;
    var changed := rows[i := rows[i].(input := columns)];
    forall k | 0 <= k < |rows|
      ensures ValidAt(hmac, config, changed, k) <==> ValidAt(hmac, config, rows, k)
    {
    }
  }

  /** The rows as they were before their signed texts were stored */
  function Unstored(rows: seq<Row>): (older: seq<Row>)
    ensures |older| == |rows| && forall i | 0 <= i < |rows| :: older[i] == rows[i].(canonicalPayload := None)
  {
    seq(|rows|, i requires 0 <= i < |rows| => rows[i].(canonicalPayload := None))
  }

  /** Rows without a stored text are checked against the one their columns yield, as those with it. */
  lemma StoredTextIsOptional(hmac: Hmac, config: HashConfig, rows: seq<Row>)
    requires forall i | 0 <= i < |rows| :: rows[i].canonicalPayload.Some? && rows[i].canonicalPayload == SealedText(rows[i])
    ensures Verifies(hmac, config, Unstored(rows)) <==> Verifies(hmac, config, rows)
  {
    hide SealedText, Resign;
    forall i | 0 <= i < |rows|
      ensures ValidAt(hmac, config, Unstored(rows), i) <==> ValidAt(hmac, config, rows, i)
    {
      UnstoredResigns(hmac, config, rows[i]);
    }
  }

  lemma UnstoredResigns(hmac: Hmac, config: HashConfig, row: Row)
    requires row.canonicalPayload.Some? && row.canonicalPayload == SealedText(row)
    ensures Resign(hmac, config, row.(canonicalPayload := None)) == Resign(hmac, config, row)
  {
    hide Canonicalize, Sealed, HmacWithKey;
  }

  /** Where it is not stored, an edit of the columns goes unnoticed exactly when they still say the same event. */
  lemma RebuiltColumnsExactly(hmac: Hmac, config: HashConfig, rows: seq<Row>, i: nat, columns: Input)
    requires CollisionFree(hmac) && Verifies(hmac, config, rows)
    requires i < |rows| && rows[i].canonicalPayload.None?
    requires DistinctKeys(rows[i].input.payload) && DistinctKeys(columns.payload)
    ensures Verifies(hmac, config, rows[i := rows[i].(input := columns)])
       <==> Sayable(columns.payload) && SameEvent(rows[i].(input := columns), rows[i])
  {
    hide SealedText, SameEvent, Sayable;
    var row := rows[i].(input := columns);
    ReplacedRowUnnoticedExactly(hmac, config, rows, i, row);
    assert ValidAt(hmac, config, rows, i);
    SealedTextExists(row);
    if Material(row).Some? {
      var secret := SecretForKey(config, row.hashKeyId).value;
      assert hmac(secret, Material(row).value) == hmac(secret, Material(rows[i]).value) ==> Material(row) == Material(rows[i]);
      SealedTextDetermines(row, rows[i]);
    }
  }

  function Picked(rows: seq<Row>, picks: seq<nat>): (picked: seq<Row>)
    requires forall k | 0 <= k < |picks| :: picks[k] < |rows|
    ensures |picked| == |picks| && forall k | 0 <= k < |picks| :: picked[k] == rows[picks[k]]
  {
    seq(|picks|, k requires 0 <= k < |picks| => rows[picks[k]])
  }

  /** A picked row is valid at its place exactly when it follows the row picked before it. */
  lemma PickValid(hmac: Hmac, config: HashConfig, rows: seq<Row>, picks: seq<nat>, k: nat)
    requires Verifies(hmac, config, rows) && DistinctHashes(rows)
    requires k < |picks| && forall j | 0 <= j < |picks| :: picks[j] < |rows|
    requires k > 0 ==> picks[k - 1] == k - 1
    ensures ValidAt(hmac, config, Picked(rows, picks), k) <==> picks[k] == k
  {
    hide Resign;
    var p := picks[k];
    assert ValidAt(hmac, config, rows, p);
    assert Picked(rows, picks)[k] == rows[p];
    if k > 0 {
      assert Picked(rows, picks)[k - 1] == rows[k - 1];
      assert p > 0 && p != k ==> rows[p - 1].eventHash != rows[k - 1].eventHash;
    }
  }

  lemma {:induction false} PicksFollowOn(hmac: Hmac, config: HashConfig, rows: seq<Row>, picks: seq<nat>, n: nat)
    requires Verifies(hmac, config, rows) && DistinctHashes(rows)
    requires n <= |picks| && forall k | 0 <= k < |picks| :: picks[k] < |rows|
    requires Verifies(hmac, config, Picked(rows, picks))
    ensures forall k | 0 <= k < n :: picks[k] == k
  {
    hide ValidAt, DistinctHashes;
    if n > 0 {
      PicksFollowOn(hmac, config, rows, picks, n - 1);
      PickValid(hmac, config, rows, picks, n - 1);
      assert ValidAt(hmac, config, Picked(rows, picks), n - 1);
    }
  }

  /**
   Any sequence of stored events, in any order and with any omissions or repetitions, verifies
   exactly when it is a prefix of the stored chain.
   */
  lemma OnlyPrefixesVerify(hmac: Hmac, config: HashConfig, rows: seq<Row>, picks: seq<nat>)
    requires Verifies(hmac, config, rows) && DistinctHashes(rows)
    requires forall k | 0 <= k < |picks| :: picks[k] < |rows|
    ensures Verifies(hmac, config, Picked(rows, picks)) <==> forall k | 0 <= k < |picks| :: picks[k] == k
  {
    hide ValidAt, DistinctHashes;
    if Verifies(hmac, config, Picked(rows, picks)) {
      PicksFollowOn(hmac, config, rows, picks, |picks|);
    }
    if forall k | 0 <= k < |picks| :: picks[k] == k {
      forall k | 0 <= k < |picks|
        ensures ValidAt(hmac, config, Picked(rows, picks), k)
      {
        PickValid(hmac, config, rows, picks, k);
      }
    }
  }

  /** Removing an event that is not the last one is noticed. */
  lemma RemovedEventBreaks(hmac: Hmac, config: HashConfig, rows: seq<Row>, i: nat)
    requires Verifies(hmac, config, rows) && DistinctHashes(rows) && i < |rows| - 1
    ensures !Verifies(hmac, config, rows[..i] + rows[i + 1..])
  {
    hide ValidAt, DistinctHashes;
    var picks := seq(|rows| - 1, k => if k < i then k else k + 1);
    assert Picked(rows, picks) == rows[..i] + rows[i + 1..];
    assert picks[i] == i + 1;
    OnlyPrefixesVerify(hmac, config, rows, picks);
  }

  /** Swapping two events is noticed. */
  lemma SwappedEventsBreak(hmac: Hmac, config: HashConfig, rows: seq<Row>, i: nat, j: nat)
    requires Verifies(hmac, config, rows) && DistinctHashes(rows) && i < j < |rows|
    ensures !Verifies(hmac, config, rows[i := rows[j]][j := rows[i]])
  {
    hide ValidAt, DistinctHashes;
    var picks := seq(|rows|, k => if k == i then j else if k == j then i else k);
    assert Picked(rows, picks) == rows[i := rows[j]][j := rows[i]];
    assert picks[i] == j;
    OnlyPrefixesVerify(hmac, config, rows, picks);
  }

  /** Each row of a tenant's listing is a stored row, at increasing ids. */
  lemma {:induction false} TenantRowsAreStored(rows: Table, tenantId: int, bound: nat) returns (ids: seq<nat>)
    ensures |ids| == |TenantRows(rows, tenantId, bound)|
    ensures forall k | 0 <= k < |ids| :: ids[k] < bound && ids[k] in rows && rows[ids[k]] == TenantRows(rows, tenantId, bound)[k]
    ensures forall k, l | 0 <= k < l < |ids| :: ids[k] < ids[l]
  {
    if bound == 0 {
      ids := [];
    } else {
      ids := TenantRowsAreStored(rows, tenantId, bound - 1);
      if bound - 1 in rows && rows[bound - 1].input.tenantId == tenantId {
        ids := ids + [bound - 1];
      }
    }
  }

  /** Every reachable stored chain is tamper evident: the rows have distinct hashes and verify. */
  lemma CommittedChainIsTamperEvident(hmac: Hmac, config: HashConfig, steps: seq<Step>, tenantId: int)
    requires CollisionFree(hmac)
    ensures var db := Run(hmac, config, steps);
            var rows := TenantRows(db.committed, tenantId, db.nextId);
            Verifies(hmac, db.config, rows) && DistinctHashes(rows)
  {
    CommittedChainVerifies(hmac, config, steps, tenantId);
    var db := Run(hmac, config, steps);
    var ids := TenantRowsAreStored(db.committed, tenantId, db.nextId);
    var rows := TenantRows(db.committed, tenantId, db.nextId);
    forall i, j | 0 <= i < j < |rows|
      ensures rows[i].eventHash != rows[j].eventHash
    {
      CommittedHashesUnique(hmac, config, steps, ids[i], ids[j]);
    }
  }

  /** The head hash fixes the whole signed history of chains whose links are the sealed ones. */
  lemma {:induction false} HeadFixesHistory(hmac: Hmac, config: HashConfig, a: seq<Row>, b: seq<Row>)
    requires CollisionFree(hmac) && Verifies(hmac, config, a) && Verifies(hmac, config, b)
    requires forall i | 0 <= i < |a| :: Genuine(hmac, config, a[i])
    requires forall i | 0 <= i < |b| :: Genuine(hmac, config, b[i])
    requires LinkBefore(a, |a|) == LinkBefore(b, |b|)
    ensures |a| == |b|
    ensures forall i | 0 <= i < |a| :: Material(a[i]) == Material(b[i])
    decreases |a|
  {
    hide Genuine, Verifies;
    if a != [] {
      var m, n := |a| - 1, |b| - 1;
      EqualHashesSealEqualLinks(hmac, config, a[m], b[n]);
      VerifiedPrefix(hmac, config, a);
      VerifiedPrefix(hmac, config, b);
      HeadFixesHistory(hmac, config, a[..m], b[..n]);
      assert a == a[..m] + [a[m]] && b == b[..n] + [b[n]];
    }
  }

  lemma VerifiedPrefix(hmac: Hmac, config: HashConfig, rows: seq<Row>)
    requires rows != [] && Verifies(hmac, config, rows)
    ensures var init := rows[..|rows| - 1];
            Verifies(hmac, config, init) && LinkBefore(init, |init|) == rows[|rows| - 1].previousHash
  {
    hide Resign;
    var init := rows[..|rows| - 1];
    assert ValidAt(hmac, config, rows, |rows| - 1);
    forall i | 0 <= i < |init|
      ensures ValidAt(hmac, config, init, i)
    {
      assert ValidAt(hmac, config, rows, i);
    }
  }
}
