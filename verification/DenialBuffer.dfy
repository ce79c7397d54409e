/**
 The retry buffer for access denials that could not be written. One event is one callback that runs to
 completion; a flush is suspended while its write is outstanding and anything may happen meanwhile. The
 ledger (what was enqueued, persisted and dropped) is kept beside the fields of the service.
 */
module DenialBuffer {
  /** A record and its identity: the number of records enqueued before it. */
  datatype Denial = Denial(id: nat, record: string)

  /** An awaited write, and whether the buffer overflowed since it began. */
  datatype Write = Write(denial: Denial, overtaken: bool)

  datatype Buffer = Buffer(
    maxQueue: nat, pending: seq<Denial>, timer: bool, flushing: bool, stopped: bool,
    outstanding: seq<Write>, enqueued: seq<Denial>, persisted: seq<Denial>, dropped: seq<Denial>, overflows: nat)

  datatype Event =
    | Enqueue(record: string)
    | TimerFires
    | WriteSucceeds(write: nat)
    | WriteFails(write: nat)
    | Destroy

  // ---------------------------------------------------------------------------
  // The callbacks
  // ---------------------------------------------------------------------------

  /** `Array.prototype.shift`, which leaves an empty array alone */
  function Shift<T>(s: seq<T>): seq<T> {
    if s == [] then [] else s[1..]
  }

  function Without<T>(s: seq<T>, i: nat): seq<T>
    requires i < |s|
  {
    s[..i] + s[i + 1..]
  }

  function Overtaken(writes: seq<Write>): seq<Write> {
    seq(|writes|, i requires 0 <= i < |writes| => writes[i].(overtaken := true))
  }

  /** `scheduleRetry` */
  function ScheduleRetry(b: Buffer): Buffer {
    if b.stopped || b.timer || b.pending == [] then b else b.(timer := true)
  }

  /** `flushQueued` up to its first await */
  function StartFlush(b: Buffer): Buffer {
    if b.flushing || b.pending == [] then b
    else b.(flushing := true, outstanding := b.outstanding + [Write(b.pending[0], false)])
  }

  function EndFlush(b: Buffer): Buffer {
    ScheduleRetry(b.(flushing := false))
  }

  /** The overflow branch of `enqueue` */
  function DropOldest(b: Buffer): Buffer {
    b.(pending := Shift(b.pending), overflows := b.overflows + 1, outstanding := Overtaken(b.outstanding),
       dropped := if b.pending == [] then b.dropped else b.dropped + [b.pending[0]])
  }

  function AfterEnqueue(b: Buffer, record: string): Buffer {
    var denial := Denial(|b.enqueued|, record);
    var room := if |b.pending| >= b.maxQueue then DropOldest(b) else b;
    ScheduleRetry(room.(pending := room.pending + [denial], enqueued := room.enqueued + [denial]))
  }

  /** The rest of one turn of the flush loop: whatever is first now leaves the buffer. */
  function AfterSuccess(b: Buffer, i: nat): Buffer
    requires i < |b.outstanding|
  {
    var next := b.(pending := Shift(b.pending), persisted := b.persisted + [b.outstanding[i].denial],
                   outstanding := Without(b.outstanding, i));
    if next.pending == [] then EndFlush(next)
    else next.(outstanding := next.outstanding + [Write(next.pending[0], false)])
  }

  predicate Enabled(b: Buffer, e: Event) {
    match e
    case TimerFires => b.timer
    case WriteSucceeds(i) => i < |b.outstanding|
    case WriteFails(i) => i < |b.outstanding|
    case _ => true
  }

  function Apply(b: Buffer, e: Event): Buffer
    requires Enabled(b, e)
  {
    match e
    case Enqueue(record) => AfterEnqueue(b, record)
    case TimerFires => StartFlush(b.(timer := false))
    case WriteSucceeds(i) => AfterSuccess(b, i)
    case WriteFails(i) => EndFlush(b.(outstanding := Without(b.outstanding, i)))
    case Destroy => StartFlush(b.(stopped := true, timer := false))
  }

  function Initial(maxQueue: nat): Buffer {
    Buffer(maxQueue, [], false, false, false, [], [], [], [], 0)
  }

  /** Events that cannot happen in a state change nothing. */
  function Step(b: Buffer, e: Event): Buffer {
    if Enabled(b, e) then Apply(b, e) else b
  }

  function Run(b: Buffer, events: seq<Event>): Buffer {
    if events == [] then b else Step(Run(b, events[..|events| - 1]), events[|events| - 1])
  }

  // ---------------------------------------------------------------------------
  // The buffer is a suffix of what was enqueued, and one flush at a time drains it
  // ---------------------------------------------------------------------------

  /** The identity of the first pending denial: how many left. */
  function Departed(b: Buffer): int {
    |b.enqueued| - |b.pending|
  }

  ghost predicate Numbered(enqueued: seq<Denial>) {
    forall k | 0 <= k < |enqueued| :: enqueued[k].id == k
  }

  ghost predicate Suffix(pending: seq<Denial>, enqueued: seq<Denial>) {
    |pending| <= |enqueued| && pending == enqueued[|enqueued| - |pending|..]
  }

  ghost predicate Bounded(b: Buffer) {
    |b.pending| <= if b.maxQueue >= 1 then b.maxQueue else 1
  }

  /** The outstanding write is that of the first pending denial, unless an overflow pushed it out. */
  ghost predicate OneFlush(b: Buffer) {
    && |b.outstanding| == (if b.flushing then 1 else 0)
    && (b.flushing ==> b.pending != [])
    && (b.flushing && !b.outstanding[0].overtaken ==> b.outstanding[0].denial == b.pending[0])
    && (b.flushing && b.outstanding[0].overtaken ==> b.outstanding[0].denial.id < Departed(b))
  }

  ghost predicate Armed(b: Buffer) {
    && (b.stopped ==> !b.timer)
    && (b.pending != [] && !b.stopped ==> b.timer || b.flushing)
  }

  ghost predicate Balanced(b: Buffer) {
    && |b.enqueued| == |b.persisted| + |b.dropped| + |b.pending|
    && (b.maxQueue >= 1 ==> b.overflows == |b.dropped|)
  }

  ghost predicate Inv(b: Buffer) {
    Numbered(b.enqueued) && Suffix(b.pending, b.enqueued) && Bounded(b) && OneFlush(b) && Armed(b) && Balanced(b)
  }

  lemma PendingIds(pending: seq<Denial>, enqueued: seq<Denial>)
    requires Numbered(enqueued) && Suffix(pending, enqueued)
    ensures forall k | 0 <= k < |pending| :: pending[k].id == |enqueued| - |pending| + k && pending[k] in enqueued
  {
  }

  lemma ShiftKeepsSuffix(pending: seq<Denial>, enqueued: seq<Denial>)
    requires Suffix(pending, enqueued)
    ensures Suffix(Shift(pending), enqueued)
  {
    if pending != [] {
      assert enqueued[|enqueued| - |pending|..][1..] == enqueued[|enqueued| - |pending| + 1..];
    }
  }

  lemma PushKeepsSuffix(pending: seq<Denial>, enqueued: seq<Denial>, d: Denial)
    requires Numbered(enqueued) && Suffix(pending, enqueued) && d.id == |enqueued|
    ensures Numbered(enqueued + [d]) && Suffix(pending + [d], enqueued + [d])
  {
    var n := |enqueued| - |pending|;
    assert (enqueued + [d])[n..] == enqueued[n..] + [d];
  }

  lemma EnqueueKeepsInv(b: Buffer, record: string)
    requires Inv(b)
    ensures Inv(AfterEnqueue(b, record))
  {
    hide Numbered, Suffix;
    PendingIds(b.pending, b.enqueued);
    ShiftKeepsSuffix(b.pending, b.enqueued);
    var room := if |b.pending| >= b.maxQueue then DropOldest(b) else b;
    PushKeepsSuffix(room.pending, b.enqueued, Denial(|b.enqueued|, record));
  }

  lemma SuccessKeepsInv(b: Buffer, i: nat)
    requires Inv(b) && i < |b.outstanding|
    ensures Inv(AfterSuccess(b, i))
  {
    hide Numbered, Suffix;
    PendingIds(b.pending, b.enqueued);
    ShiftKeepsSuffix(b.pending, b.enqueued);
    assert Without(b.outstanding, i) == [];
  }

  lemma StepKeepsInv(b: Buffer, e: Event)
    requires Inv(b)
    ensures Inv(Step(b, e))
  {
    if Enabled(b, e) {
      match e
      case Enqueue(record) => EnqueueKeepsInv(b, record);
      case WriteSucceeds(i) => SuccessKeepsInv(b, i);
      case WriteFails(i) => assert Without(b.outstanding, i) == [];
      case TimerFires =>
      case Destroy =>
    }
  }

  /**
   Over every interleaving: what is pending is a contiguous suffix of what was enqueued, at most one write
   is outstanding, counts are conserved, and a denial that waits has a timer or a flush to wait for.
   */
  lemma {:induction false} EveryRunKeepsInv(maxQueue: nat, events: seq<Event>)
    ensures Inv(Run(Initial(maxQueue), events))
  {
    if events != [] {
      EveryRunKeepsInv(maxQueue, events[..|events| - 1]);
      StepKeepsInv(Run(Initial(maxQueue), events[..|events| - 1]), events[|events| - 1]);
    }
  }

  // ---------------------------------------------------------------------------
  // Which denials vanish
  // ---------------------------------------------------------------------------

  /** Waiting, written, or counted as dropped. */
  predicate Accounted(b: Buffer, d: Denial) {
    d in b.pending || d in b.persisted || d in b.dropped
  }

  predicate Vanished(b: Buffer, d: Denial) {
    d in b.enqueued && !Accounted(b, d)
  }

  /** The write that succeeds began before an overflow. */
  predicate SucceedsOvertaken(b: Buffer, e: Event) {
    e.WriteSucceeds? && e.write < |b.outstanding| && b.outstanding[e.write].overtaken
  }

  ghost predicate OvertakenAt(b: Buffer, events: seq<Event>, k: int) {
    0 <= k < |events| && SucceedsOvertaken(Run(b, events[..k]), events[k])
  }

  /** Everything persisted or dropped has left; the outstanding denial is still accounted for. */
  ghost predicate LedgerInv(b: Buffer) {
    && (forall d | d in b.persisted :: d.id < Departed(b))
    && (forall d | d in b.dropped :: d.id < Departed(b))
    && (forall w | w in b.outstanding :: w.overtaken ==> w.denial in b.dropped)
  }

  lemma DropKeepsLedger(b: Buffer)
    requires Inv(b) && LedgerInv(b)
    ensures LedgerInv(DropOldest(b))
  {
    hide Balanced, Armed, Bounded, Suffix, Numbered;
    PendingIds(b.pending, b.enqueued);
  }

  lemma SuccessKeepsLedger(b: Buffer, i: nat)
    requires Inv(b) && LedgerInv(b) && i < |b.outstanding|
    ensures LedgerInv(AfterSuccess(b, i))
  {
    hide Balanced, Armed, Bounded, Suffix, Numbered;
    PendingIds(b.pending, b.enqueued);
    assert Without(b.outstanding, i) == [];
  }

  lemma StepKeepsLedger(b: Buffer, e: Event)
    requires Inv(b) && LedgerInv(b)
    ensures LedgerInv(Step(b, e))
  {
    hide Balanced, Armed, Bounded, Suffix, Numbered;
    if Enabled(b, e) {
      match e
      case Enqueue(record) => DropKeepsLedger(b);
      case WriteSucceeds(i) => SuccessKeepsLedger(b, i);
      case WriteFails(i) => assert Without(b.outstanding, i) == [];
      case _ =>
    }
  }

  lemma InShift(s: seq<Denial>, d: Denial)
    requires s != []
    ensures d in s <==> d == s[0] || d in s[1..]
  {
  }

  /** An enqueue accounts for everything: what it pushes waits, what it drops is counted. */
  lemma EnqueueVanishes(b: Buffer, record: string, d: Denial)
    requires Inv(b)
    ensures Vanished(AfterEnqueue(b, record), d) <==> Vanished(b, d)
  {
    hide Balanced, Armed, Bounded, Suffix, Numbered, OneFlush;
    if b.pending != [] {
      InShift(b.pending, d);
    }
    assert d == Denial(|b.enqueued|, record) ==> !Vanished(b, d) by {
      NewIsUnknown(b.enqueued, record);
    }
  }

  lemma NewIsUnknown(enqueued: seq<Denial>, record: string)
    requires Numbered(enqueued)
    ensures Denial(|enqueued|, record) !in enqueued
  {
  }

  /** A success removes the first pending denial, which is the one it wrote unless it was overtaken. */
  lemma SuccessVanishes(b: Buffer, i: nat, d: Denial)
    requires Inv(b) && LedgerInv(b) && i < |b.outstanding|
    ensures Vanished(AfterSuccess(b, i), d) <==> Vanished(b, d) || (b.outstanding[i].overtaken && d == b.pending[0])
  {
    hide Balanced, Armed, Bounded, Suffix, Numbered;
    PendingIds(b.pending, b.enqueued);
    InShift(b.pending, d);
    assert b.outstanding[i] in b.outstanding;
    assert b.pending[0] !in b.pending[1..];
  }

  lemma StepVanishes(b: Buffer, e: Event, d: Denial)
    requires Inv(b) && LedgerInv(b)
    ensures Vanished(Step(b, e), d) <==> Vanished(b, d) || (SucceedsOvertaken(b, e) && d == b.pending[0])
  {
    hide Inv, LedgerInv;
    if Enabled(b, e) {
      match e
      case Enqueue(record) => EnqueueVanishes(b, record, d);
      case WriteSucceeds(i) => SuccessVanishes(b, i, d);
      case _ =>
    }
  }

  lemma {:induction false} EveryRunKeepsLedger(maxQueue: nat, events: seq<Event>)
    ensures LedgerInv(Run(Initial(maxQueue), events))
  {
    if events != [] {
      EveryRunKeepsInv(maxQueue, events[..|events| - 1]);
      EveryRunKeepsLedger(maxQueue, events[..|events| - 1]);
      StepKeepsLedger(Run(Initial(maxQueue), events[..|events| - 1]), events[|events| - 1]);
    }
  }

  ghost predicate SomethingVanished(b: Buffer) {
    exists d :: Vanished(b, d)
  }

  ghost predicate SomeSuccessOvertaken(b: Buffer, events: seq<Event>) {
    exists k :: OvertakenAt(b, events, k)
  }

  /** A run loses a denial without a trace exactly when some write succeeded after the buffer had overflowed under it. */
  lemma {:induction false} VanishesExactly(maxQueue: nat, events: seq<Event>)
    ensures SomethingVanished(Run(Initial(maxQueue), events)) <==> SomeSuccessOvertaken(Initial(maxQueue), events)
  {
    var start := Initial(maxQueue);
    if events != [] {
      var n := |events| - 1;
      var b, e := Run(start, events[..n]), events[n];
      VanishesExactly(maxQueue, events[..n]);
      EveryRunKeepsInv(maxQueue, events[..n]);
      EveryRunKeepsLedger(maxQueue, events[..n]);
      forall d
        ensures Vanished(Run(start, events), d) <==> Vanished(b, d) || (SucceedsOvertaken(b, e) && d == b.pending[0])
      {
        StepVanishes(b, e, d);
      }
      OvertakenGrows(start, events);
      if SucceedsOvertaken(b, e) {
        assert Vanished(Run(start, events), b.pending[0]);
      }
    }
  }

  lemma OvertakenGrows(b: Buffer, events: seq<Event>)
    requires events != []
    ensures var n := |events| - 1;
            SomeSuccessOvertaken(b, events) <==>
              SomeSuccessOvertaken(b, events[..n]) || SucceedsOvertaken(Run(b, events[..n]), events[n])
  {
    var n := |events| - 1;
    forall k | 0 <= k < n
      ensures OvertakenAt(b, events, k) <==> OvertakenAt(b, events[..n], k)
    {
      assert events[..n][..k] == events[..k];
    }
    if SucceedsOvertaken(Run(b, events[..n]), events[n]) {
      assert OvertakenAt(b, events, n);
    }
    if SomeSuccessOvertaken(b, events[..n]) {
      var k :| OvertakenAt(b, events[..n], k);
      assert OvertakenAt(b, events, k);
    }
    if SomeSuccessOvertaken(b, events) && !SucceedsOvertaken(Run(b, events[..n]), events[n]) {
      var k :| OvertakenAt(b, events, k);
      assert k < n && OvertakenAt(b, events[..n], k);
    }
  }

  /** The shortest loss: a full buffer of one overflows under its write, and the success removes the newcomer. */
  lemma OverflowUnderWriteLosesTheNext(a: string, b: string)
    ensures var events := [Enqueue(a), TimerFires, Enqueue(b), WriteSucceeds(0)];
            var end := Run(Initial(1), events);
            && Vanished(end, Denial(1, b))
            && end.persisted == [Denial(0, a)] && end.dropped == [Denial(0, a)] && end.pending == []
  {
    var events := [Enqueue(a), TimerFires, Enqueue(b), WriteSucceeds(0)];
    assert events[..3] == [Enqueue(a), TimerFires, Enqueue(b)];
    assert events[..3][..2] == [Enqueue(a), TimerFires];
    assert events[..3][..2][..1] == [Enqueue(a)];
    var b1 := Step(Initial(1), Enqueue(a));
    assert Run(Initial(1), events[..3][..2][..1]) == b1;
    assert Run(Initial(1), events[..3][..2]) == Step(b1, TimerFires);
  }

  // ---------------------------------------------------------------------------
  // First in, first out
  // ---------------------------------------------------------------------------

  ghost predicate Increasing(ds: seq<Denial>) {
    forall i, k | 0 <= i < k < |ds| :: ds[i].id < ds[k].id
  }

  ghost predicate FifoInv(b: Buffer) {
    && Increasing(b.persisted)
    && forall w, d | w in b.outstanding && d in b.persisted :: d.id < w.denial.id
  }

  lemma StepKeepsFifo(b: Buffer, e: Event)
    requires Inv(b) && LedgerInv(b) && FifoInv(b)
    ensures FifoInv(Step(b, e))
  {
    hide Balanced, Armed, Bounded, Suffix, Numbered;
    PendingIds(b.pending, b.enqueued);
    if Enabled(b, e) {
      match e
      case WriteSucceeds(i) => SuccessKeepsFifo(b, i);
      case WriteFails(i) => assert Without(b.outstanding, i) == [];
      case _ =>
    }
  }

  lemma SuccessKeepsFifo(b: Buffer, i: nat)
    requires Inv(b) && LedgerInv(b) && FifoInv(b) && i < |b.outstanding|
    ensures FifoInv(AfterSuccess(b, i))
  {
    hide Balanced, Armed, Bounded, Suffix, Numbered;
    PendingIds(b.pending, b.enqueued);
    assert Without(b.outstanding, i) == [];
    assert b.outstanding[i] in b.outstanding;
    forall k | 0 <= k < |b.persisted|
      ensures b.persisted[k].id < b.outstanding[i].denial.id
    {
      assert b.persisted[k] in b.persisted;
    }
  }

  /** The retries reach the database in the order of the denials, each at most once. */
  lemma {:induction false} EveryRunIsFifo(maxQueue: nat, events: seq<Event>)
    ensures FifoInv(Run(Initial(maxQueue), events))
  {
    if events != [] {
      EveryRunKeepsInv(maxQueue, events[..|events| - 1]);
      EveryRunKeepsLedger(maxQueue, events[..|events| - 1]);
      EveryRunIsFifo(maxQueue, events[..|events| - 1]);
      StepKeepsFifo(Run(Initial(maxQueue), events[..|events| - 1]), events[|events| - 1]);
    }
  }
}
