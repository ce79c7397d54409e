/**
 What the retry buffer does with what it holds: when it makes room, when it flushes and arms its timer, and that
 a flush whose writes succeed, the last one of a shutdown included, brings everything to the database.
 */
module DenialDrain {
  import opened DenialBuffer

  /** The denials that the events of a run hand over, numbered */
  function Denials(events: seq<Event>): (ds: seq<Denial>)
    ensures |ds| <= |events|
  {
    if events == [] then []
    else
      var n := |events| - 1;
      var before := Denials(events[..n]);
      if events[n].Enqueue? then before + [Denial(|before|, events[n].record)] else before
  }

  lemma EnqueuedStep(b: Buffer, e: Event)
    ensures Step(b, e).maxQueue == b.maxQueue
    ensures Step(b, e).enqueued
         == b.enqueued + if e.Enqueue? then [Denial(|b.enqueued|, e.record)] else []
  {
  }

  /** Over every run nothing that is handed over is ignored, and nothing else gets in. */
  lemma {:induction false} EverythingIsEnqueued(maxQueue: nat, events: seq<Event>)
    ensures Run(Initial(maxQueue), events).enqueued == Denials(events)
    ensures Run(Initial(maxQueue), events).maxQueue == maxQueue
  {
    hide Step;
    if events != [] {
      EverythingIsEnqueued(maxQueue, events[..|events| - 1]);
      EnqueuedStep(Run(Initial(maxQueue), events[..|events| - 1]), events[|events| - 1]);
    }
  }

  /** The service runs from the start until its shutdown. */
  lemma {:induction false} StoppedExactly(maxQueue: nat, events: seq<Event>)
    ensures Run(Initial(maxQueue), events).stopped <==> Destroy in events
  {
    hide Step;
    if events != [] {
      var n := |events| - 1;
      StoppedExactly(maxQueue, events[..n]);
      StopStep(Run(Initial(maxQueue), events[..n]), events[n]);
      assert events == events[..n] + [events[n]];
    }
  }

  lemma StopStep(b: Buffer, e: Event)
    ensures Step(b, e).stopped == (b.stopped || e == Destroy)
  {
  }

  /** A denial is dropped only when the buffer has no room left, which always fits one. */
  lemma RoomIsUsed(maxQueue: nat, events: seq<Event>, record: string)
    ensures var b := Run(Initial(maxQueue), events);
            var after := Run(Initial(maxQueue), events + [Enqueue(record)]);
            var room := if maxQueue == 0 then 1 else maxQueue;
            && (|b.pending| < room ==> |after.pending| == |b.pending| + 1)
            && (|b.pending| >= room ==> |after.pending| == room)
            && (|b.pending| < maxQueue ==> after.dropped == b.dropped && after.overflows == b.overflows)
  {
    EverythingIsEnqueued(maxQueue, events);
    EveryRunKeepsInv(maxQueue, events);
    assert (events + [Enqueue(record)])[..|events|] == events;
  }

  /** After a timer or a shutdown nothing waits without a write on its way. */
  lemma FlushStarts(maxQueue: nat, events: seq<Event>, e: Event)
    requires e == Destroy || (e == TimerFires && Run(Initial(maxQueue), events).timer)
    ensures var b, after := Run(Initial(maxQueue), events), Step(Run(Initial(maxQueue), events), e);
            && after.pending == b.pending && !after.timer
            && (after.flushing <==> b.pending != [])
            && (e == Destroy ==> after.stopped)
  {
    EveryRunKeepsInv(maxQueue, events);
  }

  /** A write that fails ends its flush: nothing is written again before the timer, which is armed unless the service stops. */
  lemma FailureStops(maxQueue: nat, events: seq<Event>, write: nat)
    requires write < |Run(Initial(maxQueue), events).outstanding|
    ensures var b, after := Run(Initial(maxQueue), events), Step(Run(Initial(maxQueue), events), WriteFails(write));
            && after.pending == b.pending != [] && after.persisted == b.persisted && after.dropped == b.dropped
            && !after.flushing && after.outstanding == []
            && (after.timer <==> !b.stopped)
  {
    EveryRunKeepsInv(maxQueue, events);
    assert Without(Run(Initial(maxQueue), events).outstanding, write) == [];
  }

  /**
   Over every run: a denial handed over and a failed write arm the timer unless the service stops, the timer's own
   callback and the shutdown clear it, and a flush begins only there and goes on as long as something waits.
   */
  lemma TimerAndFlushExactly(maxQueue: nat, events: seq<Event>, e: Event)
    requires Enabled(Run(Initial(maxQueue), events), e)
    ensures var b, after := Run(Initial(maxQueue), events), Step(Run(Initial(maxQueue), events), e);
            match e
            case Enqueue(_) =>
              (after.timer <==> b.timer || !b.stopped) && after.flushing == b.flushing && |after.outstanding| == |b.outstanding|
            case TimerFires => !after.timer && (after.flushing <==> b.pending != [])
            case Destroy => !after.timer && (after.flushing <==> b.pending != [])
            case WriteFails(_) => (after.timer <==> !b.stopped) && !after.flushing
            case WriteSucceeds(_) => after.timer == b.timer && (after.flushing <==> |b.pending| > 1)
  {
    EveryRunKeepsInv(maxQueue, events);
  }

  /** n writes that succeed, one after the other */
  function Successes(n: nat): seq<Event> {
    seq(n, i => WriteSucceeds(0))
  }

  lemma RunOne(b: Buffer, e: Event, events: seq<Event>)
    ensures Run(b, [e] + events) == Run(Step(b, e), events)
    decreases |events|
  {
    if events == [] {
      assert ([e] + events)[..0] == [] && ([e] + events)[0] == e;
    } else {
      var n := |events| - 1;
      RunOne(b, e, events[..n]);
      assert ([e] + events)[..|events|] == [e] + events[..n];
    }
  }

  /** What a flush will have written: the denial whose write is outstanding, and what waits behind the first */
  function Written(b: Buffer): seq<Denial>
    requires b.pending != [] && b.outstanding != []
  {
    [b.outstanding[0].denial] + b.pending[1..]
  }

  lemma SuccessStep(b: Buffer)
    requires Inv(b) && b.flushing
    ensures b.pending != [] && |b.outstanding| == 1
    ensures var after := Step(b, WriteSucceeds(0));
            && after.pending == b.pending[1..]
            && after.persisted == b.persisted + [b.outstanding[0].denial]
            && (after.flushing <==> after.pending != [])
            && (after.flushing ==> after.outstanding == [Write(after.pending[0], false)])
  {
    hide Balanced, Armed, Bounded, Suffix, Numbered;
    assert Without(b.outstanding, 0) == [];
  }

  lemma FirstAndRest(before: seq<Denial>, d: Denial, rest: seq<Denial>)
    ensures before + ([d] + rest) == before + [d] + rest
    ensures rest != [] ==> [rest[0]] + rest[1..] == rest
  {
  }

  lemma SuccessGoesOn(b: Buffer)
    requires Inv(b) && b.flushing
    ensures b.pending != [] && |b.outstanding| == 1
    ensures var after := Step(b, WriteSucceeds(0));
            && Inv(after) && after.pending == b.pending[1..]
            && (after.flushing <==> after.pending != [])
            && (after.flushing ==> after.outstanding != [])
            && (after.flushing ==> b.persisted + Written(b) == after.persisted + Written(after))
            && (!after.flushing ==> b.persisted + Written(b) == after.persisted)
  {
    StepKeepsInv(b, WriteSucceeds(0));
    SuccessStep(b);
    FirstAndRest(b.persisted, b.outstanding[0].denial, b.pending[1..]);
    hide Inv, Step;
    assert b.pending[1..] == [] ==> b.persisted + Written(b) == b.persisted + [b.outstanding[0].denial];
  }

  /** A flush whose writes succeed ends with an empty buffer, everything written in order. */
  lemma {:induction false} FlushDrains(b: Buffer)
    requires Inv(b) && b.flushing
    ensures b.pending != [] && b.outstanding != []
    ensures var after := Run(b, Successes(|b.pending|));
            after.pending == [] && !after.flushing && after.persisted == b.persisted + Written(b)
    decreases |b.pending|
  {
    SuccessGoesOn(b);
    hide Inv, Step, Written;
    var next, m := Step(b, WriteSucceeds(0)), |b.pending|;
    assert Successes(m) == [WriteSucceeds(0)] + Successes(m - 1);
    RunOne(b, WriteSucceeds(0), Successes(m - 1));
    if next.flushing {
      FlushDrains(next);
    } else {
      assert Successes(m - 1) == [];
      assert Run(next, []) == next;
    }
  }

  /** The last flush of a shutdown leaves nothing behind when its writes succeed. */
  lemma LastFlushDrains(maxQueue: nat, events: seq<Event>)
    ensures var b := Run(Initial(maxQueue), events);
            var after := Run(Step(b, Destroy), Successes(|b.pending|));
            && after.pending == []
            && (!b.flushing ==> after.persisted == b.persisted + b.pending)
            && (b.flushing ==> b.pending != [] && b.outstanding != [] && after.persisted == b.persisted + Written(b))
  {
    EveryRunKeepsInv(maxQueue, events);
    FlushStarts(maxQueue, events, Destroy);
    var b := Run(Initial(maxQueue), events);
    var stopped := Step(b, Destroy);
    StepKeepsInv(b, Destroy);
    LastFlushWrites(b);
    hide Inv, Step, Written, Initial;
    if b.pending == [] {
      assert Successes(0) == [];
      assert Run(stopped, []) == stopped;
    } else {
      FlushDrains(stopped);
    }
  }

  lemma LastFlushWrites(b: Buffer)
    requires Inv(b)
    ensures b.flushing ==> b.pending != [] && b.outstanding != []
    ensures var stopped := Step(b, Destroy);
            && stopped.persisted == b.persisted
            && (b.flushing ==> stopped.flushing && stopped.outstanding == b.outstanding && stopped.pending == b.pending)
            && (!b.flushing && b.pending != [] ==> stopped.flushing && stopped.outstanding != [] && stopped.pending == b.pending
                                                   && Written(stopped) == b.pending)
  {
    hide Balanced, Armed, Bounded, Suffix, Numbered;
  }
}
