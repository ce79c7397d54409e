/**
 The auditor service with its fields updated in place; each method is one callback, proved to be the
 corresponding step of the buffer.
 */
module DenialAuditor {
  import opened DenialBuffer

  class Auditor {
    const maxQueue: nat
    var pending: seq<Denial>
    var retryTimer: bool
    var flushing: bool
    var stopped: bool
    /** Suspended turns of the flush loop. */
    var outstanding: seq<Write>
    /** The `queue_overflow` counter. */
    var overflows: nat
    ghost var enqueued: seq<Denial>
    ghost var persisted: seq<Denial>
    ghost var dropped: seq<Denial>
    var serial: nat

    ghost predicate Valid()
      reads this
    {
      Inv(State()) && serial == |enqueued|
    }

    ghost function State(): Buffer
      reads this
    {
      Buffer(maxQueue, pending, retryTimer, flushing, stopped, outstanding, enqueued, persisted, dropped, overflows)
    }

    constructor (maxQueue: nat)
      ensures Valid() && State() == Initial(maxQueue)
    {
      this.maxQueue := maxQueue;
      pending, retryTimer, flushing, stopped, outstanding, overflows := [], false, false, false, [], 0;
      enqueued, persisted, dropped, serial := [], [], [], 0;
    }

    /** `scheduleRetry` */
    method ArmRetry()
      modifies this`retryTimer
      ensures State() == ScheduleRetry(old(State()))
    {
      if stopped || retryTimer || pending == [] {
        return;
      }
      retryTimer := true;
    }

    /** The overflow branch of `enqueue` */
    method Overflow()
      modifies this
      ensures State() == DropOldest(old(State())) && serial == old(serial)
    {
      if pending != [] {
        dropped := dropped + [pending[0]];
        pending := pending[1..];
      }
      overflows := overflows + 1;
      outstanding := Overtaken(outstanding);
    }

    /** `enqueue` */
    method EnqueueDenial(record: string)
      requires Valid()
      modifies this
      ensures Valid() && State() == Step(old(State()), Enqueue(record))
    {
      hide Inv, Overtaken, Without;
      EnqueueKeepsInv(State(), record);
      var denial := Denial(serial, record);
      if |pending| >= maxQueue {
        Overflow();
      }
      pending := pending + [denial];
      enqueued := enqueued + [denial];
      serial := serial + 1;
      ArmRetry();
    }

    /** `flushQueued` up to its first await */
    method Flush()
      modifies this
      ensures State() == StartFlush(old(State())) && serial == old(serial)
    {
      if flushing || pending == [] {
        return;
      }
      flushing := true;
      outstanding := outstanding + [Write(pending[0], false)];
    }

    /** The callback of the retry timer */
    method OnRetryTimer()
      requires Valid() && retryTimer
      modifies this
      ensures Valid() && State() == Step(old(State()), TimerFires)
    {
      hide Inv, Overtaken, Without;
      StepKeepsInv(State(), TimerFires);
      retryTimer := false;
      Flush();
    }

    /** The loop after an awaited write went through */
    method OnWriteSucceeded(i: nat)
      requires Valid() && i < |outstanding|
      modifies this
      ensures Valid() && State() == Step(old(State()), WriteSucceeds(i))
    {
      hide Inv, Overtaken, Without;
      StepKeepsInv(State(), WriteSucceeds(i));
      persisted := persisted + [outstanding[i].denial];
      outstanding := Without(outstanding, i);
      pending := Shift(pending);
      if pending != [] {
        outstanding := outstanding + [Write(pending[0], false)];
      } else {
        flushing := false;
        ArmRetry();
      }
    }

    /** The loop after an awaited write failed */
    method OnWriteFailed(i: nat)
      requires Valid() && i < |outstanding|
      modifies this
      ensures Valid() && State() == Step(old(State()), WriteFails(i))
    {
      hide Inv, Overtaken, Without;
      StepKeepsInv(State(), WriteFails(i));
      outstanding := Without(outstanding, i);
      flushing := false;
      ArmRetry();
    }

    /** `onModuleDestroy` */
    method OnModuleDestroy()
      requires Valid()
      modifies this
      ensures Valid() && State() == Step(old(State()), Destroy)
    {
      hide Inv, Overtaken, Without;
      StepKeepsInv(State(), Destroy);
      stopped := true;
      retryTimer := false;
      Flush();
    }
  }
}
