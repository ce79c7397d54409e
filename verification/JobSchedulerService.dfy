/**
 The scheduler service with its fields updated in place. Each method is one callback of the service
 and is proved to be the corresponding step of the state machine.
 */
module JobSchedulerService {
  import opened Wrappers
  import opened JobScheduling

  datatype RegisterError = AlreadyRegistered

  /** The registry lists every job once. */
  ghost predicate Registered(names: seq<string>, jobs: map<string, Job>) {
    && (forall n | n in jobs :: n in names)
    && (forall i | 0 <= i < |names| :: names[i] in jobs)
    && (forall i, k | 0 <= i < k < |names| :: names[i] != names[k])
  }

  /** The first i entries of the registry have been updated, the others not yet. */
  ghost predicate Advanced(names: seq<string>, before: map<string, Job>, after: map<string, Job>, i: nat, f: Job -> Job) {
    && after.Keys == before.Keys && Registered(names, before)
    && (forall k | 0 <= k < |names| ::
          after[names[k]] == if k < i then f(before[names[k]]) else before[names[k]])
  }

  lemma AdvanceOne(names: seq<string>, before: map<string, Job>, after: map<string, Job>, i: nat, f: Job -> Job)
    requires Advanced(names, before, after, i, f) && i < |names|
    ensures names[i] in after && names[i] in before && after[names[i]] == before[names[i]]
    ensures Advanced(names, before, after[names[i] := f(before[names[i]])], i + 1, f)
  {
  }

  lemma AdvancedAll(names: seq<string>, before: map<string, Job>, after: map<string, Job>, f: Job -> Job)
    requires Advanced(names, before, after, |names|, f)
    ensures Registered(names, after)
    ensures after == map n | n in before :: f(before[n])
  {
    forall n | n in before
      ensures after[n] == f(before[n])
    {
      var k :| 0 <= k < |names| && names[k] == n;
    }
  }

  lemma AdvancedNone(names: seq<string>, before: map<string, Job>, f: Job -> Job)
    requires Registered(names, before)
    ensures Advanced(names, before, before, 0, f)
  {
  }

  class Service {
    const settings: Settings
    const enabled: bool
    var started: bool
    var stopped: bool
    /** The insertion order of the registry. */
    var names: seq<string>
    var scheduled: map<string, Job>

    ghost predicate Valid()
      reads this
    {
      Registered(names, scheduled)
    }

    function State(): Scheduler
      reads this
    {
      Scheduler(settings, enabled, started, stopped, scheduled)
    }

    constructor (settings: Settings, enabled: bool)
      ensures Valid() && State() == Initial(settings, enabled)
    {
      this.settings, this.enabled := settings, enabled;
      started, stopped := false, false;
      names, scheduled := [], map[];
    }

    /** `register` */
    method RegisterJob(d: Declaration) returns (r: Result<(), RegisterError>)
      requires Valid()
      modifies this
      ensures Valid() && State() == Apply(old(State()), Register(d))
      ensures r.Failure? <==> d.name in old(scheduled)
    {
      if d.name in scheduled {
        return Failure(AlreadyRegistered);
      }
      var entry := NewJob(d, settings.defaults);
      if started && !stopped {
        entry := Schedule(entry, stopped, entry.cadence.initialDelay);
      }
      names := names + [d.name];
      scheduled := scheduled[d.name := entry];
      r := Success(());
    }

    /** `onApplicationBootstrap` */
    method OnApplicationBootstrap()
      requires Valid()
      modifies this
      ensures Valid() && State() == Apply(old(State()), Bootstrap)
    {
      if !enabled {
        return;
      }
      hide Advanced, Registered, Schedule;
      started := true;
      var isStopped := stopped;
      ghost var before := scheduled;
      ghost var f := (j: Job) => Schedule(j, isStopped, j.cadence.initialDelay);
      AdvancedNone(names, before, f);
      for i := 0 to |names|
        invariant names == old(names) && started && stopped == isStopped
        invariant Advanced(names, before, scheduled, i, f)
      {
        AdvanceOne(names, before, scheduled, i, f);
        var entry := scheduled[names[i]];
        scheduled := scheduled[names[i] := Schedule(entry, stopped, entry.cadence.initialDelay)];
      }
      AdvancedAll(names, before, scheduled, f);
    }

    /** What `wake` does to one job that listens */
    method WakeEntry(entry: Job) returns (woken: Job)
      ensures woken == WakeJob(entry, stopped)
    {
      woken := entry.(idleDelay := entry.cadence.minIdle);
      if woken.inFlight.Some? {
        woken := woken.(wakePending := true);
      } else {
        woken := Schedule(woken.(timer := None), stopped, 0.0);
      }
    }

    /** `wake` */
    method WakeChannel(channel: string)
      requires Valid()
      modifies this
      ensures Valid() && State() == Apply(old(State()), Wake(channel))
    {
      if !started || stopped {
        return;
      }
      hide Advanced, Registered, WakeJob, Hears;
      ghost var before := scheduled;
      ghost var f := (j: Job) => if Hears(j, channel) then WakeJob(j, false) else j;
      AdvancedNone(names, before, f);
      for i := 0 to |names|
        invariant names == old(names) && started == old(started) && !stopped
        invariant Advanced(names, before, scheduled, i, f)
      {
        AdvanceOne(names, before, scheduled, i, f);
        var entry := scheduled[names[i]];
        if Hears(entry, channel) {
          entry := WakeEntry(entry);
        }
        scheduled := scheduled[names[i] := entry];
      }
      AdvancedAll(names, before, scheduled, f);
    }

    /** The callback of an armed timer. */
    method OnTimer(name: string)
      requires Valid() && Enabled(State(), TimerFires(name))
      modifies this
      ensures Valid() && State() == Apply(old(State()), TimerFires(name))
    {
      var entry := scheduled[name].(timer := None);
      entry := entry.(inFlight := Some(entry.started),
                      live := entry.live[entry.started := Batch(ByTimer, if stopped then Settled else Running)],
                      started := entry.started + 1);
      scheduled := scheduled[name := entry];
    }

    /** The tail of `run` once the batch has settled. */
    method OnBatchSettled(name: string, batch: nat, outcome: Outcome)
      requires Valid() && Enabled(State(), BatchSettles(name, batch, outcome))
      modifies this
      ensures Valid() && State() == Apply(old(State()), BatchSettles(name, batch, outcome))
    {
      var entry := scheduled[name];
      var running := entry.live[batch];
      entry := entry.(live := entry.live[batch := running.(phase := Settled)]);
      if running.driver.ByTimer? {
        match outcome {
          case Work => entry := entry.(failures := 0, idleDelay := 0.0);
          case Idle =>
            entry := entry.(failures := 0);
            entry := entry.(idleDelay := NextIdleDelay(entry.idleDelay, entry.cadence, settings.factor));
          case Error =>
            entry := entry.(failures := entry.failures + 1);
            entry := entry.(idleDelay := ErrorDelay(entry.failures, settings));
        }
      }
      scheduled := scheduled[name := entry];
    }

    /** The `finally` of a batch: of the timer callback, or of `runNow`. */
    method OnSlotFreed(name: string, batch: nat)
      requires Valid() && Enabled(State(), SlotFreed(name, batch))
      modifies this
      ensures Valid() && State() == Apply(old(State()), SlotFreed(name, batch))
    {
      var entry := scheduled[name];
      var driver := entry.live[batch].driver;
      entry := entry.(inFlight := None, live := entry.live - {batch});
      if driver.ByTimer? {
        if !stopped {
          var next: Delay := if entry.wakePending then 0.0 else entry.idleDelay;
          entry := entry.(wakePending := false);
          entry := Schedule(entry, stopped, next);
        }
      } else if started && !stopped {
        entry := Schedule(entry, stopped, entry.idleDelay);
      }
      scheduled := scheduled[name := entry];
    }

    /** `runNow` up to its first await; an unknown name is an error. */
    method CallRunNowOf(name: string) returns (known: bool)
      requires Valid()
      modifies this
      ensures Valid() && State() == Apply(old(State()), RunNow(name))
      ensures known <==> name in old(scheduled)
    {
      known := name in scheduled;
      if known {
        var entry := scheduled[name];
        if entry.inFlight.Some? {
          entry := entry.(waiting := entry.waiting + 1);
        } else {
          entry := StartBatch(entry, ByHand, Running);
        }
        scheduled := scheduled[name := entry];
      }
    }

    /** A waiting `runNow` caller resumes: it looks at the slot again before taking it. */
    method ResumeRunNow(name: string)
      requires Valid() && Enabled(State(), RunNowResumes(name))
      modifies this
      ensures Valid() && State() == Apply(old(State()), RunNowResumes(name))
    {
      var entry := scheduled[name];
      if entry.inFlight.None? {
        entry := StartBatch(entry.(waiting := entry.waiting - 1), ByHand, Running);
      }
      scheduled := scheduled[name := entry];
    }

    /** The first half of `onModuleDestroy`: no timer survives it. */
    method StopTimers()
      requires Valid()
      modifies this
      ensures Valid() && names == old(names) && State() == Apply(old(State()), Destroy)
    {
      hide Advanced, Registered;
      stopped := true;
      ghost var before := scheduled;
      ghost var f := (j: Job) => j.(timer := None);
      AdvancedNone(names, before, f);
      for i := 0 to |names|
        invariant names == old(names) && started == old(started) && stopped
        invariant Advanced(names, before, scheduled, i, f)
      {
        AdvanceOne(names, before, scheduled, i, f);
        var entry := scheduled[names[i]];
        scheduled := scheduled[names[i] := entry.(timer := None)];
      }
      AdvancedAll(names, before, scheduled, f);
    }

    /** The jobs whose batch is in flight, in registration order. */
    method InFlightJobs() returns (pending: seq<string>)
      requires Valid()
      ensures forall n :: n in pending <==> n in scheduled && scheduled[n].inFlight.Some?
    {
      pending := [];
      for i := 0 to |names|
        invariant forall n :: n in pending <==> n in names[..i] && scheduled[n].inFlight.Some?
      {
        if scheduled[names[i]].inFlight.Some? {
          pending := pending + [names[i]];
        }
        assert names[..i + 1] == names[..i] + [names[i]];
      }
      assert names[..|names|] == names;
    }

    /** `onModuleDestroy` up to the drain; returns the jobs whose batch must be awaited. */
    method OnModuleDestroy() returns (pending: seq<string>)
      requires Valid()
      modifies this
      ensures Valid() && State() == Apply(old(State()), Destroy)
      ensures forall n :: n in pending <==> n in scheduled && scheduled[n].inFlight.Some?
    {
      StopTimers();
      pending := InFlightJobs();
    }
  }
}
