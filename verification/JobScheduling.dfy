/**
 The background job scheduler as a state machine. One step is one JavaScript callback that runs to
 completion. Batches that are really running are tracked apart (`live`) from the slot the scheduler
 believes in (`inFlight`), so that exclusion is a theorem and not a definition.
 */
module JobScheduling {
  import opened Wrappers

  /** Milliseconds */
  type Delay = d: real | d >= 0.0

  type Factor = f: real | f >= 1.0 witness 1.0

  datatype Cadence = Cadence(initialDelay: Delay, minIdle: Delay, maxIdle: Delay)

  datatype Settings = Settings(defaults: Cadence, factor: Factor, errorDelay: Delay, maxErrorDelay: Delay)

  /** Who awaits a batch: the timer callback or a `runNow` caller. */
  datatype Driver = ByTimer | ByHand

  /** A batch settles before the continuation that frees the slot runs. */
  datatype Phase = Running | Settled

  datatype Batch = Batch(driver: Driver, phase: Phase)

  datatype Outcome = Work | Idle | Error

  datatype Job = Job(
    cadence: Cadence,
    wakeChannel: Option<string>,
    timer: Option<Delay>,
    inFlight: Option<nat>,
    idleDelay: Delay,
    failures: nat,
    wakePending: bool,
    live: map<nat, Batch>,
    started: nat,
    waiting: nat)

  /** What a job declares; `channel` distinguishes "not declared" from "declared null". */
  datatype Declaration = Declaration(
    name: string,
    channel: Option<Option<string>>,
    initialDelay: Option<Delay>,
    minIdle: Option<Delay>,
    maxIdle: Option<Delay>)

  datatype Scheduler = Scheduler(
    settings: Settings,
    enabled: bool,
    started: bool,
    stopped: bool,
    jobs: map<string, Job>)

  datatype Event =
    | Register(declaration: Declaration)
    | Bootstrap
    | Wake(channel: string)
    | TimerFires(name: string)
    | BatchSettles(name: string, batch: nat, outcome: Outcome)
    | SlotFreed(name: string, batch: nat)
    | RunNow(name: string)
    | RunNowResumes(name: string)
    | Destroy

  function Min(a: real, b: real): real {
    if a <= b then a else b
  }

  function Max(a: real, b: real): real {
    if a >= b then a else b
  }

  function GetOr<T>(o: Option<T>, default: T): T {
    if o.Some? then o.value else default
  }

  // ---------------------------------------------------------------------------
  // Cadence
  // ---------------------------------------------------------------------------

  function EffectiveCadence(d: Declaration, defaults: Cadence): Cadence {
    var minIdle := GetOr(d.minIdle, defaults.minIdle);
    Cadence(GetOr(d.initialDelay, defaults.initialDelay), minIdle, Max(GetOr(d.maxIdle, defaults.maxIdle), minIdle))
  }

  function NewJob(d: Declaration, defaults: Cadence): Job {
    var cadence := EffectiveCadence(d, defaults);
    Job(cadence, GetOr(d.channel, Some(d.name)), None, None, cadence.minIdle, 0, false, map[], 0, 0)
  }

  function Scaled(d: Delay, factor: Factor): Delay {
    d * factor
  }

  /** `nextIdleDelay` */
  function NextIdleDelay(idleDelay: Delay, cadence: Cadence, factor: Factor): Delay {
    if idleDelay < cadence.minIdle then cadence.minIdle else Min(Scaled(idleDelay, factor), cadence.maxIdle)
  }

  function Doubled(d: Delay, times: nat): Delay {
    if times == 0 then d else 2.0 * Doubled(d, times - 1)
  }

  /** `errorDelay`, for a positive count of consecutive failures */
  function ErrorDelay(failures: nat, settings: Settings): Delay
    requires failures >= 1
  {
    Min(Doubled(settings.errorDelay, if failures - 1 <= 10 then failures - 1 else 10), settings.maxErrorDelay)
  }

  // ---------------------------------------------------------------------------
  // One job
  // ---------------------------------------------------------------------------

  /** `schedule` */
  function Schedule(j: Job, stopped: bool, delay: Delay): Job {
    if stopped || j.timer.Some? || j.inFlight.Some? then j else j.(timer := Some(delay))
  }

  function WakeJob(j: Job, stopped: bool): Job {
    var reset := j.(idleDelay := j.cadence.minIdle);
    if j.inFlight.Some? then reset.(wakePending := true)
    else Schedule(reset.(timer := None), stopped, 0.0)
  }

  /** A batch starts and takes the slot. Once stopped, `run` returns before doing anything. */
  function StartBatch(j: Job, driver: Driver, phase: Phase): Job {
    j.(timer := None, inFlight := Some(j.started), live := j.live[j.started := Batch(driver, phase)], started := j.started + 1)
  }

  function FireTimer(j: Job, stopped: bool): Job {
    StartBatch(j, ByTimer, if stopped then Settled else Running)
  }

  /** The tail of `run`: only timer-driven batches move the cadence. */
  function Settle(j: Job, settings: Settings, batch: nat, outcome: Outcome): Job
    requires batch in j.live
  {
    var settled := j.(live := j.live[batch := j.live[batch].(phase := Settled)]);
    if j.live[batch].driver.ByHand? then settled
    else
      match outcome
      case Work => settled.(failures := 0, idleDelay := 0.0)
      case Idle => settled.(failures := 0, idleDelay := NextIdleDelay(j.idleDelay, j.cadence, settings.factor))
      case Error => settled.(failures := j.failures + 1, idleDelay := ErrorDelay(j.failures + 1, settings))
  }

  /** The continuation after a batch: frees the slot, whoever holds it, and returns to the cadence. */
  function FreeSlot(j: Job, started: bool, stopped: bool, batch: nat): Job
    requires batch in j.live
  {
    var free := j.(inFlight := None, live := j.live - {batch});
    if j.live[batch].driver.ByHand? then
      if started && !stopped then Schedule(free, stopped, j.idleDelay) else free
    else if stopped then free
    else Schedule(free.(wakePending := false), stopped, if j.wakePending then 0.0 else j.idleDelay)
  }

  function Resume(j: Job): Job
    requires j.waiting > 0
  {
    if j.inFlight.Some? then j else StartBatch(j.(waiting := j.waiting - 1), ByHand, Running)
  }

  function CallRunNow(j: Job): Job {
    if j.inFlight.Some? then j.(waiting := j.waiting + 1) else StartBatch(j, ByHand, Running)
  }

  // ---------------------------------------------------------------------------
  // The scheduler
  // ---------------------------------------------------------------------------

  predicate Hears(j: Job, channel: string) {
    j.wakeChannel == Some(channel)
  }

  function AfterBootstrap(s: Scheduler): Scheduler {
    if !s.enabled then s
    else s.(started := true,
            jobs := map n | n in s.jobs :: Schedule(s.jobs[n], s.stopped, s.jobs[n].cadence.initialDelay))
  }

  function AfterWake(s: Scheduler, channel: string): Scheduler {
    if !s.started || s.stopped then s
    else s.(jobs := map n | n in s.jobs :: if Hears(s.jobs[n], channel) then WakeJob(s.jobs[n], s.stopped) else s.jobs[n])
  }

  function AfterDestroy(s: Scheduler): Scheduler {
    s.(stopped := true, jobs := map n | n in s.jobs :: s.jobs[n].(timer := None))
  }

  function AfterRegister(s: Scheduler, d: Declaration): Scheduler {
    if d.name in s.jobs then s
    else
      var j := NewJob(d, s.settings.defaults);
      s.(jobs := s.jobs[d.name :=
           if s.started && !s.stopped then Schedule(j, s.stopped, j.cadence.initialDelay) else j])
  }

  predicate Enabled(s: Scheduler, e: Event) {
    match e
    case TimerFires(name) => name in s.jobs && s.jobs[name].timer.Some?
    case BatchSettles(name, batch, _) =>
      name in s.jobs && batch in s.jobs[name].live && s.jobs[name].live[batch].phase.Running?
    case SlotFreed(name, batch) =>
      name in s.jobs && batch in s.jobs[name].live && s.jobs[name].live[batch].phase.Settled?
    case RunNow(name) => name in s.jobs
    case RunNowResumes(name) => name in s.jobs && s.jobs[name].waiting > 0
    case _ => true
  }

  /** One callback; an event that cannot happen in the state changes nothing. */
  function Apply(s: Scheduler, e: Event): Scheduler {
    if !Enabled(s, e) then s
    else
      match e
      case Register(d) => AfterRegister(s, d)
      case Bootstrap => AfterBootstrap(s)
      case Wake(channel) => AfterWake(s, channel)
      case TimerFires(n) => s.(jobs := s.jobs[n := FireTimer(s.jobs[n], s.stopped)])
      case BatchSettles(n, batch, outcome) => s.(jobs := s.jobs[n := Settle(s.jobs[n], s.settings, batch, outcome)])
      case SlotFreed(n, batch) => s.(jobs := s.jobs[n := FreeSlot(s.jobs[n], s.started, s.stopped, batch)])
      case RunNow(n) => s.(jobs := s.jobs[n := CallRunNow(s.jobs[n])])
      case RunNowResumes(n) => s.(jobs := s.jobs[n := Resume(s.jobs[n])])
      case Destroy => AfterDestroy(s)
  }

  function Run(s: Scheduler, events: seq<Event>): Scheduler {
    if events == [] then s else Apply(Run(s, events[..|events| - 1]), events[|events| - 1])
  }

  function Initial(settings: Settings, enabled: bool): Scheduler {
    Scheduler(settings, enabled, false, false, map[])
  }

  // ---------------------------------------------------------------------------
  // What every step keeps
  // ---------------------------------------------------------------------------

  /** The longest a job can ever be left waiting. */
  function Ceiling(j: Job, settings: Settings): real {
    Max(j.cadence.initialDelay, Max(j.cadence.maxIdle, settings.maxErrorDelay))
  }

  ghost predicate JobOk(j: Job, settings: Settings, started: bool, stopped: bool) {
    // the slot and the running batches agree, so there is at most one
    && j.live.Keys == (if j.inFlight.Some? then {j.inFlight.value} else {})
    && (j.inFlight.Some? ==> j.inFlight.value < j.started)
    && !(j.timer.Some? && j.inFlight.Some?)
    && (!started ==> forall b | b in j.live :: j.live[b].driver.ByHand?)
    && (stopped || !started ==> j.timer.None?)
    && (started && !stopped ==> j.timer.Some? || j.inFlight.Some?)
    // delays
    && j.cadence.minIdle <= j.cadence.maxIdle
    && j.idleDelay <= Max(j.cadence.maxIdle, settings.maxErrorDelay)
    && (j.timer.Some? ==> j.timer.value <= Ceiling(j, settings))
  }

  ghost predicate Inv(s: Scheduler) {
    forall n | n in s.jobs :: JobOk(s.jobs[n], s.settings, s.started, s.stopped)
  }

  lemma SettleKeepsJob(j: Job, settings: Settings, started: bool, stopped: bool, batch: nat, outcome: Outcome)
    requires JobOk(j, settings, started, stopped) && batch in j.live
    ensures JobOk(Settle(j, settings, batch, outcome), settings, started, stopped)
  {
  }

  lemma FreeSlotKeepsJob(j: Job, settings: Settings, started: bool, stopped: bool, batch: nat)
    requires JobOk(j, settings, started, stopped) && batch in j.live
    ensures JobOk(FreeSlot(j, started, stopped, batch), settings, started, stopped)
  {
  }

  lemma StartKeepsJob(j: Job, settings: Settings, started: bool, stopped: bool, driver: Driver, phase: Phase)
    requires JobOk(j, settings, started, stopped) && j.inFlight.None? && (driver.ByTimer? ==> started)
    ensures JobOk(StartBatch(j, driver, phase), settings, started, stopped)
  {
  }

  lemma UpdateKeepsInv(s: Scheduler, name: string, j: Job)
    requires Inv(s) && JobOk(j, s.settings, s.started, s.stopped)
    ensures Inv(s.(jobs := s.jobs[name := j]))
  {
    hide JobOk;
  }

  /** The steps that touch one job. */
  lemma JobStepKeepsInv(s: Scheduler, e: Event)
    requires Inv(s) && Enabled(s, e) && !e.Bootstrap? && !e.Wake? && !e.Destroy? && !e.Register?
    ensures Inv(Apply(s, e))
  {
    hide Settle, FreeSlot, StartBatch, JobOk;
    var n := e.name;
    var j := s.jobs[n];
    match e
    case BatchSettles(_, batch, outcome) =>
      SettleKeepsJob(j, s.settings, s.started, s.stopped, batch, outcome);
      UpdateKeepsInv(s, n, Settle(j, s.settings, batch, outcome));
    case SlotFreed(_, batch) =>
      FreeSlotKeepsJob(j, s.settings, s.started, s.stopped, batch);
      UpdateKeepsInv(s, n, FreeSlot(j, s.started, s.stopped, batch));
    case TimerFires(_) =>
      ArmedMeansFree(j, s.settings, s.started, s.stopped);
      StartKeepsJob(j, s.settings, s.started, s.stopped, ByTimer, if s.stopped then Settled else Running);
      UpdateKeepsInv(s, n, FireTimer(j, s.stopped));
    case RunNow(_) =>
      CallersKeepJob(j, s.settings, s.started, s.stopped, j.waiting + 1);
      if j.inFlight.None? {
        StartKeepsJob(j, s.settings, s.started, s.stopped, ByHand, Running);
      }
      UpdateKeepsInv(s, n, CallRunNow(j));
    case RunNowResumes(_) =>
      CallersKeepJob(j, s.settings, s.started, s.stopped, j.waiting - 1);
      if j.inFlight.None? {
        StartKeepsJob(j.(waiting := j.waiting - 1), s.settings, s.started, s.stopped, ByHand, Running);
      }
      UpdateKeepsInv(s, n, Resume(j));
  }

  lemma ArmedMeansFree(j: Job, settings: Settings, started: bool, stopped: bool)
    requires JobOk(j, settings, started, stopped) && j.timer.Some?
    ensures j.inFlight.None? && started
  {
  }

  lemma CallersKeepJob(j: Job, settings: Settings, started: bool, stopped: bool, waiting: nat)
    requires JobOk(j, settings, started, stopped)
    ensures JobOk(j.(waiting := waiting), settings, started, stopped)
  {
  }

  lemma StepKeepsInv(s: Scheduler, e: Event)
    requires Inv(s)
    ensures Inv(Apply(s, e))
  {
    hide NextIdleDelay, ErrorDelay, Settle, FreeSlot, StartBatch;
    if Enabled(s, e) && !e.Bootstrap? && !e.Wake? && !e.Destroy? && !e.Register? {
      JobStepKeepsInv(s, e);
    }
  }

  lemma {:induction false} RunKeepsInv(settings: Settings, enabled: bool, events: seq<Event>)
    ensures Inv(Run(Initial(settings, enabled), events))
  {
    if events != [] {
      RunKeepsInv(settings, enabled, events[..|events| - 1]);
      StepKeepsInv(Run(Initial(settings, enabled), events[..|events| - 1]), events[|events| - 1]);
    }
  }

  /** After the stop a batch of a job starts exactly by a manual run that finds the slot free, new or waiting: no timer is left. */
  lemma StartsAfterStopExactly(settings: Settings, enabled: bool, events: seq<Event>, e: Event, name: string)
    requires var s := Run(Initial(settings, enabled), events); s.stopped && name in s.jobs
    ensures var s := Run(Initial(settings, enabled), events);
            name in Apply(s, e).jobs
            && (Apply(s, e).jobs[name].started > s.jobs[name].started <==>
                  && s.jobs[name].inFlight.None?
                  && (e == RunNow(name) || (e == RunNowResumes(name) && s.jobs[name].waiting > 0)))
  {
    RunKeepsInv(settings, enabled, events);
    var s := Run(Initial(settings, enabled), events);
    assert JobOk(s.jobs[name], s.settings, s.started, s.stopped);
    hide Run, Inv, JobOk, NextIdleDelay, ErrorDelay;
  }

  /** Exclusion: at no time do two batches of one job run, nor a batch beside an armed timer. */
  lemma NeverTwoBatches(settings: Settings, enabled: bool, events: seq<Event>, name: string)
    requires name in Run(Initial(settings, enabled), events).jobs
    ensures var j := Run(Initial(settings, enabled), events).jobs[name];
            && |j.live| <= 1
            && (forall b, c | b in j.live && c in j.live :: b == c)
            && (j.timer.Some? ==> j.live == map[])
  {
    RunKeepsInv(settings, enabled, events);
    var j := Run(Initial(settings, enabled), events).jobs[name];
    assert |j.live| == |j.live.Keys|;
    if j.inFlight.Some? {
      assert |{j.inFlight.value}| == 1;
    }
  }

  /** The polling safety net: once started and until stopped, a job has exactly one of timer and batch. */
  lemma AlwaysPolledOrRunning(settings: Settings, enabled: bool, events: seq<Event>, name: string)
    requires name in Run(Initial(settings, enabled), events).jobs
    ensures var s := Run(Initial(settings, enabled), events);
            && (s.started && !s.stopped ==> (s.jobs[name].timer.Some? <==> s.jobs[name].live == map[]))
            && (s.stopped || !s.started ==> s.jobs[name].timer.None?)
  {
    RunKeepsInv(settings, enabled, events);
    var j := Run(Initial(settings, enabled), events).jobs[name];
    if j.inFlight.Some? {
      assert j.inFlight.value in j.live;
    }
  }

  /** No armed delay exceeds the ceiling, so a lost notification can only delay work. */
  lemma DelaysAreBounded(settings: Settings, enabled: bool, events: seq<Event>, name: string)
    requires name in Run(Initial(settings, enabled), events).jobs
    ensures var j := Run(Initial(settings, enabled), events).jobs[name];
            j.timer.Some? ==> j.timer.value <= Ceiling(j, Run(Initial(settings, enabled), events).settings)
  {
    RunKeepsInv(settings, enabled, events);
  }

  // ---------------------------------------------------------------------------
  // No accepted wake is lost
  // ---------------------------------------------------------------------------

  ghost predicate ByTimerInFlight(j: Job) {
    j.inFlight.Some? && j.inFlight.value in j.live && j.live[j.inFlight.value].driver.ByTimer?
  }

  /** A wake is owed: the running batch will be followed up, or a timer is armed for it. */
  ghost predicate Owed(j: Job, within: Delay) {
    || (j.inFlight.Some? && j.wakePending && (ByTimerInFlight(j) || j.idleDelay <= within))
    || (j.timer.Some? && j.timer.value <= within)
  }

  /** What keeps a debt payable on time: an immediate one is never left to a manual batch. */
  ghost predicate Payable(j: Job, within: Delay) {
    && Owed(j, within)
    && within <= j.cadence.minIdle
    && (within == j.cadence.minIdle || j.timer.Some? || ByTimerInFlight(j))
  }

  /** A step that neither starts a batch of the job nor stops the scheduler keeps what is owed. */
  lemma StepKeepsOwed(s: Scheduler, e: Event, name: string, within: Delay)
    requires Inv(s) && name in s.jobs && s.started && Payable(s.jobs[name], within)
    ensures var t := Apply(s, e);
            name in t.jobs && (!t.stopped && t.jobs[name].started == s.jobs[name].started ==> Payable(t.jobs[name], within))
  {
    hide NextIdleDelay, ErrorDelay;
  }

  lemma StepIsMonotone(s: Scheduler, e: Event, name: string)
    requires Inv(s) && name in s.jobs && s.started
    ensures var t := Apply(s, e);
            && name in t.jobs && t.started
            && t.jobs[name].cadence == s.jobs[name].cadence
            && t.jobs[name].started >= s.jobs[name].started
            && (s.stopped ==> t.stopped)
  {
    hide NextIdleDelay, ErrorDelay, JobOk, Inv;
  }

  lemma {:induction false} RunKeepsOwed(s: Scheduler, events: seq<Event>, name: string, within: Delay)
    requires Inv(s) && name in s.jobs && s.started && Payable(s.jobs[name], within)
    ensures var t := Run(s, events);
            && Inv(t) && name in t.jobs && t.started
            && t.jobs[name].cadence == s.jobs[name].cadence
            && t.jobs[name].started >= s.jobs[name].started
            && (s.stopped ==> t.stopped)
            && (!t.stopped && t.jobs[name].started == s.jobs[name].started ==> Payable(t.jobs[name], within))
  {
    hide Apply, Payable;
    if events != [] {
      var n := |events| - 1;
      RunKeepsOwed(s, events[..n], name, within);
      var t := Run(s, events[..n]);
      StepKeepsInv(t, events[n]);
      StepIsMonotone(t, events[n], name);
      if !t.stopped && t.jobs[name].started == s.jobs[name].started {
        StepKeepsOwed(t, events[n], name, within);
      }
    }
  }

  /**
   No accepted wake is lost. From the wake until the next batch of the job starts, a batch is in
   flight with the wake noted, or a timer is armed within the minimum idle interval; and within no
   time at all unless a manual batch was in flight when the wake came.
   */
  lemma NoWakeIsLost(settings: Settings, enabled: bool, before: seq<Event>, channel: string, after: seq<Event>, name: string)
    requires var s := Run(Initial(settings, enabled), before);
             s.started && !s.stopped && name in s.jobs && Hears(s.jobs[name], channel)
    ensures var s := Run(Initial(settings, enabled), before);
            var t := Run(Apply(s, Wake(channel)), after);
            name in t.jobs &&
            (!t.stopped && t.jobs[name].started == s.jobs[name].started ==>
              var j := t.jobs[name];
              && ((j.inFlight.Some? && j.wakePending) || (j.timer.Some? && j.timer.value <= j.cadence.minIdle))
              && (s.jobs[name].inFlight.None? || ByTimerInFlight(s.jobs[name]) ==>
                    (j.timer.Some? ==> j.timer.value == 0.0)))
  {
    RunKeepsInv(settings, enabled, before);
    var s := Run(Initial(settings, enabled), before);
    StepKeepsInv(s, Wake(channel));
    var woken := Apply(s, Wake(channel));
    assert JobOk(s.jobs[name], s.settings, s.started, s.stopped);
    assert woken.jobs[name] == WakeJob(s.jobs[name], false);
    RunKeepsOwed(woken, after, name, woken.jobs[name].cadence.minIdle);
    if s.jobs[name].inFlight.None? || ByTimerInFlight(s.jobs[name]) {
      RunKeepsOwed(woken, after, name, 0.0);
      ImmediateTimer(settings, enabled, before, channel, after, name);
    }
  }

  /** With an immediate debt, a timer of the job is armed with no delay. */
  lemma ImmediateTimer(settings: Settings, enabled: bool, before: seq<Event>, channel: string, after: seq<Event>, name: string)
    requires var s := Run(Initial(settings, enabled), before);
             && s.started && !s.stopped && name in s.jobs && Hears(s.jobs[name], channel)
             && (s.jobs[name].inFlight.None? || ByTimerInFlight(s.jobs[name]))
    ensures var s := Run(Initial(settings, enabled), before);
            var t := Run(Apply(s, Wake(channel)), after);
            && name in t.jobs
            && (!t.stopped && t.jobs[name].started == s.jobs[name].started && t.jobs[name].timer.Some? ==>
                  t.jobs[name].timer.value == 0.0)
  {
    RunKeepsInv(settings, enabled, before);
    var s := Run(Initial(settings, enabled), before);
    StepKeepsInv(s, Wake(channel));
    var woken := Apply(s, Wake(channel));
    assert JobOk(s.jobs[name], s.settings, s.started, s.stopped);
    assert woken.jobs[name] == WakeJob(s.jobs[name], false);
    RunKeepsOwed(woken, after, name, 0.0);
    var t := Run(woken, after);
    assert JobOk(t.jobs[name], t.settings, t.started, t.stopped);
  }

  // ---------------------------------------------------------------------------
  // Backoff
  // ---------------------------------------------------------------------------

  /** d multiplied by the factor, times times */
  function Grown(d: Delay, factor: Factor, times: nat): Delay {
    if times == 0 then d else Scaled(Grown(d, factor, times - 1), factor)
  }

  /** The idle delay after k idle batches that follow a productive one. */
  function AfterIdles(cadence: Cadence, factor: Factor, k: nat): Delay {
    if k == 0 then 0.0 else NextIdleDelay(AfterIdles(cadence, factor, k - 1), cadence, factor)
  }

  lemma GrowthCapped(grown: Delay, cap: Delay, factor: Factor)
    ensures Min(Scaled(Min(grown, cap), factor), cap) == Min(Scaled(grown, factor), cap)
  {
    assert cap * factor >= cap;
    if grown > cap {
      assert grown * factor >= cap * factor;
    }
  }

  lemma {:induction false} GrowthGrows(d: Delay, factor: Factor, times: nat)
    ensures Grown(d, factor, times) >= d
  {
    if times > 0 {
      GrowthGrows(d, factor, times - 1);
      var g := Grown(d, factor, times - 1);
      assert g * factor >= g;
    }
  }

  lemma NextIsGrown(grown: Delay, cadence: Cadence, factor: Factor)
    requires cadence.minIdle <= grown && cadence.minIdle <= cadence.maxIdle
    ensures NextIdleDelay(Min(grown, cadence.maxIdle), cadence, factor) == Min(Scaled(grown, factor), cadence.maxIdle)
  {
    GrowthCapped(grown, cadence.maxIdle, factor);
  }

  lemma FirstIdle(cadence: Cadence, factor: Factor)
    requires 0.0 < cadence.minIdle <= cadence.maxIdle
    ensures AfterIdles(cadence, factor, 1) == Min(Grown(cadence.minIdle, factor, 0), cadence.maxIdle)
  {
    assert AfterIdles(cadence, factor, 0) == 0.0;
  }

  /** The closed form of the backoff: the k-th idle batch waits the minimum times f^(k-1), capped. */
  lemma {:induction false} BackoffClosedForm(cadence: Cadence, factor: Factor, k: nat)
    requires 0.0 < cadence.minIdle <= cadence.maxIdle && k >= 1
    ensures AfterIdles(cadence, factor, k) == Min(Grown(cadence.minIdle, factor, k - 1), cadence.maxIdle)
  {
    hide Scaled, Min;
    FirstIdle(cadence, factor);
    if k > 1 {
      BackoffClosedForm(cadence, factor, k - 1);
      GrowthGrows(cadence.minIdle, factor, k - 2);
      NextIsGrown(Grown(cadence.minIdle, factor, k - 2), cadence, factor);
    }
  }

  /** Neither a wake of the job nor a timer-driven batch of it that worked or failed. */
  ghost predicate Undisturbed(s: Scheduler, e: Event, name: string)
    requires name in s.jobs
  {
    match e
    case Wake(channel) => !Hears(s.jobs[name], channel)
    case BatchSettles(n, batch, outcome) =>
      n == name && batch in s.jobs[n].live && s.jobs[n].live[batch].driver.ByTimer? ==> outcome.Idle?
    case _ => true
  }

  /** The event is the end of an idle timer-driven batch of the job. */
  ghost predicate EndsIdle(s: Scheduler, e: Event, name: string) {
    && e.BatchSettles? && e.name == name && Enabled(s, e)
    && s.jobs[name].live[e.batch].driver.ByTimer? && e.outcome.Idle?
  }

  ghost predicate AllUndisturbed(s: Scheduler, events: seq<Event>, name: string) {
    events != [] ==>
      var n := |events| - 1;
      && AllUndisturbed(s, events[..n], name)
      && name in Run(s, events[..n]).jobs && Undisturbed(Run(s, events[..n]), events[n], name)
  }

  ghost function IdleCount(s: Scheduler, events: seq<Event>, name: string): nat {
    if events == [] then 0
    else
      var n := |events| - 1;
      IdleCount(s, events[..n], name) + if EndsIdle(Run(s, events[..n]), events[n], name) then 1 else 0
  }

  /** Over any undisturbed stretch after a productive batch the idle delay follows the backoff exactly. */
  lemma {:induction false} BackoffOverRuns(s: Scheduler, events: seq<Event>, name: string)
    requires name in s.jobs && s.jobs[name].idleDelay == 0.0 && AllUndisturbed(s, events, name)
    ensures var t := Run(s, events);
            && name in t.jobs && t.jobs[name].cadence == s.jobs[name].cadence && t.settings == s.settings
            && t.jobs[name].idleDelay == AfterIdles(s.jobs[name].cadence, s.settings.factor, IdleCount(s, events, name))
  {
    if events != [] {
      var n := |events| - 1;
      BackoffOverRuns(s, events[..n], name);
      UndisturbedStep(Run(s, events[..n]), events[n], name);
    }
  }

  lemma UndisturbedStep(s: Scheduler, e: Event, name: string)
    requires name in s.jobs && Undisturbed(s, e, name)
    ensures var t := Apply(s, e);
            && name in t.jobs && t.jobs[name].cadence == s.jobs[name].cadence && t.settings == s.settings
            && t.jobs[name].idleDelay == if EndsIdle(s, e, name)
                 then NextIdleDelay(s.jobs[name].idleDelay, s.jobs[name].cadence, s.settings.factor)
                 else s.jobs[name].idleDelay
  {
    hide NextIdleDelay, ErrorDelay;
  }

  /** When a timer-driven batch ends with no wake noted, the timer is armed with the idle delay. */
  lemma FreedSlotArmsIdleDelay(settings: Settings, enabled: bool, events: seq<Event>, name: string, batch: nat)
    requires var s := Run(Initial(settings, enabled), events);
             && s.started && !s.stopped && Enabled(s, SlotFreed(name, batch))
    ensures var s := Run(Initial(settings, enabled), events);
            var t := Apply(s, SlotFreed(name, batch));
            t.jobs[name].timer == Some(
              if s.jobs[name].live[batch].driver.ByTimer? && s.jobs[name].wakePending then 0.0
              else s.jobs[name].idleDelay)
  {
    RunKeepsInv(settings, enabled, events);
  }

  // ---------------------------------------------------------------------------
  // A limit of runNow
  // ---------------------------------------------------------------------------

  /** Callbacks, and manual runs whose job throws before it returns its promise, at once or after a wait. */
  datatype Signal = Callback(event: Event) | RunNowThrows(name: string) | ResumedRunThrows(name: string)

  /** The throw reaches the caller of `runNow`: a job that is not waiting for its slot. */
  predicate Throws(s: Scheduler, g: Signal) {
    match g
    case Callback(_) => false
    case RunNowThrows(n) => n in s.jobs && s.jobs[n].inFlight.None?
    case ResumedRunThrows(n) => n in s.jobs && s.jobs[n].inFlight.None? && s.jobs[n].waiting > 0
  }

  /** A throw leaves the timer cleared and nothing in its place. */
  function Perform(s: Scheduler, g: Signal): Scheduler {
    if g.Callback? then Apply(s, g.event)
    else if !Throws(s, g) then s
    else
      var j := s.jobs[g.name].(timer := None);
      s.(jobs := s.jobs[g.name := if g.RunNowThrows? then j else j.(waiting := j.waiting - 1)])
  }

  function PerformAll(s: Scheduler, signals: seq<Signal>): Scheduler {
    if signals == [] then s else Perform(PerformAll(s, signals[..|signals| - 1]), signals[|signals| - 1])
  }

  /** A throw breaks what every callback keeps exactly when polling is on: then the job has neither timer nor batch. */
  lemma SynchronousThrowLosesPolling(s: Scheduler, g: Signal)
    requires Inv(s) && Throws(s, g)
    ensures Inv(Perform(s, g)) <==> !(s.started && !s.stopped)
  {
    var n, j := g.name, Perform(s, g).jobs[g.name];
    assert JobOk(s.jobs[n], s.settings, s.started, s.stopped);
    assert JobOk(j, s.settings, s.started, s.stopped) <==> !(s.started && !s.stopped);
    if !(s.started && !s.stopped) {
      UpdateKeepsInv(s, n, j);
    }
  }

  /** No throw of the run happens while polling is on. */
  ghost predicate ThrowsOnlyWhileIdle(s: Scheduler, signals: seq<Signal>) {
    forall k | 0 <= k < |signals| :: HarmlessAt(s, signals, k)
  }

  ghost predicate HarmlessAt(s: Scheduler, signals: seq<Signal>, k: nat)
    requires k < |signals|
  {
    var before := PerformAll(s, signals[..k]);
    Throws(before, signals[k]) ==> !(before.started && !before.stopped)
  }

  /** Runs with such throws keep exclusion and the safety net. */
  lemma {:induction false} HarmlessThrowsKeepInv(settings: Settings, enabled: bool, signals: seq<Signal>)
    requires ThrowsOnlyWhileIdle(Initial(settings, enabled), signals)
    ensures Inv(PerformAll(Initial(settings, enabled), signals))
  {
    if signals != [] {
      var start, n := Initial(settings, enabled), |signals| - 1;
      var shorter := signals[..n];
      forall k | 0 <= k < |shorter|
        ensures HarmlessAt(start, shorter, k)
      {
        assert HarmlessAt(start, signals, k);
        assert shorter[..k] == signals[..k];
      }
      HarmlessThrowsKeepInv(settings, enabled, shorter);
      var before := PerformAll(start, shorter);
      assert HarmlessAt(start, signals, n);
      if signals[n].Callback? {
        StepKeepsInv(before, signals[n].event);
      } else if Throws(before, signals[n]) {
        SynchronousThrowLosesPolling(before, signals[n]);
      }
    }
  }
}
