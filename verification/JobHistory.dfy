/**
 The scheduler against the history of a run: what a job waits for, how often it has failed, what it declares and
 how many batches it has started all follow from the events alone.
 */
module JobHistory {
  import opened Wrappers
  import opened JobScheduling

  // ---------------------------------------------------------------------------
  // The delay after errors
  // ---------------------------------------------------------------------------

  function PowerOfTwo(n: nat): (p: real)
    ensures p >= 1.0
  {
    if n == 0 then 1.0 else PowerOfTwo(n - 1) + PowerOfTwo(n - 1)
  }

  lemma {:induction false} DoubledIsPower(d: Delay, n: nat)
    ensures Doubled(d, n) == d * PowerOfTwo(n)
  {
    if n > 0 {
      DoubledIsPower(d, n - 1);
      var p := PowerOfTwo(n - 1);
      assert 2.0 * (d * p) == d * (p + p);
    }
  }

  /** The wait after the n-th error in a row: the base delay times 2^(n-1), with ten doublings and the ceiling at most */
  function WaitAfterErrors(n: nat, settings: Settings): real
    requires n >= 1
  {
    var doublings := if n <= 11 then n - 1 else 10;
    var wait := settings.errorDelay * PowerOfTwo(doublings);
    if wait <= settings.maxErrorDelay then wait else settings.maxErrorDelay
  }

  lemma ErrorDelayClosedForm(n: nat, settings: Settings)
    requires n >= 1
    ensures ErrorDelay(n, settings) == WaitAfterErrors(n, settings)
  {
    hide PowerOfTwo, Doubled;
    DoubledIsPower(settings.errorDelay, if n <= 11 then n - 1 else 10);
  }

  lemma {:induction false} PowersGrow(m: nat, n: nat)
    requires m <= n
    ensures PowerOfTwo(m) <= PowerOfTwo(n)
  {
    if m < n {
      PowersGrow(m, n - 1);
    }
  }

  lemma WaitsGrow(settings: Settings, m: nat, n: nat)
    requires 1 <= m <= n
    ensures WaitAfterErrors(m, settings) <= WaitAfterErrors(n, settings)
  {
    hide PowerOfTwo;
    var d, p, q := settings.errorDelay, PowerOfTwo(if m <= 11 then m - 1 else 10), PowerOfTwo(if n <= 11 then n - 1 else 10);
    PowersGrow(if m <= 11 then m - 1 else 10, if n <= 11 then n - 1 else 10);
    assert d * (q - p) >= 0.0;
    assert d * q == d * p + d * (q - p);
  }

  lemma TenDoublings()
    ensures PowerOfTwo(10) == 1024.0
  {
    assert PowerOfTwo(2) == 4.0;
    assert PowerOfTwo(4) == 16.0;
    assert PowerOfTwo(6) == 64.0;
    assert PowerOfTwo(8) == 256.0;
  }

  /** Error delays start at the base delay, double with every further error up to 1024 times it, and are capped. */
  lemma ErrorDelaysGrow(settings: Settings, m: nat, n: nat)
    requires 1 <= m <= n
    ensures ErrorDelay(m, settings) <= ErrorDelay(n, settings) <= settings.maxErrorDelay
    ensures ErrorDelay(1, settings) == Min(settings.errorDelay, settings.maxErrorDelay)
    ensures n <= 10 ==> ErrorDelay(n + 1, settings) == Min(2.0 * ErrorDelay(n, settings), settings.maxErrorDelay)
    ensures n >= 11 ==> ErrorDelay(n, settings) == Min(1024.0 * settings.errorDelay, settings.maxErrorDelay)
  {
    hide PowerOfTwo, Doubled, ErrorDelay;
    var d := settings.errorDelay;
    ErrorDelayClosedForm(m, settings);
    ErrorDelayClosedForm(n, settings);
    ErrorDelayClosedForm(n + 1, settings);
    ErrorDelayClosedForm(1, settings);
    FirstPowers(n);
    WaitsGrow(settings, m, n);
    TenDoublings();
    assert d * PowerOfTwo(10) == 1024.0 * d;
    if n <= 10 {
      assert d * (PowerOfTwo(n - 1) + PowerOfTwo(n - 1)) == 2.0 * (d * PowerOfTwo(n - 1));
    }
  }

  lemma FirstPowers(n: nat)
    requires n >= 1
    ensures PowerOfTwo(0) == 1.0 && PowerOfTwo(n) == PowerOfTwo(n - 1) + PowerOfTwo(n - 1)
  {
  }

  // ---------------------------------------------------------------------------
  // What a run tells a job
  // ---------------------------------------------------------------------------

  /** What moves the cadence of a job: an accepted wake, or the end of a batch that its timer started */
  datatype Sign = Woken | Worked | Idled | Failed

  ghost function SignOf(s: Scheduler, e: Event, name: string): Option<Sign> {
    if name !in s.jobs then None
    else
      match e
      case Wake(channel) =>
        if s.started && !s.stopped && s.jobs[name].wakeChannel == Some(channel) then Some(Woken) else None
      case BatchSettles(n, batch, outcome) =>
        if n != name || batch !in s.jobs[n].live || s.jobs[n].live[batch] != Batch(ByTimer, Running) then None
        else Some(match outcome case Work => Worked case Idle => Idled case Error => Failed)
      case _ => None
  }

  /** The signs that a job has had since its registration */
  ghost function Signs(s: Scheduler, events: seq<Event>, name: string): seq<Sign> {
    if events == [] then []
    else
      var n := |events| - 1;
      var sign := SignOf(Run(s, events[..n]), events[n], name);
      Signs(s, events[..n], name) + if sign.Some? then [sign.value] else []
  }

  /** The batches that failed since the last one that did not; wakes between them do not count. */
  function ErrorsInARow(signs: seq<Sign>): nat {
    if signs == [] then 0
    else
      var n := |signs| - 1;
      match signs[n]
      case Failed => ErrorsInARow(signs[..n]) + 1
      case Woken => ErrorsInARow(signs[..n])
      case _ => 0
  }

  /**
   How long a job waits for its next batch: its minimum at first and after a wake, nothing after work, the error
   delay after an error, and after an idle batch the minimum or, from there on, a factor more up to its maximum.
   */
  function WaitAfter(signs: seq<Sign>, cadence: Cadence, settings: Settings): real {
    if signs == [] then cadence.minIdle
    else
      var n := |signs| - 1;
      match signs[n]
      case Woken => cadence.minIdle
      case Worked => 0.0
      case Failed => WaitAfterErrors(ErrorsInARow(signs[..n]) + 1, settings)
      case Idled =>
        var before := WaitAfter(signs[..n], cadence, settings);
        if before < cadence.minIdle then cadence.minIdle
        else if before * settings.factor <= cadence.maxIdle then before * settings.factor
        else cadence.maxIdle
  }

  lemma SignsAppend(signs: seq<Sign>, sign: Sign)
    ensures (signs + [sign])[..|signs|] == signs && signs + [] == signs
  {
  }

  /** What an event makes of one registered job */
  function JobAfter(s: Scheduler, e: Event, name: string): Job
    requires name in s.jobs
  {
    var j := s.jobs[name];
    if !Enabled(s, e) then j
    else
      match e
      case Register(_) => j
      case Bootstrap => if s.enabled then Schedule(j, s.stopped, j.cadence.initialDelay) else j
      case Wake(channel) => if s.started && !s.stopped && Hears(j, channel) then WakeJob(j, s.stopped) else j
      case TimerFires(n) => if n == name then FireTimer(j, s.stopped) else j
      case BatchSettles(n, batch, outcome) => if n == name then Settle(j, s.settings, batch, outcome) else j
      case SlotFreed(n, batch) => if n == name then FreeSlot(j, s.started, s.stopped, batch) else j
      case RunNow(n) => if n == name then CallRunNow(j) else j
      case RunNowResumes(n) => if n == name then Resume(j) else j
      case Destroy => j.(timer := None)
  }

  lemma JobStep(s: Scheduler, e: Event, name: string)
    requires name in s.jobs
    ensures name in Apply(s, e).jobs && Apply(s, e).jobs[name] == JobAfter(s, e, name)
    ensures Apply(s, e).settings == s.settings
  {
    hide WakeJob, Schedule, FireTimer, CallRunNow, Resume, Settle, FreeSlot, NewJob, Hears;
  }

  /** How one event moves the cadence of a registered job */
  lemma CadenceStep(s: Scheduler, e: Event, name: string)
    requires name in s.jobs
    ensures var t := Apply(s, e);
            && name in t.jobs && t.settings == s.settings && t.jobs[name].cadence == s.jobs[name].cadence
            && match SignOf(s, e, name)
               case None => t.jobs[name].idleDelay == s.jobs[name].idleDelay && t.jobs[name].failures == s.jobs[name].failures
               case Some(Woken) =>
                 t.jobs[name].idleDelay == s.jobs[name].cadence.minIdle && t.jobs[name].failures == s.jobs[name].failures
               case Some(Worked) => t.jobs[name].idleDelay == 0.0 && t.jobs[name].failures == 0
               case Some(Failed) =>
                 && t.jobs[name].failures == s.jobs[name].failures + 1
                 && t.jobs[name].idleDelay == ErrorDelay(s.jobs[name].failures + 1, s.settings)
               case Some(Idled) =>
                 && t.jobs[name].failures == 0
                 && t.jobs[name].idleDelay == NextIdleDelay(s.jobs[name].idleDelay, s.jobs[name].cadence, s.settings.factor)
  {
    JobStep(s, e, name);
    hide Apply, NextIdleDelay, ErrorDelay;
  }

  /** A job that an event registers starts with its minimum and no failures. */
  lemma FreshJob(s: Scheduler, e: Event, name: string)
    requires name !in s.jobs
    ensures var t := Apply(s, e);
            && t.settings == s.settings && SignOf(s, e, name) == None
            && (name in t.jobs <==> e.Register? && e.declaration.name == name)
            && (name in t.jobs ==>
                  t.jobs[name].idleDelay == t.jobs[name].cadence.minIdle && t.jobs[name].failures == 0)
  {
    hide NextIdleDelay, ErrorDelay, StartBatch, FreeSlot, Settle, WakeJob, FireTimer, CallRunNow, Resume;
  }

  /** Before its registration a job has no signs, and settings never change. */
  lemma {:induction false} NoSignsBefore(settings: Settings, enabled: bool, events: seq<Event>, name: string)
    ensures Run(Initial(settings, enabled), events).settings == settings
    ensures name !in Run(Initial(settings, enabled), events).jobs ==> Signs(Initial(settings, enabled), events, name) == []
  {
    hide Apply, SignOf;
    if events != [] {
      var n, start := |events| - 1, Initial(settings, enabled);
      NoSignsBefore(settings, enabled, events[..n], name);
      if name in Run(start, events[..n]).jobs {
        CadenceStep(Run(start, events[..n]), events[n], name);
      } else {
        FreshJob(Run(start, events[..n]), events[n], name);
      }
    }
  }

  /**
   Over every run the stored delay and the failure count of a job follow from its signs: the failures are the
   timer-driven batches that failed since the last that did not, and the delay is the one the comments promise.
   */
  lemma {:induction false} CadenceFollowsHistory(settings: Settings, enabled: bool, events: seq<Event>, name: string)
    requires name in Run(Initial(settings, enabled), events).jobs
    ensures var j := Run(Initial(settings, enabled), events).jobs[name];
            var signs := Signs(Initial(settings, enabled), events, name);
            j.failures == ErrorsInARow(signs) && j.idleDelay == WaitAfter(signs, j.cadence, settings)
  {
    hide Apply, SignOf, NextIdleDelay, ErrorDelay, WaitAfterErrors;
    var n, start := |events| - 1, Initial(settings, enabled);
    var s, e, signs := Run(start, events[..n]), events[n], Signs(start, events[..n], name);
    NoSignsBefore(settings, enabled, events[..n], name);
    if name in s.jobs {
      CadenceFollowsHistory(settings, enabled, events[..n], name);
      CadenceStep(s, e, name);
      var sign := SignOf(s, e, name);
      if sign.Some? {
        ErrorsStep(signs, sign.value);
        SignMoves(signs, sign.value, s.jobs[name], settings);
      } else {
        SignsAppend(signs, Woken);
      }
    } else {
      FreshJob(s, e, name);
      SignsAppend(signs, Woken);
    }
  }

  /** One more sign moves the wait from the one before it. */
  lemma WaitStep(signs: seq<Sign>, sign: Sign, cadence: Cadence, settings: Settings)
    ensures var before, after := WaitAfter(signs, cadence, settings), WaitAfter(signs + [sign], cadence, settings);
            match sign
            case Woken => after == cadence.minIdle
            case Worked => after == 0.0
            case Failed => after == WaitAfterErrors(ErrorsInARow(signs) + 1, settings)
            case Idled =>
              after == if before < cadence.minIdle then cadence.minIdle
                       else if before * settings.factor <= cadence.maxIdle then before * settings.factor
                       else cadence.maxIdle
  {
    hide WaitAfterErrors, ErrorsInARow;
    SignsAppend(signs, sign);
  }

  lemma ErrorsStep(signs: seq<Sign>, sign: Sign)
    ensures ErrorsInARow(signs + [sign]) == match sign
              case Failed => ErrorsInARow(signs) + 1
              case Woken => ErrorsInARow(signs)
              case _ => 0
  {
    SignsAppend(signs, sign);
  }

  lemma NextIdleIsTheWait(d: Delay, cadence: Cadence, factor: Factor)
    ensures NextIdleDelay(d, cadence, factor)
         == if d < cadence.minIdle then cadence.minIdle
            else if d * factor <= cadence.maxIdle then d * factor
            else cadence.maxIdle
  {
  }

  /** The delay functions of the scheduler do to a job what its next sign says. */
  lemma SignMoves(signs: seq<Sign>, sign: Sign, j: Job, settings: Settings)
    requires j.idleDelay == WaitAfter(signs, j.cadence, settings)
    ensures var after := WaitAfter(signs + [sign], j.cadence, settings);
            match sign
            case Woken => after == j.cadence.minIdle
            case Worked => after == 0.0
            case Failed => after == ErrorDelay(ErrorsInARow(signs) + 1, settings)
            case Idled => after == NextIdleDelay(j.idleDelay, j.cadence, settings.factor)
  {
    hide ErrorDelay, WaitAfterErrors, WaitAfter, ErrorsInARow, NextIdleDelay;
    WaitStep(signs, sign, j.cadence, settings);
    ErrorDelayClosedForm(ErrorsInARow(signs) + 1, settings);
    NextIdleIsTheWait(j.idleDelay, j.cadence, settings.factor);
  }

  /** The delay armed after the k-th error in a row, when no wake is noted and no one runs the job by hand */
  lemma ErrorTimer(settings: Settings, enabled: bool, events: seq<Event>, name: string, batch: nat)
    requires var s := Run(Initial(settings, enabled), events);
             && s.started && !s.stopped && Enabled(s, SlotFreed(name, batch)) && !s.jobs[name].wakePending
    requires var signs := Signs(Initial(settings, enabled), events, name);
             signs != [] && signs[|signs| - 1] == Failed
    ensures var s := Run(Initial(settings, enabled), events);
            var signs := Signs(Initial(settings, enabled), events, name);
            Apply(s, SlotFreed(name, batch)).jobs[name].timer == Some(WaitAfterErrors(ErrorsInARow(signs), settings) as Delay)
  {
    hide Run, Apply, Enabled, Signs, WaitAfterErrors, ErrorsInARow, Initial;
    FreedSlotArmsIdleDelay(settings, enabled, events, name, batch);
    SlotFreedIsKnown(Run(Initial(settings, enabled), events), name, batch);
    CadenceFollowsHistory(settings, enabled, events, name);
    LastFailure(Signs(Initial(settings, enabled), events, name), Run(Initial(settings, enabled), events).jobs[name].cadence, settings);
  }

  lemma SlotFreedIsKnown(s: Scheduler, name: string, batch: nat)
    requires Enabled(s, SlotFreed(name, batch))
    ensures name in s.jobs && batch in s.jobs[name].live
  {
  }

  lemma LastFailure(signs: seq<Sign>, cadence: Cadence, settings: Settings)
    requires signs != [] && signs[|signs| - 1] == Failed
    ensures ErrorsInARow(signs) >= 1 && WaitAfter(signs, cadence, settings) == WaitAfterErrors(ErrorsInARow(signs), settings)
  {
  }

  // ---------------------------------------------------------------------------
  // Registration, flags, wakes and calls
  // ---------------------------------------------------------------------------

  /** The registration that counts: later ones under the same name are refused. */
  function FirstDeclaration(events: seq<Event>, name: string): Option<Declaration> {
    if events == [] then None
    else
      var n := |events| - 1;
      var before := FirstDeclaration(events[..n], name);
      if before.Some? then before
      else if events[n].Register? && events[n].declaration.name == name then Some(events[n].declaration)
      else None
  }

  /** The job has what was declared and the defaults for the rest, and its maximum is not under its minimum. */
  predicate IsDeclared(j: Job, d: Declaration, defaults: Cadence) {
    && j.wakeChannel == (match d.channel case None => Some(d.name) case Some(channel) => channel)
    && j.cadence.initialDelay == (match d.initialDelay case None => defaults.initialDelay case Some(delay) => delay)
    && j.cadence.minIdle == (match d.minIdle case None => defaults.minIdle case Some(delay) => delay)
    && var declared := match d.maxIdle case None => defaults.maxIdle case Some(delay) => delay;
       j.cadence.maxIdle == if declared < j.cadence.minIdle then j.cadence.minIdle else declared
  }

  /** Registered jobs stay, with the channel and the cadence they have. */
  lemma RegistrationStep(s: Scheduler, e: Event, name: string)
    requires name in s.jobs
    ensures var t := Apply(s, e);
            name in t.jobs && t.jobs[name].wakeChannel == s.jobs[name].wakeChannel && t.jobs[name].cadence == s.jobs[name].cadence
  {
    JobStep(s, e, name);
    hide Apply, NextIdleDelay, ErrorDelay;
  }

  lemma RegistrationIsDeclared(s: Scheduler, d: Declaration)
    requires d.name !in s.jobs
    ensures d.name in Apply(s, Register(d)).jobs && IsDeclared(Apply(s, Register(d)).jobs[d.name], d, s.settings.defaults)
  {
  }

  /** Over every run the registered jobs are the declared ones, each with its first declaration. */
  lemma {:induction false} RegistrationFollowsHistory(settings: Settings, enabled: bool, events: seq<Event>, name: string)
    ensures var jobs := Run(Initial(settings, enabled), events).jobs;
            var first := FirstDeclaration(events, name);
            && (name in jobs <==> first.Some?)
            && (name in jobs ==> first.value.name == name && IsDeclared(jobs[name], first.value, settings.defaults))
  {
    hide Apply;
    if events != [] {
      var n, start := |events| - 1, Initial(settings, enabled);
      var s, e := Run(start, events[..n]), events[n];
      RegistrationFollowsHistory(settings, enabled, events[..n], name);
      NoSignsBefore(settings, enabled, events[..n], name);
      if name in s.jobs {
        RegistrationStep(s, e, name);
      } else {
        FreshJob(s, e, name);
        if e.Register? && e.declaration.name == name {
          RegistrationIsDeclared(s, e.declaration);
        }
      }
    }
  }

  lemma FlagStep(s: Scheduler, e: Event)
    ensures var t := Apply(s, e);
            && t.enabled == s.enabled
            && t.started == (s.started || (e == Bootstrap && s.enabled))
            && t.stopped == (s.stopped || e == Destroy)
  {
    hide Schedule, WakeJob, NewJob, FireTimer, Settle, FreeSlot, Resume, CallRunNow;
  }

  /** Polling begins with the bootstrap of an enabled scheduler and ends with its destruction. */
  lemma {:induction false} FlagsFollowHistory(settings: Settings, enabled: bool, events: seq<Event>)
    ensures var s := Run(Initial(settings, enabled), events);
            s.enabled == enabled && (s.started <==> enabled && Bootstrap in events) && (s.stopped <==> Destroy in events)
  {
    hide Apply;
    if events != [] {
      var n := |events| - 1;
      FlagsFollowHistory(settings, enabled, events[..n]);
      FlagStep(Run(Initial(settings, enabled), events[..n]), events[n]);
      assert events == events[..n] + [events[n]];
    }
  }

  /** A wake came while a batch held the slot, and no timer-driven batch has answered for it since. */
  ghost function WakeNoted(s: Scheduler, events: seq<Event>, name: string): bool {
    if events == [] then false
    else
      var n := |events| - 1;
      var before, e := Run(s, events[..n]), events[n];
      if name !in before.jobs then false
      else if SignOf(before, e, name) == Some(Woken) && before.jobs[name].inFlight != None then true
      else if AnswersWake(before, e, name) then false
      else WakeNoted(s, events[..n], name)
  }

  /** The slot of a timer-driven batch is freed while the scheduler is not stopped. */
  predicate AnswersWake(s: Scheduler, e: Event, name: string)
    requires name in s.jobs
  {
    && !s.stopped && e.SlotFreed? && e.name == name && e.batch in s.jobs[name].live
    && s.jobs[name].live[e.batch] == Batch(ByTimer, Settled)
  }

  lemma NoteStep(s: Scheduler, e: Event, name: string)
    requires name in s.jobs
    ensures var t := Apply(s, e);
            name in t.jobs && t.jobs[name].wakePending ==
              if SignOf(s, e, name) == Some(Woken) && s.jobs[name].inFlight != None then true
              else if AnswersWake(s, e, name) then false
              else s.jobs[name].wakePending
  {
    JobStep(s, e, name);
    hide Apply, NextIdleDelay, ErrorDelay;
  }

  lemma FreshNote(s: Scheduler, e: Event, name: string)
    requires name !in s.jobs && name in Apply(s, e).jobs
    ensures !Apply(s, e).jobs[name].wakePending && Apply(s, e).jobs[name].started == 0 && Apply(s, e).jobs[name].waiting == 0
  {
    hide NextIdleDelay, ErrorDelay, StartBatch, FreeSlot, Settle, WakeJob, FireTimer, CallRunNow, Resume;
  }

  /** Over every run a job has a wake noted exactly when one came under a batch and was not answered yet. */
  lemma {:induction false} WakesAreNotedExactly(settings: Settings, enabled: bool, events: seq<Event>, name: string)
    requires name in Run(Initial(settings, enabled), events).jobs
    ensures Run(Initial(settings, enabled), events).jobs[name].wakePending == WakeNoted(Initial(settings, enabled), events, name)
  {
    hide Apply, SignOf, AnswersWake;
    var n, start := |events| - 1, Initial(settings, enabled);
    var s, e := Run(start, events[..n]), events[n];
    if name in s.jobs {
      WakesAreNotedExactly(settings, enabled, events[..n], name);
      NoteStep(s, e, name);
    } else {
      FreshNote(s, e, name);
    }
  }

  /** The timers of a job that fired and the manual runs that were asked for */
  ghost function Calls(s: Scheduler, events: seq<Event>, name: string): nat {
    if events == [] then 0
    else
      var n := |events| - 1;
      Calls(s, events[..n], name) + if IsCall(Run(s, events[..n]), events[n], name) then 1 else 0
  }

  predicate IsCall(s: Scheduler, e: Event, name: string) {
    name in s.jobs && (e == RunNow(name) || (e == TimerFires(name) && s.jobs[name].timer != None))
  }

  lemma CallStep(s: Scheduler, e: Event, name: string)
    requires name in s.jobs
    ensures var t := Apply(s, e);
            && name in t.jobs
            && t.jobs[name].started + t.jobs[name].waiting
               == s.jobs[name].started + s.jobs[name].waiting + if IsCall(s, e, name) then 1 else 0
  {
    JobStep(s, e, name);
    hide Apply, NextIdleDelay, ErrorDelay;
  }

  lemma {:induction false} NoCallsBefore(settings: Settings, enabled: bool, events: seq<Event>, name: string)
    requires name !in Run(Initial(settings, enabled), events).jobs
    ensures Calls(Initial(settings, enabled), events, name) == 0
  {
    hide Apply;
    if events != [] {
      var n, start := |events| - 1, Initial(settings, enabled);
      if name in Run(start, events[..n]).jobs {
        RegistrationStep(Run(start, events[..n]), events[n], name);
      }
      NoCallsBefore(settings, enabled, events[..n], name);
    }
  }

  /** Every timer that fires and every manual run starts one batch of its own, at once or after its wait. */
  lemma {:induction false} EveryCallStartsOneBatch(settings: Settings, enabled: bool, events: seq<Event>, name: string)
    requires name in Run(Initial(settings, enabled), events).jobs
    ensures var j := Run(Initial(settings, enabled), events).jobs[name];
            j.started + j.waiting == Calls(Initial(settings, enabled), events, name)
  {
    hide Apply, IsCall;
    var n, start := |events| - 1, Initial(settings, enabled);
    var s, e := Run(start, events[..n]), events[n];
    if name in s.jobs {
      EveryCallStartsOneBatch(settings, enabled, events[..n], name);
      CallStep(s, e, name);
    } else {
      FreshNote(s, e, name);
      NoCallsBefore(settings, enabled, events[..n], name);
      NotACall(s, e, name);
    }
  }

  lemma NotACall(s: Scheduler, e: Event, name: string)
    requires name !in s.jobs
    ensures !IsCall(s, e, name)
  {
  }

  /** A running batch settles once, and only then its slot can be freed, which ends it. */
  lemma BatchesEndOnce(s: Scheduler, name: string, batch: nat, outcome: Outcome, again: Outcome)
    requires Enabled(s, BatchSettles(name, batch, outcome))
    ensures var settled := Apply(s, BatchSettles(name, batch, outcome));
            var freed := Apply(settled, SlotFreed(name, batch));
            && !Enabled(s, SlotFreed(name, batch))
            && Enabled(settled, SlotFreed(name, batch)) && !Enabled(settled, BatchSettles(name, batch, again))
            && name in freed.jobs && batch !in freed.jobs[name].live && freed.jobs[name].inFlight == None
  {
    JobStep(s, BatchSettles(name, batch, outcome), name);
    var settled := Apply(s, BatchSettles(name, batch, outcome));
    JobStep(settled, SlotFreed(name, batch), name);
    hide Apply, NextIdleDelay, ErrorDelay;
  }

  // ---------------------------------------------------------------------------
  // Timers
  // ---------------------------------------------------------------------------

  /** The timer of a registered job after an event, in a state where polling follows the rules */
  ghost function TimerAfter(s: Scheduler, e: Event, name: string): Option<Delay>
    requires name in s.jobs
  {
    var j := s.jobs[name];
    var polling, idle := s.started && !s.stopped, j.inFlight == None;
    match e
    case Bootstrap => if s.enabled && !s.stopped && idle && j.timer == None then Some(j.cadence.initialDelay) else j.timer
    case Wake(channel) => if polling && idle && j.wakeChannel == Some(channel) then Some(0.0) else j.timer
    case TimerFires(n) => if n == name then None else j.timer
    case RunNow(n) => if n == name && idle then None else j.timer
    case RunNowResumes(n) => if n == name && idle && j.waiting > 0 then None else j.timer
    case SlotFreed(n, batch) =>
      if n != name || !polling || batch !in j.live || j.live[batch].phase != Settled then j.timer
      else if j.live[batch].driver == ByTimer && j.wakePending then Some(0.0)
      else Some(j.idleDelay)
    case Destroy => None
    case _ => j.timer
  }

  /** Over every run a timer is armed, replaced and cleared exactly so. */
  lemma TimersExactly(settings: Settings, enabled: bool, events: seq<Event>, e: Event, name: string)
    ensures var s := Run(Initial(settings, enabled), events);
            && (name in s.jobs ==> name in Apply(s, e).jobs && Apply(s, e).jobs[name].timer == TimerAfter(s, e, name))
            && (name !in s.jobs && name in Apply(s, e).jobs ==>
                  Apply(s, e).jobs[name].timer
                  == if s.started && !s.stopped then Some(Apply(s, e).jobs[name].cadence.initialDelay) else None)
  {
    hide NextIdleDelay, ErrorDelay, Run;
    RunKeepsInv(settings, enabled, events);
    var s := Run(Initial(settings, enabled), events);
    if name in s.jobs {
      assert JobOk(s.jobs[name], s.settings, s.started, s.stopped);
      TimerStep(s, e, name);
    }
  }

  lemma TimerStep(s: Scheduler, e: Event, name: string)
    requires name in s.jobs && JobOk(s.jobs[name], s.settings, s.started, s.stopped)
    ensures name in Apply(s, e).jobs && Apply(s, e).jobs[name].timer == TimerAfter(s, e, name)
  {
    JobStep(s, e, name);
    hide Apply, NextIdleDelay, ErrorDelay;
  }
}
