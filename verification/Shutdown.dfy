/** How the mount stops: reporters of a lost connection, the Ctrl+C handler, the monitor thread and
    the main loop, as interleaved steps over one flag and one locked slot
    (MountState, spawn_connection_monitor, wait_for_shutdown and the end of run_mount in
    crates/netfilum-client/src/mount.rs). */
module Shutdown {
  import opened Wrappers

  datatype Reason = Interrupted | ServerDisconnected(message: string)

  // A thread inside report_disconnect: waiting for the lock, holding it with the slot not yet
  // looked at, with the slot settled, with the flag stored; and back out.
  datatype Reporter =
    | Waiting(message: string)
    | Locked(message: string)
    | Settled(message: string)
    | Stored(message: string)
    | Finished(message: string)

  // `own` says whether the read ended because this client shut the socket down itself.
  datatype Monitor =
    | Blocked
    | Returned(message: string, own: bool)
    | Quiet
    | Reporting(message: string, own: bool)

  // `storedThen` records whether some reporter had stored the flag when the reason was read.
  datatype Main =
    | Starting
    | Polling
    | SawStop
    | Decided(reason: Reason, storedThen: bool)
    | ShutDown(reason: Reason, storedThen: bool)
    | Joined(reason: Reason, storedThen: bool)

  // The last four fields are history: who first got the lock, the texts written to the slot,
  // whether Ctrl+C came, and whether a reporter stored the flag.
  datatype State = State(
    stop: bool,
    slot: Option<string>,
    lock: Option<nat>,
    reporters: map<nat, Reporter>,
    monitor: Monitor,
    main: Main,
    first: Option<nat>,
    writes: seq<string>,
    ctrlC: bool,
    reporterStored: bool)

  const MONITOR_THREAD: nat := 0

  const INITIAL := State(false, None, None, map[], Blocked, Starting, None, [], false, false)

  datatype Step =
    | RequestLosesConnection(t: nat, message: string)
    | TakeLock(t: nat)
    | SettleSlot(t: nat)
    | StoreStop(t: nat)
    | DropLock(t: nat)
    | MonitorReturns(message: string, own: bool)
    | MonitorChecks
    | InstallHandler
    | CtrlC
    | Poll
    | ReadReason
    | ShutMonitor
    | Join

  predicate Enabled(s: State, step: Step) {
    match step
    case RequestLosesConnection(t, _) => t != MONITOR_THREAD && t !in s.reporters
    case TakeLock(t) => s.lock.None? && t in s.reporters && s.reporters[t].Waiting?
    case SettleSlot(t) => t in s.reporters && s.reporters[t].Locked?
    case StoreStop(t) => t in s.reporters && s.reporters[t].Settled?
    case DropLock(t) => t in s.reporters && s.reporters[t].Stored?
    case MonitorReturns(_, own) => s.monitor.Blocked? && (own ==> s.main.ShutDown?)
    case MonitorChecks => s.monitor.Returned? && MONITOR_THREAD !in s.reporters
    case InstallHandler => s.main.Starting?
    case CtrlC => !s.main.Starting?
    case Poll => s.main.Polling?
    case ReadReason => s.main.SawStop? && s.lock.None?
    case ShutMonitor => s.main.Decided?
    case Join => s.main.ShutDown? && (s.monitor.Quiet? || (MONITOR_THREAD in s.reporters && s.reporters[MONITOR_THREAD].Finished?))
  }

  function Set(s: State, t: nat, r: Reporter): State {
    s.(reporters := s.reporters[t := r])
  }

  function Apply(s: State, step: Step): State
    requires Enabled(s, step)
  {
    match step
    case RequestLosesConnection(t, message) => Set(s, t, Waiting(message))
    case TakeLock(t) =>
      Set(s, t, Locked(s.reporters[t].message)).(lock := Some(t), first := if s.first.None? then Some(t) else s.first)
    case SettleSlot(t) =>
      var message := s.reporters[t].message;
      var s' := Set(s, t, Settled(message));
      if s.slot.None? then s'.(slot := Some(message), writes := s.writes + [message]) else s'
    case StoreStop(t) => Set(s, t, Stored(s.reporters[t].message)).(stop := true, reporterStored := true)
    case DropLock(t) => Set(s, t, Finished(s.reporters[t].message)).(lock := None)
    case MonitorReturns(message, own) => s.(monitor := Returned(message, own))
    case MonitorChecks =>
      if s.stop then s.(monitor := Quiet)
      else Set(s, MONITOR_THREAD, Waiting(s.monitor.message)).(monitor := Reporting(s.monitor.message, s.monitor.own))
    case InstallHandler => s.(main := Polling)
    case CtrlC => s.(stop := true, ctrlC := true)
    case Poll => if s.stop then s.(main := SawStop) else s
    case ReadReason =>
      s.(main := Decided(if s.slot.Some? then ServerDisconnected(s.slot.value) else Interrupted, s.reporterStored))
    case ShutMonitor => s.(main := ShutDown(s.main.reason, s.main.storedThen))
    case Join => s.(main := Joined(s.main.reason, s.main.storedThen))
  }

  ghost predicate Reaches(s: State, steps: seq<Step>, s': State)
    decreases |steps|
  {
    if steps == [] then s' == s
    else Enabled(s, steps[0]) && Reaches(Apply(s, steps[0]), steps[1..], s')
  }

  predicate HoldsLock(r: Reporter) {
    r.Locked? || r.Settled? || r.Stored?
  }

  // The lock is held by exactly the thread inside the locked region.
  ghost predicate LockHeld(s: State) {
    && (forall t :: t in s.reporters && HoldsLock(s.reporters[t]) ==> s.lock == Some(t))
    && (s.lock.Some? ==> s.lock.value in s.reporters && HoldsLock(s.reporters[s.lock.value]))
  }

  predicate PastSlot(r: Reporter) {
    r.Settled? || r.Stored? || r.Finished?
  }

  // The slot holds the text of the first thread to have got the lock, and nothing before that
  // thread has settled it.
  ghost predicate SlotIsFirst(s: State) {
    && (forall t :: t in s.reporters && PastSlot(s.reporters[t]) ==> s.slot.Some?)
    && (s.first.Some? ==> s.first.value in s.reporters && !s.reporters[s.first.value].Waiting?)
    && (forall t :: t in s.reporters && !s.reporters[t].Waiting? ==> s.first.Some?)
    && (s.slot.None? && s.first.Some? ==> s.lock == s.first)
    && (s.slot.Some? ==> s.first.Some? && s.slot.value == s.reporters[s.first.value].message)
    && s.writes == (if s.slot.Some? then [s.slot.value] else [])
  }

  // The flag is stored for a reason, and the reason given is the right one.
  ghost predicate StopIsJustified(s: State) {
    && (s.reporterStored ==> s.slot.Some? && s.stop)
    && (s.ctrlC ==> s.stop)
    && (s.stop ==> s.ctrlC || s.slot.Some?)
    && (!s.main.Starting? && !s.main.Polling? ==> s.stop)
    && (s.main.Decided? || s.main.ShutDown? || s.main.Joined? ==> Justified(s, s.main.reason, s.main.storedThen))
    && (s.monitor.Returned? && s.monitor.own ==> s.stop)
    && !(s.monitor.Reporting? && s.monitor.own)
  }

  ghost predicate Justified(s: State, reason: Reason, storedThen: bool) {
    match reason
    case ServerDisconnected(m) => s.slot == Some(m)
    case Interrupted => s.ctrlC && !storedThen
  }

  function MessageOf(r: Reporter): string {
    match r
    case Waiting(m) => m
    case Locked(m) => m
    case Settled(m) => m
    case Stored(m) => m
    case Finished(m) => m
  }

  // The monitor goes quiet only once the flag is up; else it is a reporter with the text its read
  // ended with. Whoever has stored the flag has stored it.
  ghost predicate NobodyIsIgnored(s: State) {
    && (s.monitor.Quiet? ==> s.stop)
    && (s.monitor.Reporting? <==> MONITOR_THREAD in s.reporters)
    && (s.monitor.Reporting? ==> MessageOf(s.reporters[MONITOR_THREAD]) == s.monitor.message)
    && (forall t :: t in s.reporters && (s.reporters[t].Stored? || s.reporters[t].Finished?) ==> s.stop && s.slot.Some?)
  }

  ghost predicate Invariant(s: State) {
    LockHeld(s) && SlotIsFirst(s) && StopIsJustified(s) && NobodyIsIgnored(s)
  }

  lemma StepKeepsLock(s: State, step: Step)
    requires LockHeld(s) && Enabled(s, step)
    ensures LockHeld(Apply(s, step))
  {
  }

  lemma StepKeepsSlot(s: State, step: Step)
    requires LockHeld(s) && SlotIsFirst(s) && Enabled(s, step)
    ensures SlotIsFirst(Apply(s, step))
    ensures s.slot.Some? ==> Apply(s, step).slot == s.slot
  {
  }

  lemma StepKeepsJustification(s: State, step: Step)
    requires SlotIsFirst(s) && StopIsJustified(s) && Enabled(s, step)
    requires s.slot.Some? ==> Apply(s, step).slot == s.slot
    ensures StopIsJustified(Apply(s, step))
    ensures s.stop ==> Apply(s, step).stop
  {
    if step.StoreStop? {
      assert PastSlot(s.reporters[step.t]);
    }
    hide SlotIsFirst;
  }

  lemma StepKeepsHeard(s: State, step: Step)
    requires LockHeld(s) && SlotIsFirst(s) && StopIsJustified(s) && NobodyIsIgnored(s) && Enabled(s, step)
    ensures NobodyIsIgnored(Apply(s, step))
  {
    hide LockHeld;
    if step.StoreStop? {
      assert PastSlot(s.reporters[step.t]);
    }
  }

  lemma StepKeepsInvariant(s: State, step: Step)
    requires Invariant(s) && Enabled(s, step)
    ensures Invariant(Apply(s, step))
    ensures s.stop ==> Apply(s, step).stop
    ensures s.slot.Some? ==> Apply(s, step).slot == s.slot
  {
    StepKeepsLock(s, step);
    StepKeepsSlot(s, step);
    StepKeepsJustification(s, step);
    StepKeepsHeard(s, step);
    hide LockHeld, SlotIsFirst, StopIsJustified, NobodyIsIgnored, Apply, Enabled;
  }

  lemma {:induction false} RunKeepsInvariant(s: State, steps: seq<Step>, s': State)
    requires Invariant(s) && Reaches(s, steps, s')
    ensures Invariant(s')
    ensures s.stop ==> s'.stop
    ensures s.slot.Some? ==> s'.slot == s.slot
    decreases |steps|
  {
    if steps != [] {
      StepKeepsInvariant(s, steps[0]);
      RunKeepsInvariant(Apply(s, steps[0]), steps[1..], s');
    }
  }

  // In every interleaving: the slot is written at most once, with the text of the first reporter
  // to get the lock; the reason given for stopping is that text, or else an interrupt that came
  // with no reporter having stored the flag; and the client's own shutdown of the monitor socket
  // is never reported.
  lemma ShutdownIsSafe(steps: seq<Step>, s: State)
    requires Reaches(INITIAL, steps, s)
    ensures |s.writes| <= 1
    ensures s.slot.Some? ==> s.first.Some? && s.first.value in s.reporters && s.writes == [s.slot.value]
    ensures s.slot.Some? ==> s.slot.value == s.reporters[s.first.value].message
    ensures s.main.Decided? || s.main.ShutDown? || s.main.Joined? ==>
              match s.main.reason
              case ServerDisconnected(m) => s.slot == Some(m)
              case Interrupted => s.ctrlC && !s.main.storedThen
    ensures s.stop ==> s.ctrlC || s.slot.Some?
    ensures s.monitor.Reporting? ==> !s.monitor.own
  {
    RunKeepsInvariant(INITIAL, steps, s);
  }

  // The flag never clears and the slot never changes again, from any reachable state on.
  lemma StopIsForGood(steps: seq<Step>, mid: State, rest: seq<Step>, end: State)
    requires Reaches(INITIAL, steps, mid) && Reaches(mid, rest, end)
    ensures mid.stop ==> end.stop
    ensures mid.slot.Some? ==> end.slot == mid.slot
    ensures mid.main.Decided? && end.main.Joined? ==> end.main.reason == mid.main.reason
  {
    RunKeepsInvariant(INITIAL, steps, mid);
    RunKeepsInvariant(mid, rest, end);
    DecisionStands(mid, rest, end);
    if mid.main.Decided? {
      assert HasDecided(mid.main, mid.main.reason);
    }
  }

  predicate HasDecided(main: Main, reason: Reason) {
    (main.Decided? || main.ShutDown? || main.Joined?) && main.reason == reason
  }

  lemma {:induction false} DecisionStands(s: State, steps: seq<Step>, s': State)
    requires Reaches(s, steps, s')
    ensures forall reason :: HasDecided(s.main, reason) ==> HasDecided(s'.main, reason)
    decreases |steps|
  {
    if steps != [] {
      DecisionStands(Apply(s, steps[0]), steps[1..], s');
    }
  }

  // A text that is in the slot before the reason is decided is the reason decided, in every run.
  lemma SlotDecides(steps: seq<Step>, mid: State, rest: seq<Step>, end: State)
    requires Reaches(INITIAL, steps, mid) && Reaches(mid, rest, end)
    requires mid.slot.Some? && (mid.main.Starting? || mid.main.Polling? || mid.main.SawStop?)
    ensures end.main.Decided? || end.main.ShutDown? || end.main.Joined? ==> end.main.reason == ServerDisconnected(mid.slot.value)
  {
    RunKeepsInvariant(INITIAL, steps, mid);
    SlotDecidesFrom(mid, rest, end);
  }

  lemma {:induction false} SlotDecidesFrom(s: State, rest: seq<Step>, end: State)
    requires Invariant(s) && Reaches(s, rest, end)
    requires s.slot.Some? && (s.main.Starting? || s.main.Polling? || s.main.SawStop?)
    ensures end.main.Decided? || end.main.ShutDown? || end.main.Joined? ==> end.main.reason == ServerDisconnected(s.slot.value)
    decreases |rest|
  {
    hide Invariant;
    if rest != [] {
      StepKeepsInvariant(s, rest[0]);
      var s' := Apply(s, rest[0]);
      if rest[0].ReadReason? {
        assert HasDecided(s'.main, ServerDisconnected(s.slot.value));
        DecisionStands(s', rest[1..], end);
      } else {
        SlotDecidesFrom(s', rest[1..], end);
      }
    }
  }

  // ---- A lost connection is not passed over ----

  // In every reachable state a quiet monitor has seen the flag, a reporting one carries the text its
  // read ended with, and whoever is through reporting has left flag and message.
  lemma LossIsNotIgnored(steps: seq<Step>, s: State)
    requires Reaches(INITIAL, steps, s)
    ensures s.monitor.Quiet? ==> s.stop
    ensures s.monitor.Reporting? ==> MONITOR_THREAD in s.reporters && MessageOf(s.reporters[MONITOR_THREAD]) == s.monitor.message
    ensures forall t :: t in s.reporters && s.reporters[t].Finished? ==> s.stop && s.slot.Some?
  {
    RunKeepsInvariant(INITIAL, steps, s);
  }

  // A monitor whose read ends while the flag is clear becomes a reporter of that very text.
  lemma MonitorReports(steps: seq<Step>, s: State, message: string)
    requires Reaches(INITIAL, steps, s) && s.monitor.Blocked? && !s.stop
    ensures Enabled(s, MonitorReturns(message, false))
    ensures var s1 := Apply(s, MonitorReturns(message, false));
            && Enabled(s1, MonitorChecks)
            && var s2 := Apply(s1, MonitorChecks);
               s2.monitor == Reporting(message, false) && MONITOR_THREAD in s2.reporters && s2.reporters[MONITOR_THREAD] == Waiting(message)
  {
    RunKeepsInvariant(INITIAL, steps, s);
  }

  // ---- The mount can always stop ----

  ghost predicate Leads(s: State, s': State) {
    exists steps :: Reaches(s, steps, s')
  }

  lemma LeadsNowhere(s: State)
    ensures Leads(s, s)
  {
    assert Reaches(s, [], s);
  }

  lemma LeadsOn(s: State, step: Step, s': State)
    requires Enabled(s, step) && Leads(Apply(s, step), s')
    ensures Leads(s, s')
  {
    var steps :| Reaches(Apply(s, step), steps, s');
    assert ([step] + steps)[1..] == steps;
    assert Reaches(s, [step] + steps, s');
  }

  lemma {:induction false} LeadsAlong(a: State, steps: seq<Step>, b: State, c: State)
    requires Reaches(a, steps, b) && Leads(b, c)
    ensures Leads(a, c)
    decreases |steps|
  {
    if steps != [] {
      LeadsAlong(Apply(a, steps[0]), steps[1..], b, c);
      LeadsOn(a, steps[0], c);
    }
  }

  lemma LeadsTransitive(a: State, b: State, c: State)
    requires Leads(a, b) && Leads(b, c)
    ensures Leads(a, c)
  {
    var steps :| Reaches(a, steps, b);
    LeadsAlong(a, steps, b, c);
  }

  lemma OneStep(a: State, s: State, step: Step) returns (s': State)
    requires Leads(a, s) && Invariant(s) && Enabled(s, step)
    ensures s' == Apply(s, step) && Leads(a, s') && Invariant(s')
  {
    hide Invariant, Leads;
    s' := Apply(s, step);
    StepKeepsInvariant(s, step);
    LeadsNowhere(s');
    LeadsOn(s, step, s');
    LeadsTransitive(a, s, s');
  }

  predicate Undecided(main: Main) {
    main.Starting? || main.Polling? || main.SawStop?
  }

  // What one thread's report leaves alone.
  ghost predicate OnlyReports(s: State, s': State, t: nat) {
    && s'.main == s.main && s'.monitor == s.monitor && s'.ctrlC == s.ctrlC
    && s'.reporters.Keys == s.reporters.Keys
    && forall k :: k in s.reporters && k != t ==> s'.reporters[k] == s.reporters[k]
  }

  lemma ReporterSettles(a: State, s: State, t: nat) returns (s': State)
    requires Leads(a, s) && Invariant(s) && t in s.reporters && (s.lock.None? || s.lock == Some(t))
    ensures Leads(a, s') && Invariant(s') && OnlyReports(s, s', t) && PastSlot(s'.reporters[t]) && s'.slot.Some?
    ensures if s'.reporters[t].Finished? then s'.lock.None? && s'.stop else s'.lock == Some(t)
    ensures s'.reporters[t].Stored? ==> s'.stop
    ensures s.slot.Some? ==> s'.slot == s.slot
    ensures s.first.None? ==> s'.slot == Some(MessageOf(s.reporters[t]))
  {
    hide Leads, StopIsJustified;
    s' := s;
    if s'.reporters[t].Waiting? {
      s' := OneStep(a, s', TakeLock(t));
    }
    if s'.reporters[t].Locked? {
      s' := OneStep(a, s', SettleSlot(t));
    }
  }

  // A reporter whom nobody keeps from the lock gets through, leaving the flag, a message and the
  // lock free; the first one leaves its own text.
  lemma ReporterFinishes(a: State, s: State, t: nat) returns (s': State)
    requires Leads(a, s) && Invariant(s) && t in s.reporters && (s.lock.None? || s.lock == Some(t))
    ensures Leads(a, s') && Invariant(s') && OnlyReports(s, s', t)
    ensures s'.lock.None? && s'.reporters[t].Finished? && s'.stop && s'.slot.Some?
    ensures s.slot.Some? ==> s'.slot == s.slot
    ensures s.first.None? ==> s'.slot == Some(MessageOf(s.reporters[t]))
  {
    hide Leads, Invariant;
    s' := ReporterSettles(a, s, t);
    if s'.reporters[t].Settled? {
      s' := OneStep(a, s', StoreStop(t));
    }
    if s'.reporters[t].Stored? {
      s' := OneStep(a, s', DropLock(t));
    }
  }

  lemma LockFrees(a: State, s: State) returns (s': State)
    requires Leads(a, s) && Invariant(s)
    ensures Leads(a, s') && Invariant(s') && s'.lock.None?
    ensures s'.main == s.main && s'.monitor == s.monitor && s'.ctrlC == s.ctrlC && s'.reporters.Keys == s.reporters.Keys
    ensures (s.stop ==> s'.stop) && (s.slot.Some? ==> s'.slot == s.slot)
  {
    hide Leads;
    s' := s;
    if s.lock.Some? {
      s' := ReporterFinishes(a, s, s.lock.value);
    }
  }

  // The monitor thread ends: its read does when the socket is shut down, and it sees the flag.
  lemma MonitorEnds(a: State, s: State) returns (s': State)
    requires Leads(a, s) && Invariant(s) && s.main.ShutDown? && s.stop && s.lock.None?
    ensures Leads(a, s') && Invariant(s') && s'.main == s.main && s'.ctrlC == s.ctrlC && s'.reporters.Keys == s.reporters.Keys
    ensures Enabled(s', Join)
  {
    hide Leads;
    s' := s;
    if s'.monitor.Blocked? {
      s' := OneStep(a, s', MonitorReturns("", true));
    }
    if s'.monitor.Returned? {
      s' := OneStep(a, s', MonitorChecks);
    }
    if s'.monitor.Reporting? {
      s' := ReporterFinishes(a, s', MONITOR_THREAD);
    }
  }

  lemma MainDecides(a: State, s: State) returns (s': State)
    requires Leads(a, s) && Invariant(s) && s.stop
    ensures Leads(a, s') && Invariant(s') && s'.stop && s'.lock.None? && !Undecided(s'.main)
    ensures s'.ctrlC == s.ctrlC && s'.reporters.Keys == s.reporters.Keys
    ensures Undecided(s.main) && s.slot.Some? ==> HasDecided(s'.main, ServerDisconnected(s.slot.value))
  {
    hide Leads, Invariant;
    s' := LockFrees(a, s);
    if s'.main.Starting? {
      s' := OneStep(a, s', InstallHandler);
    }
    if s'.main.Polling? {
      s' := OneStep(a, s', Poll);
    }
    if s'.main.SawStop? {
      s' := OneStep(a, s', ReadReason);
    }
  }

  // With the flag up the main loop gets through to the end.
  lemma MainEnds(a: State, s: State) returns (s': State)
    requires Leads(a, s) && Invariant(s) && s.stop
    ensures Leads(a, s') && Invariant(s') && s'.main.Joined?
    ensures s'.ctrlC == s.ctrlC && s'.reporters.Keys == s.reporters.Keys
    ensures Undecided(s.main) && s.slot.Some? ==> s'.main.reason == ServerDisconnected(s.slot.value)
  {
    hide Leads, Invariant;
    s' := MainDecides(a, s);
    if s'.main.Decided? {
      s' := OneStep(a, s', ShutMonitor);
    }
    if s'.main.ShutDown? {
      s' := MonitorEnds(a, s');
      s' := OneStep(a, s', Join);
    }
  }

  // From every reachable state with the flag up or a report under way the mount can come to its
  // end; with no Ctrl+C, as disconnected.
  lemma ReportStopsTheMount(steps: seq<Step>, s: State) returns (end: State)
    requires Reaches(INITIAL, steps, s) && (s.stop || s.reporters != map[])
    ensures Leads(s, end) && end.main.Joined? && (!s.ctrlC ==> end.main.reason.ServerDisconnected?)
  {
    RunKeepsInvariant(INITIAL, steps, s);
    LeadsNowhere(s);
    hide Leads;
    end := LockFrees(s, s);
    if !end.stop {
      var t :| t in end.reporters;
      end := ReporterFinishes(s, end, t);
    }
    end := MainEnds(s, end);
  }

  // Ctrl+C, once its handler is there, can always bring the mount to its end; with nobody having
  // lost a connection and no reason given yet, as interrupted.
  lemma CtrlCStopsTheMount(steps: seq<Step>, s: State) returns (end: State)
    requires Reaches(INITIAL, steps, s) && !s.main.Starting?
    ensures Enabled(s, CtrlC) && Leads(Apply(s, CtrlC), end) && end.main.Joined?
    ensures s.reporters == map[] && Undecided(s.main) ==> end.main.reason == Interrupted
  {
    RunKeepsInvariant(INITIAL, steps, s);
    StepKeepsInvariant(s, CtrlC);
    var s1 := Apply(s, CtrlC);
    LeadsNowhere(s1);
    hide Leads;
    end := MainEnds(s1, s1);
    assert s.reporters == map[] ==> end.reporters.Keys == {};
  }

  // The first request to lose its connection can be the reason the mount gives, word for word.
  lemma FirstLossIsTheReason(steps: seq<Step>, s: State, t: nat, message: string) returns (end: State)
    requires Reaches(INITIAL, steps, s) && Undecided(s.main) && s.first.None? && t != MONITOR_THREAD && t !in s.reporters
    ensures Enabled(s, RequestLosesConnection(t, message))
    ensures Leads(Apply(s, RequestLosesConnection(t, message)), end) && end.main.Joined?
    ensures end.main.reason == ServerDisconnected(message)
  {
    RunKeepsInvariant(INITIAL, steps, s);
    StepKeepsInvariant(s, RequestLosesConnection(t, message));
    var s1 := Apply(s, RequestLosesConnection(t, message));
    LeadsNowhere(s1);
    hide Leads;
    end := ReporterFinishes(s1, s1, t);
    end := MainEnds(s1, end);
  }

  // And so can the monitor's.
  lemma MonitorLossIsTheReason(steps: seq<Step>, s: State, message: string) returns (end: State)
    requires Reaches(INITIAL, steps, s) && Undecided(s.main) && s.first.None? && s.monitor.Blocked? && !s.stop
    ensures Enabled(s, MonitorReturns(message, false))
    ensures Leads(Apply(s, MonitorReturns(message, false)), end) && end.main.Joined?
    ensures end.main.reason == ServerDisconnected(message)
  {
    RunKeepsInvariant(INITIAL, steps, s);
    MonitorReports(steps, s, message);
    StepKeepsInvariant(s, MonitorReturns(message, false));
    var s1 := Apply(s, MonitorReturns(message, false));
    LeadsNowhere(s1);
    hide Leads;
    end := OneStep(s1, s1, MonitorChecks);
    end := ReporterFinishes(s1, end, MONITOR_THREAD);
    end := MainEnds(s1, end);
  }
}
