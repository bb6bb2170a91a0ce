/**
 Starting, stopping and auto-locking the watcher: src/watcher/mod.rs, around the manager lock. Worker threads run
 beside one API call that holds the lock; `Idle` means that the lock is free. Only safety is stated: an API call
 waits for a worker while it holds the lock that the worker may want.
 */
module WatcherLifecycle {
  import opened Outcomes
  import opened Csv

  const LOG_LIMIT: nat := 1000

  /** What a worker thread is doing. */
  datatype Phase =
    | Polling
    | Pushing(entry: AuditEntry)  // has encrypted a file, wants the lock to log it
    | Expiring                    // has been idle too long, wants the lock to say so
    | Exited

  datatype Intent = ToStart(keyfilesReadable: bool) | ToStop

  /** How far the API call that holds the lock has got. */
  datatype Call =
    | Idle
    | Joining(worker: nat, intent: Intent)
    | Joined(intent: Intent)
    | Spawned(worker: nat)

  datatype State = State(
    call: Call,
    workers: map<nat, Phase>,
    stopped: set<nat>,
    handle: Option<nat>,
    isActive: bool,
    autoLocked: bool,
    processedCount: nat,
    auditLog: seq<AuditEntry>
  ) {
    predicate Alive(id: nat) {
      id in workers && workers[id] != Exited
    }
  }

  datatype Action =
    | Acquire(intent: Intent)              // take the lock and the handle, raise the stop signal
    | Join                                 // the worker waited for has exited
    | FailStart                            // the keyfiles could not be read; the lock is released
    | Spawn(worker: nat)
    | FinishStart                          // store the handle, reset the status, release the lock
    | FinishStop
    | Encrypt(worker: nat, entry: AuditEntry)
    | Push(worker: nat)
    | Expire(worker: nat)
    | AutoLock(worker: nat)
    | Exit(worker: nat)                    // sees the stop signal

  function Initial(): State {
    State(Idle, map[], {}, None, false, false, 0, [])
  }

  predicate Enabled(s: State, a: Action) {
    match a
    case Acquire(_) => s.call.Idle?
    case Join => s.call.Joining? && !s.Alive(s.call.worker)
    case FailStart => s.call == Joined(ToStart(false))
    case Spawn(id) => s.call == Joined(ToStart(true)) && id !in s.workers
    case FinishStart => s.call.Spawned?
    case FinishStop => s.call == Joined(ToStop)
    case Encrypt(id, _) => id in s.workers && s.workers[id].Polling?
    case Push(id) => s.call.Idle? && id in s.workers && s.workers[id].Pushing?
    case Expire(id) => id in s.workers && s.workers[id].Polling?
    case AutoLock(id) => s.call.Idle? && id in s.workers && s.workers[id].Expiring?
    case Exit(id) => id in s.workers && s.workers[id].Polling? && id in s.stopped
  }

  /** Appends an entry and drops the oldest one when there are too many. */
  function Appended(log: seq<AuditEntry>, e: AuditEntry): seq<AuditEntry> {
    var longer := log + [e];
    if |longer| > LOG_LIMIT then longer[1..] else longer
  }

  function Do(s: State, a: Action): State
    requires Enabled(s, a)
  {
    match a
    case Acquire(intent) =>
      (match s.handle
       case None => s.(call := Joined(intent))
       case Some(id) => s.(call := Joining(id, intent), handle := None, stopped := s.stopped + {id}))
    case Join => s.(call := Joined(s.call.intent))
    case FailStart => s.(call := Idle)
    case Spawn(id) => s.(call := Spawned(id), workers := s.workers[id := Polling])
    case FinishStart =>
      s.(call := Idle, handle := Some(s.call.worker), isActive := true, autoLocked := false, processedCount := 0,
        auditLog := [])
    case FinishStop => s.(call := Idle, isActive := false)
    case Encrypt(id, e) => s.(workers := s.workers[id := Pushing(e)])
    case Push(id) =>
      s.(workers := s.workers[id := Polling], processedCount := s.processedCount + 1,
         auditLog := Appended(s.auditLog, s.workers[id].entry))
    case Expire(id) => s.(workers := s.workers[id := Expiring])
    case AutoLock(id) => s.(workers := s.workers[id := Exited], isActive := false, autoLocked := true)
    case Exit(id) => s.(workers := s.workers[id := Exited])
  }

  datatype Run = Run(states: seq<State>, actions: seq<Action>)

  ghost predicate IsRun(r: Run) {
    && |r.states| == |r.actions| + 1
    && r.states[0] == Initial()
    && forall i :: 0 <= i < |r.actions| ==>
         Enabled(r.states[i], r.actions[i]) && r.states[i + 1] == Do(r.states[i], r.actions[i])
  }

  // At most one worker, and its handle is known whenever the lock is free.

  /** Who may be alive at each stage of a call. */
  ghost predicate OneWorker(s: State) {
    match s.call
    case Idle =>
      && (forall id: nat :: s.Alive(id) ==> s.handle == Some(id))
      && (s.isActive && s.handle.Some? <==> exists id: nat :: s.Alive(id))
    case Joining(w, _) => s.handle == None && forall id: nat :: s.Alive(id) ==> id == w
    case Joined(_) => s.handle == None && forall id: nat :: !s.Alive(id)
    case Spawned(w) => s.handle == None && s.Alive(w) && forall id: nat :: s.Alive(id) ==> id == w
  }

  ghost predicate Safe(s: State) {
    && OneWorker(s)
    && (s.call.Idle? && s.handle.Some? ==> s.handle.value !in s.stopped)
    && (s.call.Spawned? ==> s.call.worker !in s.stopped)
    && (forall id: nat :: id in s.stopped ==> id in s.workers)
    && (s.handle.Some? ==> s.handle.value in s.workers)
    && (s.autoLocked ==> !s.isActive)
  }

  lemma StepIsSafe(s: State, a: Action)
    requires Safe(s) && Enabled(s, a)
    ensures Safe(Do(s, a))
  {
    hide Appended;
    var s' := Do(s, a);
    match a {
      case Acquire(_) =>
        assert forall id: nat :: s'.Alive(id) <==> s.Alive(id);
      case Join =>
        assert forall id: nat :: s'.Alive(id) <==> s.Alive(id);
      case FailStart =>
        assert forall id: nat :: s'.Alive(id) <==> s.Alive(id);
      case Spawn(w) =>
        assert forall id: nat :: s'.Alive(id) <==> s.Alive(id) || id == w;
      case FinishStart =>
        assert s'.Alive(s.call.worker) && forall id: nat :: s'.Alive(id) <==> s.Alive(id);
      case FinishStop =>
        assert forall id: nat :: s'.Alive(id) <==> s.Alive(id);
      case Encrypt(w, _) =>
        assert s.Alive(w) && forall id: nat :: s'.Alive(id) <==> s.Alive(id);
      case Push(w) =>
        assert s.Alive(w) && forall id: nat :: s'.Alive(id) <==> s.Alive(id);
      case Expire(w) =>
        assert s.Alive(w) && forall id: nat :: s'.Alive(id) <==> s.Alive(id);
      case AutoLock(w) =>
        assert s.Alive(w) && forall id: nat :: s'.Alive(id) <==> s.Alive(id) && id != w;
      case Exit(w) =>
        assert s.Alive(w) && forall id: nat :: s'.Alive(id) <==> s.Alive(id) && id != w;
    }
  }

  lemma {:induction false} RunIsSafe(r: Run, k: nat)
    requires IsRun(r) && k < |r.states|
    ensures Safe(r.states[k])
  {
    hide Safe, Do, Enabled;
    if k == 0 {
      InitialIsSafe();
    } else {
      RunIsSafe(r, k - 1);
      StepIsSafe(r.states[k - 1], r.actions[k - 1]);
    }
  }

  lemma EndIsSafe(r: Run)
    requires IsRun(r)
    ensures Safe(r.states[|r.actions|])
  {
    RunIsSafe(r, |r.actions|);
  }

  lemma InitialIsSafe()
    ensures Safe(Initial())
  {
  }

  /**
   Whenever the lock is free, at most one worker is alive and its handle is stored; the status says active, with a
   handle stored, exactly when one is; and an auto-locked watcher is not active.
   */
  lemma AtMostOneWorker(r: Run, k: nat, i: nat, j: nat)
    requires IsRun(r) && k < |r.states| && r.states[k].call.Idle?
    ensures r.states[k].Alive(i) && r.states[k].Alive(j) ==> i == j
    ensures r.states[k].Alive(i) ==> r.states[k].handle == Some(i)
    ensures r.states[k].isActive && r.states[k].handle.Some? <==> exists id: nat :: r.states[k].Alive(id)
    ensures r.states[k].autoLocked ==> !r.states[k].isActive
  {
    hide IsRun;
    RunIsSafe(r, k);
  }

  /** Even while a call is under way there is never a second worker. */
  lemma NeverTwoWorkers(r: Run, k: nat, i: nat, j: nat)
    requires IsRun(r) && k < |r.states|
    requires r.states[k].Alive(i) && r.states[k].Alive(j)
    ensures i == j
  {
    hide IsRun;
    RunIsSafe(r, k);
  }

  /** Active, by the flag alone. */
  ghost predicate Stale(s: State) {
    s.call.Idle? && s.isActive && forall id: nat :: !s.Alive(id)
  }

  /** The active flag alone is not enough: after a restart that fails it stays up without a worker. */
  lemma ActiveFlagCanBeStale()
    ensures exists r: Run :: IsRun(r) && Stale(r.states[|r.actions|])
  {
    var s0 := Initial();
    var actions := [Acquire(ToStart(true)), Spawn(0), FinishStart, Acquire(ToStart(false)), Exit(0), Join, FailStart];
    var s1 := Do(s0, actions[0]);
    var s2 := Do(s1, actions[1]);
    var s3 := Do(s2, actions[2]);
    var s4 := Do(s3, actions[3]);
    var s5 := Do(s4, actions[4]);
    var s6 := Do(s5, actions[5]);
    var s7 := Do(s6, actions[6]);
    hide Do;
    var r := Run([s0, s1, s2, s3, s4, s5, s6, s7], actions);
    assert IsRun(r);
    assert r.states[|r.actions|] == s7;
  }

  /** How the last finished call ended. */
  datatype Ending = NoneYet | FailedStart | Started | Stopped

  function LastEnding(r: Run, k: nat): Ending
    requires |r.states| == |r.actions| + 1 && k < |r.states|
  {
    if k == 0 then NoneYet
    else match r.actions[k - 1]
      case FailStart => FailedStart
      case FinishStart => Started
      case FinishStop => Stopped
      case _ => LastEnding(r, k - 1)
  }

  /** What the ending says about the handle and the flag. */
  predicate Shows(s: State, ending: Ending) {
    match ending
    case NoneYet => !s.isActive
    case FailedStart => s.call.Idle? ==> s.handle == None
    case Started => s.call.Idle? ==> s.handle.Some?
    case Stopped => !s.isActive
  }

  lemma {:induction false} EndingShows(r: Run, k: nat)
    requires IsRun(r) && k < |r.states|
    ensures Shows(r.states[k], LastEnding(r, k))
  {
    hide Appended;
    if k > 0 {
      EndingShows(r, k - 1);
      RunIsSafe(r, k - 1);
      assert Enabled(r.states[k - 1], r.actions[k - 1]) && r.states[k] == Do(r.states[k - 1], r.actions[k - 1]);
    }
  }

  /**
   Exactly when the flag is right. Whenever the lock is free, an active flag means a live worker, unless the flag is
   up and the last call that ended was a start that failed; a caller can see both.
   */
  lemma ActiveMeansAliveExactly(r: Run, k: nat)
    requires IsRun(r) && k < |r.states| && r.states[k].call.Idle?
    ensures var s := r.states[k];
            (s.isActive ==> exists id: nat :: s.Alive(id)) <==> !(s.isActive && LastEnding(r, k) == FailedStart)
  {
    hide IsRun;
    RunIsSafe(r, k);
    EndingShows(r, k);
  }

  // What the flags of the status say.

  /** Which actions touch the flags. */
  lemma FlagsAfter(s: State, a: Action)
    requires Enabled(s, a)
    ensures Do(s, a).autoLocked == (a.AutoLock? || (!a.FinishStart? && s.autoLocked))
    ensures Do(s, a).isActive == (a.FinishStart? || (!a.FinishStop? && !a.AutoLock? && s.isActive))
  {
    hide Appended;
  }

  /** Which of a start and an auto-lock came last. */
  function LockedLast(r: Run, k: nat): bool
    requires k <= |r.actions|
  {
    k > 0 && (r.actions[k - 1].AutoLock? || (!r.actions[k - 1].FinishStart? && LockedLast(r, k - 1)))
  }

  /**
   The watcher says that it has locked itself if and only if the last start or auto-lock of the run was an auto-lock.
   */
  lemma {:induction false} AutoLockedExactly(r: Run, k: nat)
    requires IsRun(r) && k < |r.states|
    ensures r.states[k].autoLocked <==> LockedLast(r, k)
  {
    hide Do, Enabled;
    if k > 0 {
      AutoLockedExactly(r, k - 1);
      assert Enabled(r.states[k - 1], r.actions[k - 1]) && r.states[k] == Do(r.states[k - 1], r.actions[k - 1]);
      FlagsAfter(r.states[k - 1], r.actions[k - 1]);
    }
  }

  /** What changed the active flag last: a start that succeeded raises it, a stop and an auto-lock lower it. */
  function RaisedLast(r: Run, k: nat): bool
    requires k <= |r.actions|
  {
    k > 0 && (r.actions[k - 1].FinishStart?
              || (!r.actions[k - 1].FinishStop? && !r.actions[k - 1].AutoLock? && RaisedLast(r, k - 1)))
  }

  lemma {:induction false} ActiveExactly(r: Run, k: nat)
    requires IsRun(r) && k < |r.states|
    ensures r.states[k].isActive <==> RaisedLast(r, k)
  {
    hide Do, Enabled;
    if k > 0 {
      ActiveExactly(r, k - 1);
      assert Enabled(r.states[k - 1], r.actions[k - 1]) && r.states[k] == Do(r.states[k - 1], r.actions[k - 1]);
      FlagsAfter(r.states[k - 1], r.actions[k - 1]);
    }
  }

  /**
   The worker that a call waits for has been told to stop, and the one whose handle is stored has not; so the first can
   exit whenever it polls, and the second cannot until a call takes its handle.
   */
  lemma SignalsAreRight(r: Run, k: nat)
    requires IsRun(r) && k < |r.states|
    ensures Signalled(r.states[k])
    ensures var s := r.states[k];
            && (s.call.Joining? && s.call.worker in s.workers && s.workers[s.call.worker].Polling? ==>
                  Enabled(s, Exit(s.call.worker)))
            && (s.handle.Some? ==> !Enabled(s, Exit(s.handle.value)))
    decreases k
  {
    hide Do, Safe;
    if k > 0 {
      SignalsAreRight(r, k - 1);
      var s, a := r.states[k - 1], r.actions[k - 1];
      assert Enabled(s, a) && r.states[k] == Do(s, a);
      SpawnedIsNotStopped(r, k - 1);
      SignalledStays(s, a);
    }
  }

  /** The worker waited for has its signal raised, and the one with the handle has not. */
  predicate Signalled(s: State) {
    && (s.call.Joining? ==> s.call.worker in s.stopped)
    && (s.handle.Some? ==> s.handle.value !in s.stopped)
  }

  lemma SignalledStays(s: State, a: Action)
    requires Enabled(s, a) && Signalled(s) && (s.call.Spawned? ==> s.call.worker !in s.stopped)
    ensures Signalled(Do(s, a))
  {
    hide Appended;
  }

  lemma SpawnedIsNotStopped(r: Run, k: nat)
    requires IsRun(r) && k < |r.states|
    ensures r.states[k].call.Spawned? ==> r.states[k].call.worker !in r.states[k].stopped
  {
    hide IsRun;
    RunIsSafe(r, k);
  }

  // Where the whole stands still.

  /** A call waits for a worker that wants the lock the call holds. */
  predicate Deadlocked(s: State) {
    && s.call.Joining? && s.call.worker in s.workers
    && (s.workers[s.call.worker].Pushing? || s.workers[s.call.worker].Expiring?)
  }

  /** A number no worker has yet. */
  lemma {:induction false} FreshWorker(used: set<nat>) returns (id: nat)
    ensures id !in used && forall u :: u in used ==> u < id
    decreases used
  {
    if used == {} {
      id := 0;
    } else {
      var u :| u in used;
      var n := FreshWorker(used - {u});
      id := if u < n then n else u + 1;
      forall v | v in used
        ensures v < id
      {
        assert v == u || v in used - {u};
      }
    }
  }

  /** An action that is possible unless there is a deadlock. */
  lemma NextAction(s: State) returns (a: Action)
    requires Safe(s) && !Deadlocked(s)
    ensures Enabled(s, a)
  {
    match s.call
    case Idle => a := Acquire(ToStop);
    case Joining(w, _) => a := if s.Alive(w) then Expire(w) else Join;
    case Joined(ToStop) => a := FinishStop;
    case Joined(ToStart(readable)) =>
      var id := FreshWorker(s.workers.Keys);
      a := if readable then Spawn(id) else FailStart;
    case Spawned(_) => a := FinishStart;
  }

  /**
   Nothing can happen any more exactly when a call waits for a worker that has just encrypted a file, or has just been
   idle for too long: the worker wants the lock to say so, and the call holds it.
   */
  lemma StandsStillExactly(r: Run, k: nat)
    requires IsRun(r) && k < |r.states|
    ensures (forall a :: !Enabled(r.states[k], a)) <==> Deadlocked(r.states[k])
  {
    hide IsRun, Enabled, Deadlocked, Safe;
    RunIsSafe(r, k);
    if Deadlocked(r.states[k]) {
      forall a
        ensures !Enabled(r.states[k], a)
      {
        NoAction(r.states[k], a);
      }
    } else {
      var a := NextAction(r.states[k]);
    }
  }

  lemma NoAction(s: State, a: Action)
    requires Safe(s) && Deadlocked(s)
    ensures !Enabled(s, a)
  {
    if a.Encrypt? || a.Expire? || a.Exit? {
      assert s.Alive(a.worker) ==> a.worker == s.call.worker;
    }
  }

  /** Such a point can be reached: by stopping a watcher between the encryption of a file and its log entry. */
  lemma StopCanDeadlock(e: AuditEntry)
    ensures exists r: Run :: IsRun(r) && StartedWatcher() < r.actions && Deadlocked(r.states[|r.actions|])
  {
    var actions := StartedWatcher() + [Encrypt(0, e), Acquire(ToStop)];
    var s0 := Initial();
    var s1 := Do(s0, actions[0]);
    var s2 := Do(s1, actions[1]);
    var s3 := Do(s2, actions[2]);
    var s4 := Do(s3, actions[3]);
    var s5 := Do(s4, actions[4]);
    hide Do;
    var r := Run([s0, s1, s2, s3, s4, s5], actions);
    assert IsRun(r);
    assert r.states[|r.actions|] == s5;
  }

  function StartedWatcher(): seq<Action> {
    [Acquire(ToStart(true)), Spawn(0), FinishStart]
  }

  // The audit log.

  /** The worker of the last start that succeeded. */
  function LastStarted(r: Run, k: nat): Option<nat>
    requires |r.states| == |r.actions| + 1 && k < |r.states|
  {
    if k == 0 then None
    else if r.actions[k - 1].FinishStart? && r.states[k - 1].call.Spawned? then Some(r.states[k - 1].call.worker)
    else LastStarted(r, k - 1)
  }

  /** The entries of what a worker has encrypted, oldest first. */
  function EncryptedBy(r: Run, k: nat, worker: nat): seq<AuditEntry>
    requires k <= |r.actions|
  {
    if k == 0 then [] else EncryptedBy(r, k - 1, worker) + EncryptedIn(r.actions[k - 1], worker)
  }

  function EncryptedIn(a: Action, worker: nat): seq<AuditEntry> {
    if a.Encrypt? && a.worker == worker then [a.entry] else []
  }

  /** What a worker has encrypted but not logged yet. */
  function Pending(s: State, worker: nat): seq<AuditEntry> {
    if worker in s.workers && s.workers[worker].Pushing? then [s.workers[worker].entry] else []
  }

  function LastOf(log: seq<AuditEntry>, n: nat): seq<AuditEntry> {
    if |log| <= n then log else log[|log| - n..]
  }

  lemma AppendedKeepsLast(log: seq<AuditEntry>, e: AuditEntry)
    ensures Appended(LastOf(log, LOG_LIMIT), e) == LastOf(log + [e], LOG_LIMIT)
  {
  }

  /** The counter and the log account for all a worker has encrypted, but for what is pending. */
  ghost predicate Accounted(s: State, all: seq<AuditEntry>, worker: nat) {
    && |all| == s.processedCount + |Pending(s, worker)|
    && all[s.processedCount..] == Pending(s, worker)
    && s.auditLog == LastOf(all[..s.processedCount], LOG_LIMIT)
  }

  lemma AccountedStays(s: State, a: Action, all: seq<AuditEntry>, worker: nat)
    requires Enabled(s, a) && !a.FinishStart? && worker in s.workers && (a.Push? ==> a.worker == worker)
    requires Accounted(s, all, worker)
    ensures Accounted(Do(s, a), all + EncryptedIn(a, worker), worker)
  {
    hide LastOf, Accounted, Do, Enabled;
    if a.Push? {
      PushIsAccounted(s, all, worker);
      assert all + [] == all;
    } else {
      OthersAreAccounted(s, a, all, worker);
    }
  }

  /** Logging moves the pending entry to the end of the log. */
  lemma PushIsAccounted(s: State, all: seq<AuditEntry>, worker: nat)
    requires Enabled(s, Push(worker)) && Accounted(s, all, worker)
    ensures Accounted(Do(s, Push(worker)), all, worker)
  {
    hide Appended, LastOf;
    var e, p := s.workers[worker].entry, s.processedCount;
    assert Pending(s, worker) == [e] && |all| == p + 1;
    assert all == all[..p] + all[p..];
    AppendedKeepsLast(all[..p], e);
    assert all[..p + 1] == all && all[p + 1..] == [];
  }

  /** Nothing else changes the log, and what is encrypted is pending. */
  lemma OthersAreAccounted(s: State, a: Action, all: seq<AuditEntry>, worker: nat)
    requires Enabled(s, a) && !a.FinishStart? && !a.Push? && worker in s.workers && Accounted(s, all, worker)
    ensures Accounted(Do(s, a), all + EncryptedIn(a, worker), worker)
  {
    hide Appended, LastOf, Pending, EncryptedIn;
    PendingStays(s, a, worker);
    var p, all' := s.processedCount, all + EncryptedIn(a, worker);
    assert Do(s, a).processedCount == p && Do(s, a).auditLog == s.auditLog;
    assert all'[..p] == all[..p] && all'[p..] == all[p..] + EncryptedIn(a, worker);
  }

  lemma PendingStays(s: State, a: Action, worker: nat)
    requires Enabled(s, a) && !a.Push? && worker in s.workers
    ensures Pending(Do(s, a), worker) == Pending(s, worker) + EncryptedIn(a, worker)
  {
    hide Appended;
  }

  /** What is known about the log at every point of a run. */
  ghost predicate Tallied(r: Run, k: nat)
    requires |r.states| == |r.actions| + 1 && k < |r.states|
  {
    var s, started := r.states[k], LastStarted(r, k);
    && (started == None ==> s.auditLog == [] && s.processedCount == 0)
    && (started.Some? ==> started.value in s.workers && Accounted(s, EncryptedBy(r, k, started.value), started.value))
    && (s.handle.Some? ==> s.handle == started)
    && (s.call.Spawned? ==> s.call.worker in s.workers && EncryptedBy(r, k, s.call.worker) == Pending(s, s.call.worker))
    && (forall id: nat :: id !in s.workers ==> EncryptedBy(r, k, id) == [])
  }

  lemma TalliedStays(r: Run, k: nat)
    requires IsRun(r) && 0 < k < |r.states| && Tallied(r, k - 1)
    ensures Tallied(r, k)
  {
    hide Appended, LastOf, Accounted, Pending;
    var s, a := r.states[k - 1], r.actions[k - 1];
    assert Enabled(s, a) && r.states[k] == Do(s, a);
    RunIsSafe(r, k - 1);
    var started := LastStarted(r, k - 1);
    assert a.Push? ==> s.Alive(a.worker);
    if a.FinishStart? {
      StartAccounts(s, EncryptedBy(r, k - 1, s.call.worker));
    } else if started.Some? {
      AccountedStays(s, a, EncryptedBy(r, k - 1, started.value), started.value);
    }
    if s.call.Spawned? {
      PendingStays(s, a, s.call.worker);
    }
    if a.Spawn? {
      NothingPending(s, a);
    }
  }

  /** A start begins a new account. */
  lemma StartAccounts(s: State, all: seq<AuditEntry>)
    requires s.call.Spawned? && all == Pending(s, s.call.worker)
    ensures Accounted(Do(s, FinishStart), all, s.call.worker)
  {
  }

  lemma NothingPending(s: State, a: Action)
    requires Enabled(s, a) && a.Spawn?
    ensures Pending(Do(s, a), a.worker) == []
  {
  }

  lemma {:induction false} RunIsTallied(r: Run, k: nat)
    requires IsRun(r) && k < |r.states|
    ensures Tallied(r, k)
  {
    hide Tallied, IsRun;
    if k == 0 {
      InitialIsTallied(r);
    } else {
      RunIsTallied(r, k - 1);
      TalliedStays(r, k);
    }
  }

  lemma InitialIsTallied(r: Run)
    requires IsRun(r)
    ensures Tallied(r, 0)
  {
  }

  /**
   The log against what was encrypted. Of what the worker of the last successful start has encrypted, everything is
   counted but the one entry that may wait for the lock, and the log is the last thousand of what is counted, in
   order. Nothing from before that start is left in it.
   */
  lemma LogIsLatest(r: Run, k: nat)
    requires IsRun(r) && k < |r.states|
    ensures var s := r.states[k];
            match LastStarted(r, k)
            case None => s.auditLog == [] && s.processedCount == 0
            case Some(w) =>
              var all := EncryptedBy(r, k, w);
              && |all| == s.processedCount + |Pending(s, w)| && all[s.processedCount..] == Pending(s, w)
              && s.auditLog == LastOf(all[..s.processedCount], LOG_LIMIT)
    ensures var s := r.states[k];
            |s.auditLog| == if s.processedCount < 1000 then s.processedCount else 1000
    ensures r.states[k].handle.Some? ==> r.states[k].handle == LastStarted(r, k)
  {
    hide IsRun, Pending;
    RunIsTallied(r, k);
  }

  // The shared status, as the calls and the workers change it.

  /** What a worker can do without the lock. */
  predicate Unlocked(a: Action) {
    a.Encrypt? || a.Expire? || a.Exit?
  }

  /** Workers can do these, one after the other, while somebody holds the lock. */
  predicate Possible(s: State, acts: seq<Action>)
    decreases |acts|
  {
    acts == [] || (Unlocked(acts[0]) && Enabled(s, acts[0]) && Possible(Do(s, acts[0]), acts[1..]))
  }

  function Afterwards(s: State, acts: seq<Action>): State
    requires Possible(s, acts)
    decreases |acts|
  {
    if acts == [] then s else Afterwards(Do(s, acts[0]), acts[1..])
  }

  lemma {:induction false} StatusStays(s: State, acts: seq<Action>)
    requires Possible(s, acts)
    ensures var t := Afterwards(s, acts);
            && t.call == s.call && t.stopped == s.stopped && t.handle == s.handle && t.isActive == s.isActive
            && t.autoLocked == s.autoLocked && t.processedCount == s.processedCount && t.auditLog == s.auditLog
            && t.workers.Keys == s.workers.Keys
    decreases |acts|
  {
    if acts != [] {
      StatusStays(Do(s, acts[0]), acts[1..]);
    }
  }

  /** A call can take the lock and wait for the worker, if there is one, while `waiting` happens. */
  predicate CanWait(s: State, intent: Intent, waiting: seq<Action>) {
    && s.call.Idle?
    && var taken := Do(s, Acquire(intent));
    && Possible(taken, waiting)
    && (taken.call.Joining? ==> !Afterwards(taken, waiting).Alive(taken.call.worker))
  }

  function Waited(s: State, intent: Intent, waiting: seq<Action>): (t: State)
    requires CanWait(s, intent, waiting)
    ensures t.call == Joined(intent) && t.handle == None
    ensures t.isActive == s.isActive && t.autoLocked == s.autoLocked
    ensures t.processedCount == s.processedCount && t.auditLog == s.auditLog && t.workers.Keys == s.workers.Keys
  {
    var taken := Do(s, Acquire(intent));
    StatusStays(taken, waiting);
    var later := Afterwards(taken, waiting);
    if taken.call.Joining? then Do(later, Join) else later
  }

  class Manager {
    var handle: Option<nat>
    var stopped: set<nat>
    var isActive: bool
    var autoLocked: bool
    var processedCount: nat
    var auditLog: seq<AuditEntry>
    ghost var run: Run

    /** The fields are those of a state. */
    ghost predicate Holds(s: State)
      reads this
    {
      && handle == s.handle && stopped == s.stopped && isActive == s.isActive && autoLocked == s.autoLocked
      && processedCount == s.processedCount && auditLog == s.auditLog
    }

    /** Where the recorded run has led. */
    ghost function Now(): State
      requires IsRun(run)
      reads this
    {
      run.states[|run.actions|]
    }

    ghost predicate Valid()
      reads this
    {
      IsRun(run) && Holds(Now())
    }

    constructor ()
      ensures Valid() && run.actions == []
    {
      handle, stopped, isActive, autoLocked, processedCount, auditLog := None, {}, false, false, 0, [];
      run := Run([Initial()], []);
    }

    /** Adds an action to the recorded run. */
    ghost method Act(a: Action)
      requires IsRun(run) && Enabled(Now(), a) && Holds(Do(Now(), a))
      modifies `run
      ensures Valid() && run.actions == old(run.actions) + [a] && Now() == Do(old(Now()), a)
    {
      hide Do, Enabled;
      ghost var was, next := run, Do(Now(), a);
      run := Run(run.states + [next], run.actions + [a]);
      forall i | 0 <= i < |run.actions|
        ensures Enabled(run.states[i], run.actions[i]) && run.states[i + 1] == Do(run.states[i], run.actions[i])
      {
        if i < |was.actions| {
          assert Enabled(was.states[i], was.actions[i]);
        }
      }
    }

    /** Lets the workers do something while a call holds the lock. */
    ghost method LetWork(acts: seq<Action>)
      requires Valid() && Possible(Now(), acts)
      modifies `run
      ensures Valid() && run.actions == old(run.actions) + acts && Now() == Afterwards(old(Now()), acts)
      decreases |acts|
    {
      hide IsRun;
      if acts != [] {
        Act(acts[0]);
        LetWork(acts[1..]);
        assert [acts[0]] + acts[1..] == acts;
      }
    }

    /** Takes the handle, raises the stop signal of its worker, and waits until that worker has exited. */
    method StopExisting(ghost intent: Intent, ghost waiting: seq<Action>)
      requires Valid() && CanWait(Now(), intent, waiting)
      modifies this
      ensures Valid() && Now() == Waited(old(Now()), intent, waiting)
      ensures old(run.actions) < run.actions
    {
      hide IsRun, Afterwards, Possible;
      var existing := handle;
      handle := None;
      if existing.Some? {
        stopped := stopped + {existing.value};
      }
      Act(Acquire(intent));
      StatusStays(Now(), waiting);
      LetWork(waiting);
      if existing.Some? {
        Act(Join);
      }
    }

    /**
     Starts a watcher: stops the one there is, reads the keyfiles, spawns the new worker and resets the status.
     `waiting` and `starting` are what the workers do while the call waits for the old one and after the new one is
     spawned.
     */
    method Start(keyfilesReadable: bool, worker: nat, ghost waiting: seq<Action>, ghost starting: seq<Action>)
      returns (ok: bool)
      requires Valid() && worker !in Now().workers
      requires CanWait(Now(), ToStart(keyfilesReadable), waiting)
      requires keyfilesReadable
               ==> Possible(Do(Waited(Now(), ToStart(keyfilesReadable), waiting), Spawn(worker)), starting)
      modifies this
      ensures Valid() && Now().call.Idle? && old(run.actions) < run.actions
      ensures ok == keyfilesReadable
      ensures LastEnding(run, |run.actions|) == if ok then Started else FailedStart
      ensures ok ==> handle == Some(worker) && isActive && !autoLocked && processedCount == 0 && auditLog == []
      ensures !ok ==> handle == None && isActive == old(isActive) && autoLocked == old(autoLocked)
      ensures !ok ==> processedCount == old(processedCount) && auditLog == old(auditLog)
    {
      hide IsRun, Possible, Afterwards, CanWait;
      StopExisting(ToStart(keyfilesReadable), waiting);
      ok := keyfilesReadable;
      if !ok {
        Act(FailStart);
        return;
      }
      SpawnNew(worker, starting);
    }

    /** Spawns a worker, stores its handle and resets the status. */
    method SpawnNew(worker: nat, ghost starting: seq<Action>)
      requires Valid() && Now().call == Joined(ToStart(true)) && worker !in Now().workers
      requires Possible(Do(Now(), Spawn(worker)), starting)
      modifies this
      ensures Valid() && Now().call.Idle? && old(run.actions) < run.actions
      ensures LastEnding(run, |run.actions|) == Started
      ensures handle == Some(worker) && isActive && !autoLocked && processedCount == 0 && auditLog == []
    {
      hide IsRun, Possible, Afterwards;
      Act(Spawn(worker));
      StatusStays(Now(), starting);
      LetWork(starting);
      StoreNew(worker);
    }

    /** The end of a start: stores the handle and resets the status. */
    method StoreNew(worker: nat)
      requires Valid() && Now().call == Spawned(worker)
      modifies this
      ensures Valid() && Now().call.Idle? && run.actions == old(run.actions) + [FinishStart]
      ensures LastEnding(run, |run.actions|) == Started
      ensures handle == Some(worker) && isActive && !autoLocked && processedCount == 0 && auditLog == []
    {
      hide IsRun;
      handle := Some(worker);
      isActive := true;
      autoLocked := false;
      processedCount := 0;
      auditLog := [];
      Act(FinishStart);
    }

    /** Stops the watcher. The log and the counter stay for the user to see. */
    method Stop(ghost waiting: seq<Action>)
      requires Valid() && CanWait(Now(), ToStop, waiting)
      modifies this
      ensures Valid() && Now().call.Idle? && old(run.actions) < run.actions
      ensures LastEnding(run, |run.actions|) == Stopped
      ensures handle == None && !isActive && forall id: nat :: !Now().Alive(id)
      ensures autoLocked == old(autoLocked) && processedCount == old(processedCount) && auditLog == old(auditLog)
    {
      hide IsRun, Possible, Afterwards, CanWait;
      StopExisting(ToStop, waiting);
      isActive := false;
      Act(FinishStop);
      EndIsSafe(run);
    }

    /** A worker logs what it has encrypted. */
    method LogSuccess(worker: nat, entry: AuditEntry)
      requires Valid() && Enabled(Now(), Push(worker)) && Now().workers[worker] == Pushing(entry)
      modifies this
      ensures Valid() && Now() == Do(old(Now()), Push(worker)) && run.actions == old(run.actions) + [Push(worker)]
      ensures processedCount == old(processedCount) + 1
      ensures auditLog == (if |old(auditLog)| < 1000 then old(auditLog) else old(auditLog)[1..]) + [entry]
      ensures handle == old(handle) && isActive == old(isActive) && autoLocked == old(autoLocked)
    {
      hide IsRun;
      processedCount := processedCount + 1;
      auditLog := auditLog + [entry];
      if |auditLog| > LOG_LIMIT {
        auditLog := auditLog[1..];
      }
      Act(Push(worker));
    }

    /** A worker that has been idle for too long says so and ends. */
    method LockIdle(worker: nat)
      requires Valid() && Enabled(Now(), AutoLock(worker))
      modifies this
      ensures Valid() && Now() == Do(old(Now()), AutoLock(worker))
              && run.actions == old(run.actions) + [AutoLock(worker)]
      ensures autoLocked && !isActive && !Now().Alive(worker)
      ensures handle == old(handle) && stopped == old(stopped)
      ensures processedCount == old(processedCount) && auditLog == old(auditLog)
    {
      hide IsRun;
      isActive := false;
      autoLocked := true;
      Act(AutoLock(worker));
    }

    /** The export of the audit log as it stands. */
    method Export() returns (out: string)
      requires Valid()
      ensures out == Heading() + Lines(Now().auditLog)
    {
      out := ExportCsv(auditLog);
    }
  }
}
