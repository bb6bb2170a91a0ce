/**
 The audit log of the manager against the runs of its workers: WatcherLifecycle says when entries are logged,
 FolderWatcher what is encrypted.
 */
module WatcherLog {
  import opened Outcomes
  import opened Primitives
  import opened Csv
  import Machine = FolderWatcher
  import Contents = WatcherContents
  import Lifecycle = WatcherLifecycle

  function Entries(successes: seq<Machine.Success>): (log: seq<AuditEntry>)
    ensures |log| == |successes|
    ensures forall i :: 0 <= i < |log| ==> log[i] == successes[i].entry
  {
    if successes == [] then []
    else Entries(successes[..|successes| - 1]) + [successes[|successes| - 1].entry]
  }

  /** What a run of the machine has encrypted. */
  function Successes(m: Machine.Run): seq<Machine.Success> {
    if |m.states| == |m.events| + 1 then m.states[|m.events|].successes else []
  }

  /** Each worker is a run of the machine, and what it has encrypted up to k is what that run encrypts, in order. */
  ghost predicate Driven(c: Crypto, cfg: nat -> Machine.Config, machine: nat -> Machine.Run, r: Lifecycle.Run, k: nat)
    requires k <= |r.actions|
  {
    forall id: nat ::
      Machine.IsRun(c, cfg(id), machine(id)) && Lifecycle.EncryptedBy(r, k, id) == Entries(Successes(machine(id)))
  }

  /** What the log shows of a worker's successes: the last thousand of those counted, and all but at most one are. */
  ghost predicate ShowsLast(s: Lifecycle.State, successes: seq<Machine.Success>) {
    && s.processedCount <= |successes| <= s.processedCount + 1
    && s.auditLog == Lifecycle.LastOf(Entries(successes[..s.processedCount]), Lifecycle.LOG_LIMIT)
  }

  lemma EntriesOfFront(successes: seq<Machine.Success>, n: nat)
    requires n <= |successes|
    ensures Entries(successes[..n]) == Entries(successes)[..n]
  {
  }

  /** At every moment the log is the latest successes of the worker started last. */
  lemma LogShowsSuccesses(c: Crypto, cfg: nat -> Machine.Config, machine: nat -> Machine.Run, r: Lifecycle.Run, k: nat)
    requires Lifecycle.IsRun(r) && k <= |r.actions| && Driven(c, cfg, machine, r, k)
    ensures match Lifecycle.LastStarted(r, k)
            case None => r.states[k].auditLog == []
            case Some(w) => ShowsLast(r.states[k], Successes(machine(w)))
  {
    hide Lifecycle.EncryptedBy, Lifecycle.LastOf, Machine.IsRun;
    Lifecycle.LogIsLatest(r, k);
    match Lifecycle.LastStarted(r, k)
    case None =>
    case Some(w) =>
      assert Lifecycle.EncryptedBy(r, k, w) == Entries(Successes(machine(w)));
      EntriesOfFront(Successes(machine(w)), r.states[k].processedCount);
  }

  lemma ShownAreSuccesses(s: Lifecycle.State, successes: seq<Machine.Success>)
    requires ShowsLast(s, successes)
    ensures forall e :: e in s.auditLog ==> exists x :: x in successes && x.entry == e
  {
    hide Entries;
    var counted := Entries(successes[..s.processedCount]);
    forall e | e in s.auditLog
      ensures exists x :: x in successes && x.entry == e
    {
      assert e in counted;
      var i :| 0 <= i < |counted| && counted[i] == e;
      assert successes[i] in successes;
    }
  }

  /** And its export reads back to exactly the log, without any assumption on the entries. */
  lemma ExportedLogReads(c: Crypto, cfg: nat -> Machine.Config, machine: nat -> Machine.Run, r: Lifecycle.Run, k: nat)
    requires Lifecycle.IsRun(r) && k <= |r.actions| && Driven(c, cfg, machine, r, k)
    ensures ReadLog(Heading() + Lines(r.states[k].auditLog)) == Some(r.states[k].auditLog)
  {
    hide ReadLog, Lines, Heading, Machine.IsRun, Lifecycle.EncryptedBy, ShowsLast;
    LogShowsSuccesses(c, cfg, machine, r, k);
    match Lifecycle.LastStarted(r, k)
    case None =>
      ExportReads([]);
    case Some(w) =>
      var m := machine(w);
      assert Machine.IsRun(c, cfg(w), m) && Lifecycle.EncryptedBy(r, k, w) == Entries(Successes(m));
      LastRunState(c, cfg(w), m);
      ShownAreSuccesses(r.states[k], Successes(m));
      Contents.EntriesRead(c, cfg(w), m, |m.events|, r.states[k].auditLog);
  }

  lemma LastRunState(c: Crypto, cfg: Machine.Config, m: Machine.Run)
    requires Machine.IsRun(c, cfg, m)
    ensures |m.states| == |m.events| + 1 && Successes(m) == m.states[|m.events|].successes
  {
  }

  /** What the export of a manager yields is a text that reads back to its log. */
  method ExportLog(m: Lifecycle.Manager, ghost c: Crypto, ghost cfg: nat -> Machine.Config,
                   ghost machine: nat -> Machine.Run)
    returns (out: string)
    requires m.Valid() && Driven(c, cfg, machine, m.run, |m.run.actions|)
    ensures ReadLog(out) == Some(m.auditLog)
    ensures out == Heading() + Lines(m.auditLog)
  {
    hide ReadLog, Lines, Heading, Driven;
    out := m.Export();
    ExportedLogReads(c, cfg, machine, m.run, |m.run.actions|);
  }
}
