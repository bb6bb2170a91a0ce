/** Where things go and when they happen, on paths taken apart: the rest of what the polling loop promises. */
module WatcherCases {
  import opened BigEndian
  import opened Outcomes
  import opened Primitives
  import opened Wraith
  import opened Container
  import opened Encryptor
  import opened Text
  import opened FileNames
  import opened WatchFilter
  import opened Csv
  import opened FolderWatcher
  import opened WatcherRuns

  // Where a container goes.

  /** The name a container gets: the file's own, or the hash of it. */
  function ContainerName(c: Crypto, cfg: Config, name: string): string {
    (if cfg.nameFuzzing then Hex(c.sha256(c.utf8("WRAITH_NAME_FUZZING_V1:") + c.utf8(name))) else name) + ".wraith"
  }

  /**
   A file some folders below the watched one goes to the same folders below the output one, or, without recursion,
   straight into it; the temporary file stands beside it.
   */
  lemma GoesWhere(c: Crypto, cfg: Config, folders: Path, name: string, micros: nat)
    ensures var path := cfg.watch + folders + [name];
            var dir := if cfg.recursive then cfg.out + folders else cfg.out;
            && cfg.watch < path
            && Destination(c, cfg, path) == dir + [ContainerName(c, cfg, name)]
            && (Beside(c, cfg, name) != "" ==>
                  TempPath(c, cfg, path, micros) == dir + [Beside(c, cfg, name) + ".tmp." + Decimal(micros)])
  {
    hide Hex, Decimal, Stem;
    var path := cfg.watch + folders + [name];
    assert Name(path) == name && RelativePath(cfg, path) == folders + [name];
    assert (folders + [name])[..|folders|] == folders;
    StemIs(Beside(c, cfg, name));
    assert ContainerName(c, cfg, name) == Beside(c, cfg, name) + ".wraith";
  }

  /** The container's name without its extension. */
  function Beside(c: Crypto, cfg: Config, name: string): string {
    if cfg.nameFuzzing then Hex(c.sha256(c.utf8("WRAITH_NAME_FUZZING_V1:") + c.utf8(name))) else name
  }

  lemma StemIs(before: string)
    ensures Stem(before + ".wraith") == if before == "" then ".wraith" else before
  {
    assert before + ".wraith" == before + ['.'] + "wraith";
    LastAtIs(before, '.', "wraith");
    assert (before + ".wraith")[..|before|] == before;
  }

  // What an attempt leaves.

  /** A failed encryption leaves no trace, and one that succeeds no temporary file if the renaming works. */
  lemma NoTraceLeft(c: Crypto, cfg: Config, disk: Disk, path: Path, a: Attempt, q: Path)
    requires cfg.watch < path && a.entropy.Shaped()
    ensures a.content.None? || !a.tempCreated ==> DiskAfter(c, cfg, disk, path, a) == disk
    ensures a.content.Some? && a.tempCreated && Sealed(c, cfg, path, a.content.value, a.entropy).Err? ==>
              DiskAfter(c, cfg, disk, path, a) == disk - {TempPath(c, cfg, path, a.micros)}
    ensures Encrypts(c, cfg, path, a) && a.renamed && !cfg.shredSource
            && TempPath(c, cfg, path, a.micros) != Destination(c, cfg, path) ==>
              TempPath(c, cfg, path, a.micros) !in DiskAfter(c, cfg, disk, path, a)
  {
    hide TempPath, Destination, Sealed, Layout;
  }

  /** A file that is shredded is gone, and so is what the shredder called it on its way. */
  lemma ShreddedIsGone(c: Crypto, cfg: Config, disk: Disk, dir: Path, name: string, a: Attempt, random: string)
    requires cfg.watch < dir + [name] && a.entropy.Shaped()
    requires cfg.shredSource && Encrypts(c, cfg, dir + [name], a) && a.shredded && a.left == None
             && random in a.shredNames
    ensures dir + [name] !in DiskAfter(c, cfg, disk, dir + [name], a)
    ensures dir + [".shredded_" + random] !in DiskAfter(c, cfg, disk, dir + [name], a)
  {
    hide AfterEncrypting, Encrypts;
    var path := dir + [name];
    assert path[..|path| - 1] == dir;
    assert dir + [".shredded_" + random] in ShredPaths(path, a.shredNames);
  }

  /** The log entry of a success, in full. */
  lemma EntryIs(c: Crypto, cfg: Config, folders: Path, name: string, seen: Meta, a: Attempt)
    ensures var path := cfg.watch + folders + [name];
            cfg.watch < path &&
            EntryFor(c, cfg, path, seen, a)
            == AuditEntry(a.timestamp, name, Slashed(folders + [name]), ContainerName(c, cfg, name), seen.size,
                          cfg.shredSource && a.shredded, if a.hashed.Some? then Hex(c.sha256(a.hashed.value))
                            else "0000")
  {
    hide Hex, Slashed;
    var path := cfg.watch + folders + [name];
    assert Name(path) == name && RelativePath(cfg, path) == folders + [name];
  }

  /** What is kept of a success: the path, what was seen and read, and the entry. */
  lemma SuccessIs(c: Crypto, cfg: Config, s: State, ev: Event)
    requires Allowed(c, cfg, s, ev) && Succeeds(c, cfg, s, ev)
    ensures Step(c, cfg, s, ev).successes
         == s.successes + [Success(ev.path, ev.seen, ev.attempt.content.value, ev.attempt.entropy,
                                   EntryFor(c, cfg, ev.path, ev.seen, ev.attempt))]
  {
    hide ShouldProcess, DiskAfter, MadeBy, EntryFor, Encrypts;
    assert ev.attempt.content.Some? by {
      ReadsFirst(c, cfg, ev);
    }
  }

  lemma ReadsFirst(c: Crypto, cfg: Config, ev: Event)
    requires WellFormed(ev) && ev.Visit? && Encrypts(c, cfg, ev.path, ev.attempt)
    ensures ev.attempt.content.Some?
  {
  }

  // When a file is tried.

  /** A path that is neither remembered nor done is noted at its first visit. */
  lemma FirstVisitNotes(c: Crypto, cfg: Config, r: Run, i: nat, path: Path)
    requires IsRun(c, cfg, r) && i < |r.events| && r.events[i].Visit? && r.events[i].path == path
    requires path !in r.states[i].candidates && path !in r.states[i].fingerprints
    ensures NotesAt(r, i, path)
    ensures path in r.states[i + 1].candidates
            && r.states[i + 1].candidates[path] == Sighting(r.events[i].seen.size, r.events[i].now)
  {
    hide ShouldProcess, DiskAfter, MadeBy, SuccessOf, Encrypts;
    assert Follows(c, cfg, r.states[i], r.events[i], r.states[i + 1]);
  }

  /** A sighting is remembered until the path is seen anew, tried or found gone. */
  lemma {:induction false} SightingStays(c: Crypto, cfg: Config, r: Run, i: nat, k: nat, path: Path)
    requires IsRun(c, cfg, r) && NotesAt(r, i, path) && i < k < |r.states|
    requires forall l :: i < l < k ==> !NotesAt(r, l, path) && !TriesAt(r, l, path) && !ForgetsAt(r, l, path)
    ensures path in r.states[k].candidates
            && r.states[k].candidates[path] == Sighting(r.events[i].seen.size, r.events[i].now)
    decreases k
  {
    hide ShouldProcess, DiskAfter, MadeBy, SuccessOf, Encrypts;
    assert Follows(c, cfg, r.states[k - 1], r.events[k - 1], r.states[k]);
    if k > i + 1 {
      SightingStays(c, cfg, r, i, k - 1, path);
      assert !NotesAt(r, k - 1, path) && !TriesAt(r, k - 1, path) && !ForgetsAt(r, k - 1, path);
    }
  }

  /**
   A settled file is tried: a visit at least 500 ms after the last sighting, with the same size,
     tries the file unless it
   is unchanged since it was last encrypted.
   */
  lemma SettledIsTried(c: Crypto, cfg: Config, r: Run, i: nat, j: nat, path: Path)
    requires IsRun(c, cfg, r) && NotesAt(r, i, path) && i < j < |r.events|
    requires forall l :: i < l < j ==> !NotesAt(r, l, path) && !TriesAt(r, l, path) && !ForgetsAt(r, l, path)
    requires r.events[j].Visit? && r.events[j].path == path && r.events[j].seen.size == r.events[i].seen.size
    requires r.events[j].checked >= r.events[i].now + 500
    requires path in r.states[j].fingerprints ==> r.states[j].fingerprints[path] != r.events[j].seen
    ensures TriesAt(r, j, path)
  {
    hide ShouldProcess, Step, NotesAt, Follows;
    SightingStays(c, cfg, r, i, j, path);
  }

  /** A file that has changed its size starts to settle anew. */
  lemma ChangedIsNoted(c: Crypto, cfg: Config, r: Run, i: nat, j: nat, path: Path)
    requires IsRun(c, cfg, r) && NotesAt(r, i, path) && i < j < |r.events|
    requires forall l :: i < l < j ==> !NotesAt(r, l, path) && !TriesAt(r, l, path) && !ForgetsAt(r, l, path)
    requires r.events[j].Visit? && r.events[j].path == path
    requires r.events[j].seen.size != r.events[i].seen.size || r.events[j].checked < r.events[i].now + 500
    requires path in r.states[j].fingerprints ==> r.states[j].fingerprints[path] != r.events[j].seen
    ensures NotesAt(r, j, path) && !TriesAt(r, j, path)
  {
    hide ShouldProcess, Step, Follows;
    SightingStays(c, cfg, r, i, j, path);
  }

  /** What is gone is forgotten at the end of a poll, and nothing else. */
  lemma CleanUpForgets(c: Crypto, cfg: Config, s: State, path: Path)
    ensures var s' := Step(c, cfg, s, CleanUp);
            && (path in s'.candidates <==> path in s.candidates && path in s.disk)
            && (path in s'.fingerprints <==> path in s.fingerprints && path in s.disk)
            && (path in s'.candidates ==> s'.candidates[path] == s.candidates[path])
            && (path in s'.fingerprints ==> s'.fingerprints[path] == s.fingerprints[path])
            && s'.disk == s.disk && s'.created == s.created && s'.successes == s.successes
  {
  }
}
