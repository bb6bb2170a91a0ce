/** What the containers and the log entries of a watcher run have to do with the files on the disk. */
module WatcherContents {
  import opened BigEndian
  import opened Outcomes
  import opened Primitives
  import opened Wraith
  import opened Container
  import opened Encryptor
  import opened Decryptor
  import opened RoundTrip
  import opened Text
  import opened FileNames
  import opened WatchFilter
  import opened Csv
  import opened FolderWatcher
  import opened WatcherRuns

  // The containers hold the files.

  /** The bytes of a file. */
  function Held(disk: Disk, path: Path): Option<Bytes> {
    if path in disk && disk[path].File? then Some(disk[path].content) else None
  }

  /** The attempt sees the file as it is on the disk: its size, and its bytes both times it is read. */
  predicate SeesAsIs(s: State, ev: Event) {
    ev.Visit? ==>
      && (ev.attempt.content.Some? ==>
            Held(s.disk, ev.path) == ev.attempt.content && ev.seen.size == |ev.attempt.content.value|)
      && (ev.attempt.hashed.Some? ==> Held(s.disk, ev.path) == ev.attempt.hashed)
  }

  /** Nobody writes to a file while it is being encrypted. */
  predicate Undisturbed(r: Run) {
    |r.states| == |r.events| + 1 && forall i :: 0 <= i < |r.events| ==> SeesAsIs(r.states[i], r.events[i])
  }

  /** The container at the destination of a file opens to these bytes and to the file's name. */
  ghost predicate OpensAs(c: Crypto, cfg: Config, disk: Disk, path: Path, content: Bytes)
    requires cfg.watch < path
  {
    var container := Held(disk, Destination(c, cfg, path));
    container.Some? && exists m: Manifest ::
      m.originalFilename == Name(path) && Decode(c, cfg.key, container.value, None) == Decoded(Ok(m), content)
  }

  /** The limits of the format, for every encryption of a path so far. */
  ghost predicate WithinLimits(c: Crypto, cfg: Config, successes: seq<Success>, path: Path)
    requires path != []
  {
    forall x :: x in successes && x.path == path ==>
      |x.content| < U64_LIMIT
      && SealedManifestLength(c, NewManifest(c, x.content, Options(cfg, path), x.entropy)) <= MAX_MANIFEST_LEN
  }

  /** Event i is the last so far that encrypts `path`. */
  ghost predicate LastEncryption(c: Crypto, cfg: Config, r: Run, i: nat, k: nat, path: Path)
    requires IsRun(c, cfg, r)
  {
    i < k < |r.states| && EncryptsAt(c, cfg, r, i, path) && forall l :: i < l < k ==> !EncryptsAt(c, cfg, r, l, path)
  }

  lemma {:induction false} LatestIsLast(c: Crypto, cfg: Config, r: Run, i: nat, k: nat, path: Path)
    requires IsRun(c, cfg, r) && LastEncryption(c, cfg, r, i, k, path)
    ensures var l := Latest(r.states[k].successes, path);
            l.Some? && Some(l.value.content) == r.events[i].attempt.content
    decreases k
  {
    hide ShouldProcess, DiskAfter, MadeBy, EntryFor, Sealed;
    var s, ev, s' := r.states[k - 1], r.events[k - 1], r.states[k];
    assert Follows(c, cfg, s, ev, s');
    if k > i + 1 {
      LatestIsLast(c, cfg, r, i, k - 1, path);
      assert !EncryptsAt(c, cfg, r, k - 1, path);
    }
    assert s'.successes != s.successes ==> s'.successes[..|s'.successes| - 1] == s.successes;
  }

  /** A file that holds what it held when it was last encrypted has a container that opens to exactly that. */
  lemma UnchangedIsHeld(c: Crypto, cfg: Config, r: Run, i: nat, k: nat, path: Path)
    requires c.Lawful() && FixesAscii(cfg.fold) && IsRun(c, cfg, r) && RenamesWork(r) && Undisturbed(r)
    requires LastEncryption(c, cfg, r, i, k, path)
    requires NamesApart(c, cfg, r.states[k].successes)
    requires path != [] && WithinLimits(c, cfg, r.states[k].successes, path)
    requires Held(r.states[k].disk, path) == Held(r.states[i].disk, path)
    ensures cfg.watch < path && Held(r.states[k].disk, path).Some?
    ensures OpensAs(c, cfg, r.states[k].disk, path, Held(r.states[k].disk, path).value)
  {
    hide ShouldProcess, Destination, Layout, Decode, FuzzedName, NewManifest, NamesApart, Step, Sealed, IsRun;
    LatestIsLast(c, cfg, r, i, k, path);
    LatestIsOne(r.states[k].successes, path);
    LatestOpens(c, cfg, r, k, path);
    assert SeesAsIs(r.states[i], r.events[i]) by {
      SeenAsIs(c, cfg, r, i);
    }
  }

  lemma SeenAsIs(c: Crypto, cfg: Config, r: Run, i: nat)
    requires IsRun(c, cfg, r) && Undisturbed(r) && i < |r.events|
    ensures SeesAsIs(r.states[i], r.events[i])
  {
  }

  /** A fingerprint comes from the last encryption of its path. */
  lemma {:induction false} FingerprintIsLast(c: Crypto, cfg: Config, r: Run, k: nat, path: Path) returns (i: nat)
    requires IsRun(c, cfg, r) && k < |r.states| && path in r.states[k].fingerprints
    ensures LastEncryption(c, cfg, r, i, k, path) && r.events[i].seen == r.states[k].fingerprints[path]
    decreases k
  {
    hide ShouldProcess, DiskAfter, MadeBy, EntryFor, Sealed;
    assert k > 0;
    var s, ev := r.states[k - 1], r.events[k - 1];
    assert Follows(c, cfg, s, ev, r.states[k]);
    if EncryptsAt(c, cfg, r, k - 1, path) {
      i := k - 1;
    } else {
      i := FingerprintIsLast(c, cfg, r, k - 1, path);
    }
  }

  /** Whenever a path is seen with the same size and time, it holds the same bytes. */
  ghost predicate MetaTells(r: Run, path: Path)
    requires |r.states| == |r.events| + 1
  {
    forall i, j :: 0 <= i < |r.events| && 0 <= j < |r.events| && r.events[i].Visit? && r.events[j].Visit?
      && r.events[i].path == path == r.events[j].path && r.events[i].seen == r.events[j].seen
      ==> Held(r.states[i].disk, path) == Held(r.states[j].disk, path)
  }

  /**
   Skipping is safe: a file that a poll passes over as done has, at that moment, a container that opens to the very
   bytes it holds, provided that size and time tell its contents apart.
   */
  lemma SkippedIsHeld(c: Crypto, cfg: Config, r: Run, j: nat)
    requires c.Lawful() && FixesAscii(cfg.fold) && IsRun(c, cfg, r) && RenamesWork(r) && Undisturbed(r)
    requires j < |r.events| && r.events[j].Visit? && AlreadyDone(r.states[j], r.events[j].path, r.events[j].seen)
    requires MetaTells(r, r.events[j].path)
    requires NamesApart(c, cfg, r.states[j].successes)
    requires r.events[j].path != [] && WithinLimits(c, cfg, r.states[j].successes, r.events[j].path)
    ensures var path, disk := r.events[j].path, r.states[j].disk;
            cfg.watch < path && Held(disk, path).Some? && OpensAs(c, cfg, disk, path, Held(disk, path).value)
  {
    hide ShouldProcess, Follows, Succeeds, NamesApart, OpensAs, Held, WithinLimits, Undisturbed, RenamesWork;
    var path := r.events[j].path;
    var i := FingerprintIsLast(c, cfg, r, j, path);
    UnchangedIsHeld(c, cfg, r, i, j, path);
  }

  // The log entries describe the containers.

  /** An entry names the file and its container; if nobody disturbed it, size and hash are those of the bytes sealed. */
  ghost predicate Describes(c: Crypto, cfg: Config, x: Success, undisturbed: bool) {
    && cfg.watch < x.path
    && x.entry.originalFile == Name(x.path)
    && x.entry.encryptedFile == Name(Destination(c, cfg, x.path))
    && '"' !in x.entry.sha256Hash
    && (undisturbed ==>
          && x.entry.fileSize == |x.content|
          && (x.entry.sha256Hash == "0000" || x.entry.sha256Hash == Hex(c.sha256(x.content))))
  }

  lemma {:induction false} EntriesAreFaithful(c: Crypto, cfg: Config, r: Run, k: nat)
    requires IsRun(c, cfg, r) && k < |r.states|
    ensures forall x :: x in r.states[k].successes ==> Describes(c, cfg, x, Undisturbed(r))
    decreases k
  {
    hide ShouldProcess, DiskAfter, MadeBy, Sealed, Describes, Undisturbed, EntryFor;
    if k > 0 {
      EntriesAreFaithful(c, cfg, r, k - 1);
      var s, ev := r.states[k - 1], r.events[k - 1];
      assert Follows(c, cfg, s, ev, r.states[k]);
      if Succeeds(c, cfg, s, ev) {
        if Undisturbed(r) {
          SeenAsIs(c, cfg, r, k - 1);
        }
        EntryDescribes(c, cfg, s, ev, Undisturbed(r));
      }
    }
  }

  lemma EntryDescribes(c: Crypto, cfg: Config, s: State, ev: Event, undisturbed: bool)
    requires ev.Visit? && cfg.watch < ev.path && ev.attempt.content.Some?
    requires undisturbed ==> SeesAsIs(s, ev)
    ensures var a := ev.attempt;
            var x := Success(ev.path, ev.seen, a.content.value, a.entropy, EntryFor(c, cfg, ev.path, ev.seen, a));
            Describes(c, cfg, x, undisturbed)
  {
    hide ShouldProcess, FuzzedName, PlainName, Decimal;
    HashNeedsNoEscape(c, ev.attempt.hashed);
  }

  lemma HashNeedsNoEscape(c: Crypto, hashed: Option<Bytes>)
    ensures '"' !in AuditHash(c, hashed)
  {
  }

  /** Any part of a run's entries, in any order, can be exported and read back. */
  lemma EntriesRead(c: Crypto, cfg: Config, r: Run, k: nat, log: seq<AuditEntry>)
    requires IsRun(c, cfg, r) && k < |r.states|
    requires forall e :: e in log ==> exists x :: x in r.states[k].successes && x.entry == e
    ensures ReadLog(Heading() + Lines(log)) == Some(log)
  {
    hide IsRun, ReadLog, Lines, Heading;
    EntriesAreFaithful(c, cfg, r, k);
    forall e | e in log
      ensures '"' !in e.sha256Hash
    {
      var x :| x in r.states[k].successes && x.entry == e;
      assert Describes(c, cfg, x, Undisturbed(r));
    }
    ExportReads(log);
  }
}
