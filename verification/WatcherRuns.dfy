/** What holds in every run of a watcher worker. */
module WatcherRuns {
  import opened BigEndian
  import opened Outcomes
  import opened Primitives
  import opened Wraith
  import opened Container
  import opened Encryptor
  import opened Decryptor
  import opened RoundTrip
  import opened Text
  import opened FileNames
  import opened WatchFilter
  import opened FolderWatcher

  // No feedback loop.

  /** A path the filter rejects by its name. */
  ghost predicate Rejected(cfg: Config, path: Path) {
    path != [] && !ShouldProcess(cfg.fold, Name(path), cfg.filterMode, cfg.filterExtensions)
  }

  lemma MadeIsRejected(c: Crypto, cfg: Config, path: Path, a: Attempt, made: Path)
    requires FixesAscii(cfg.fold)
    requires cfg.watch < path && a.entropy.Shaped() && made in MadeBy(c, cfg, path, a)
    ensures Rejected(cfg, made)
  {
    hide ShouldProcess, FuzzedName, PlainName, TempName, ShreddedName, Sealed;
    if made == TempPath(c, cfg, path, a.micros) {
      TempsRejected(cfg.fold, OutName(c, cfg, Name(path)), a.micros, cfg.filterMode, cfg.filterExtensions);
    } else if made == Destination(c, cfg, path) {
      DestinationRejected(c, cfg, path);
    } else {
      var n :| n in a.shredNames && made == path[..|path| - 1] + [ShreddedName(n)];
      ShreddedRejected(cfg.fold, n, cfg.filterMode, cfg.filterExtensions);
    }
  }

  lemma DestinationRejected(c: Crypto, cfg: Config, path: Path)
    requires FixesAscii(cfg.fold) && cfg.watch < path
    ensures Rejected(cfg, Destination(c, cfg, path))
  {
    hide ShouldProcess, Hex;
    var name := Name(path);
    if cfg.nameFuzzing {
      ContainersRejected(cfg.fold, Hex(c.sha256(c.utf8("WRAITH_NAME_FUZZING_V1:") + c.utf8(name))), cfg.filterMode,
        cfg.filterExtensions);
    } else {
      ContainersRejected(cfg.fold, name, cfg.filterMode, cfg.filterExtensions);
    }
  }

  lemma {:induction false} CreatedIsRejected(c: Crypto, cfg: Config, r: Run, k: nat)
    requires FixesAscii(cfg.fold) && IsRun(c, cfg, r) && k < |r.states|
    ensures forall p :: p in r.states[k].created ==> Rejected(cfg, p)
  {
    hide ShouldProcess, MadeBy, DiskAfter, Succeeds, Rejected;
    if k > 0 {
      CreatedIsRejected(c, cfg, r, k - 1);
      var s, ev := r.states[k - 1], r.events[k - 1];
      assert Follows(c, cfg, s, ev, r.states[k]);
      forall p | p in r.states[k].created
        ensures Rejected(cfg, p)
      {
        if p !in s.created {
          MadeIsRejected(c, cfg, ev.path, ev.attempt, p);
        }
      }
    }
  }

  /**
   No feedback loop: no round of a run is ever for a path that the worker has made, at any time in the run,
   wherever the output folder lies.
   */
  lemma NoFeedback(c: Crypto, cfg: Config, r: Run, i: nat, k: nat)
    requires FixesAscii(cfg.fold) && IsRun(c, cfg, r)
    requires i < |r.events| && r.events[i].Visit? && k < |r.states|
    ensures r.events[i].path !in r.states[k].created
  {
    hide ShouldProcess, Step;
    CreatedIsRejected(c, cfg, r, k);
    assert Follows(c, cfg, r.states[i], r.events[i], r.states[i + 1]);
  }

  // Every encrypted file has a container that opens to what was read last.

  /** The latest encryption of a path. */
  function Latest(successes: seq<Success>, path: Path): Option<Success> {
    if successes == [] then None
    else if successes[|successes| - 1].path == path then Some(successes[|successes| - 1])
    else Latest(successes[..|successes| - 1], path)
  }

  lemma LatestIsOne(successes: seq<Success>, path: Path)
    ensures var l := Latest(successes, path); l.Some? ==> l.value in successes && l.value.path == path
  {
  }

  /** Hidden names do not collide among these files. */
  ghost predicate NamesApart(c: Crypto, cfg: Config, successes: seq<Success>) {
    cfg.nameFuzzing ==>
      forall x, y :: x in successes && y in successes && x.path != [] && y.path != []
        && FuzzedName(c, Name(x.path)) == FuzzedName(c, Name(y.path))
        ==> Name(x.path) == Name(y.path)
  }

  /** Different files have different destinations, in every mode. */
  lemma DestinationsApart(c: Crypto, cfg: Config, p: Path, q: Path)
    requires Visitable(cfg, p) && Visitable(cfg, q)
    requires cfg.nameFuzzing && FuzzedName(c, Name(p)) == FuzzedName(c, Name(q)) ==> Name(p) == Name(q)
    requires Destination(c, cfg, p) == Destination(c, cfg, q)
    ensures p == q
  {
    hide ShouldProcess, FuzzedName, PlainName;
    var d, d' := Destination(c, cfg, p), Destination(c, cfg, q);
    assert d[|d| - 1] == OutName(c, cfg, Name(p)) && d'[|d'| - 1] == OutName(c, cfg, Name(q));
    if !cfg.nameFuzzing {
      PlainNameInjective(Name(p), Name(q));
    }
    assert d[..|d| - 1] == TargetDir(cfg, p) && d'[..|d'| - 1] == TargetDir(cfg, q);
    var n := |cfg.watch|;
    if cfg.recursive {
      assert d[|cfg.out|..|d| - 1] == p[n..][..|p| - n - 1] && d'[|cfg.out|..|d'| - 1] == q[n..][..|q| - n - 1];
    }
    assert p == cfg.watch + p[n..][..|p| - n - 1] + [Name(p)];
    assert q == cfg.watch + q[n..][..|q| - n - 1] + [Name(q)];
  }

  lemma ContainerAtDestination(c: Crypto, cfg: Config, path: Path)
    requires cfg.watch < path
    ensures EndsWith(Name(Destination(c, cfg, path)), CONTAINER_SUFFIX)
  {
    hide Hex, EndsWith;
    ContainerNameEnds(Name(path));
    ContainerNameEnds(Hex(c.sha256(c.utf8("WRAITH_NAME_FUZZING_V1:") + c.utf8(Name(path)))));
  }

  /** An attempt on p disturbs no destination but its own; on success, if the renaming works, the container is there. */
  lemma AttemptKeepsOthers(c: Crypto, cfg: Config, disk: Disk, p: Path, a: Attempt, q: Path)
    requires FixesAscii(cfg.fold) && Visitable(cfg, p) && Visitable(cfg, q)
    requires a.entropy.Shaped() && forall n :: n in a.shredNames ==> AllHex(n)
    ensures Destination(c, cfg, p) != Destination(c, cfg, q) ==>
              SameAt(disk, DiskAfter(c, cfg, disk, p, a), Destination(c, cfg, q))
    ensures a.content.Some? && a.tempCreated && Sealed(c, cfg, p, a.content.value, a.entropy).Ok? && a.renamed ==>
              var d := Destination(c, cfg, p);
              d in DiskAfter(c, cfg, disk, p, a) &&
              DiskAfter(c, cfg, disk, p, a)[d] == File(Layout(Sealed(c, cfg, p, a.content.value, a.entropy).value))
  {
    hide Destination, Sealed, TempPath, EndsWith, Layout, ShouldProcess;
    Untouched(c, cfg, p, a, q);
    Untouched(c, cfg, p, a, p);
  }

  /** No destination is a temporary path, a shredder's path or a file that is watched. */
  lemma Untouched(c: Crypto, cfg: Config, p: Path, a: Attempt, q: Path)
    requires FixesAscii(cfg.fold) && Visitable(cfg, p) && Visitable(cfg, q)
    requires forall n :: n in a.shredNames ==> AllHex(n)
    ensures var d := Destination(c, cfg, q);
            d != TempPath(c, cfg, p, a.micros) && d != p && d !in ShredPaths(p, a.shredNames)
  {
    hide ShouldProcess, FuzzedName, PlainName, TempName, ShreddedName, EndsWith, AllHex;
    var d := Destination(c, cfg, q);
    ContainerAtDestination(c, cfg, q);
    TempIsNoContainer(OutName(c, cfg, Name(p)), a.micros);
    DestinationRejected(c, cfg, q);
    if d in ShredPaths(p, a.shredNames) {
      var n :| n in a.shredNames && d == p[..|p| - 1] + [ShreddedName(n)];
      ShreddedIsNoContainer(n);
    }
  }

  /**
   What a success is worth when the renaming fails, which the worker does not notice: exactly nothing, unless the
   same container was in place before. With shredding on, the file is then gone as well, unless its removal fails too.
   */
  lemma RenamingDecides(c: Crypto, cfg: Config, s: State, ev: Event)
    requires FixesAscii(cfg.fold) && Allowed(c, cfg, s, ev) && Succeeds(c, cfg, s, ev)
    ensures var container := File(Layout(Sealed(c, cfg, ev.path, ev.attempt.content.value, ev.attempt.entropy).value));
            var d, after := Destination(c, cfg, ev.path), Step(c, cfg, s, ev).disk;
            && (d in after && after[d] == container <==> ev.attempt.renamed || (d in s.disk && s.disk[d] == container))
            && (!ev.attempt.renamed ==> SameAt(s.disk, after, d))
            && (cfg.shredSource ==> (ev.path in after <==> ev.attempt.left.Some?))
  {
    hide Destination, Sealed, TempPath, EndsWith, Layout, ShouldProcess, EntryFor, MadeBy;
    Untouched(c, cfg, ev.path, ev.attempt, ev.path);
  }

  /** The container of this success is where it belongs. */
  ghost predicate InPlace(c: Crypto, cfg: Config, disk: Disk, x: Success) {
    && Visitable(cfg, x.path) && x.entropy.Shaped()
    && Sealed(c, cfg, x.path, x.content, x.entropy).Ok?
    && Destination(c, cfg, x.path) in disk
    && disk[Destination(c, cfg, x.path)] == File(Layout(Sealed(c, cfg, x.path, x.content, x.entropy).value))
  }

  /** Every renaming of the run works. */
  predicate RenamesWork(r: Run) {
    forall ev :: ev in r.events && ev.Visit? ==> ev.attempt.renamed
  }

  lemma {:induction false} LatestInPlace(c: Crypto, cfg: Config, r: Run, k: nat, path: Path)
    requires FixesAscii(cfg.fold) && IsRun(c, cfg, r) && RenamesWork(r) && k < |r.states|
    requires NamesApart(c, cfg, r.states[k].successes)
    requires Latest(r.states[k].successes, path).Some?
    ensures InPlace(c, cfg, r.states[k].disk, Latest(r.states[k].successes, path).value)
    decreases k
  {
    hide ShouldProcess, Destination, DiskAfter, MadeBy, EntryFor, Encrypts, InPlace, FuzzedName;
    assert k > 0;
    var s, ev, s' := r.states[k - 1], r.events[k - 1], r.states[k];
    assert Follows(c, cfg, s, ev, s');
    LatestIsOne(s.successes, path);
    if Succeeds(c, cfg, s, ev) {
      assert s'.successes[..|s'.successes| - 1] == s.successes;
      NewIsInPlace(c, cfg, s, ev);
      if path != ev.path {
        LatestInPlace(c, cfg, r, k - 1, path);
        OldStaysInPlace(c, cfg, s, ev, Latest(s.successes, path).value);
      }
    } else {
      LatestInPlace(c, cfg, r, k - 1, path);
      OldStaysInPlace(c, cfg, s, ev, Latest(s.successes, path).value);
    }
  }

  /** A success puts its container in place. */
  lemma NewIsInPlace(c: Crypto, cfg: Config, s: State, ev: Event)
    requires FixesAscii(cfg.fold) && Allowed(c, cfg, s, ev) && Succeeds(c, cfg, s, ev) && ev.attempt.renamed
    ensures var s' := Step(c, cfg, s, ev);
            s'.successes == s.successes + [SuccessOf(c, cfg, ev.path, ev.seen, ev.attempt)]
            && InPlace(c, cfg, s'.disk, SuccessOf(c, cfg, ev.path, ev.seen, ev.attempt))
  {
    hide ShouldProcess, Destination, Sealed, DiskAfter, MadeBy, EntryFor, Layout;
    AttemptKeepsOthers(c, cfg, s.disk, ev.path, ev.attempt, ev.path);
  }

  /** And leaves those of other paths where they are, as every other event does. */
  lemma OldStaysInPlace(c: Crypto, cfg: Config, s: State, ev: Event, x: Success)
    requires FixesAscii(cfg.fold) && Allowed(c, cfg, s, ev) && x in s.successes && InPlace(c, cfg, s.disk, x)
    requires Succeeds(c, cfg, s, ev) ==> ev.path != x.path && NamesApart(c, cfg, Step(c, cfg, s, ev).successes)
    ensures InPlace(c, cfg, Step(c, cfg, s, ev).disk, x)
  {
    hide ShouldProcess, Destination, Sealed, DiskAfter, MadeBy, EntryFor, Layout, FuzzedName, Encrypts;
    if Succeeds(c, cfg, s, ev) {
      NamesOfTwo(c, cfg, s, ev, x);
      if Destination(c, cfg, x.path) == Destination(c, cfg, ev.path) {
        DestinationsApart(c, cfg, x.path, ev.path);
      }
      AttemptKeepsOthers(c, cfg, s.disk, ev.path, ev.attempt, x.path);
    } else if Tries(s, ev) {
      StepKeepsOthers(c, cfg, s, ev, x);
    }
  }

  lemma NamesOfTwo(c: Crypto, cfg: Config, s: State, ev: Event, x: Success)
    requires Allowed(c, cfg, s, ev) && Succeeds(c, cfg, s, ev) && x in s.successes && x.path != []
    requires NamesApart(c, cfg, Step(c, cfg, s, ev).successes)
    ensures cfg.nameFuzzing && FuzzedName(c, Name(x.path)) == FuzzedName(c, Name(ev.path)) ==>
              Name(x.path) == Name(ev.path)
  {
    hide ShouldProcess, Destination, Sealed, DiskAfter, MadeBy, EntryFor, FuzzedName;
    var y := SuccessOf(c, cfg, ev.path, ev.seen, ev.attempt);
    assert y in Step(c, cfg, s, ev).successes && x in Step(c, cfg, s, ev).successes;
  }

  lemma StepKeepsOthers(c: Crypto, cfg: Config, s: State, ev: Event, x: Success)
    requires FixesAscii(cfg.fold) && Allowed(c, cfg, s, ev) && ev.Visit? && !Succeeds(c, cfg, s, ev)
    requires Visitable(cfg, x.path)
    ensures SameAt(s.disk, Step(c, cfg, s, ev).disk, Destination(c, cfg, x.path))
  {
    hide ShouldProcess, Destination, TempPath, Sealed, Layout, EndsWith;
    Untouched(c, cfg, ev.path, ev.attempt, x.path);
  }

  /**
   At any point of a run, every path encrypted so far has, at its destination, a container that opens under the
   worker's key to the bytes and the name of its latest encryption.
   */
  lemma LatestOpens(c: Crypto, cfg: Config, r: Run, k: nat, path: Path)
    requires c.Lawful() && FixesAscii(cfg.fold) && IsRun(c, cfg, r) && RenamesWork(r) && k < |r.states|
    requires NamesApart(c, cfg, r.states[k].successes)
    requires Latest(r.states[k].successes, path).Some?
    ensures var x := Latest(r.states[k].successes, path).value;
            && cfg.watch < path && Destination(c, cfg, path) in r.states[k].disk
            && var m := NewManifest(c, x.content, Options(cfg, path), x.entropy);
            && m.originalFilename == Name(path)
            && (|x.content| < U64_LIMIT && SealedManifestLength(c, m) <= MAX_MANIFEST_LEN ==>
                  var node := r.states[k].disk[Destination(c, cfg, path)];
                  node.File? && Decode(c, cfg.key, node.content, None) == Decoded(Ok(m), x.content))
  {
    hide ShouldProcess, Destination, Layout, Decode, FuzzedName, NewManifest, Seal, StartSession;
    LatestInPlace(c, cfg, r, k, path);
    LatestIsOne(r.states[k].successes, path);
    var x := Latest(r.states[k].successes, path).value;
    ManifestNames(c, x.content, Options(cfg, path), x.entropy);
    if |x.content| < U64_LIMIT {
      RoundTrips(c, cfg.key, x.content, Options(cfg, path), x.entropy, None);
    }
  }

  lemma ManifestNames(c: Crypto, data: Bytes, o: EncryptOptions, e: Entropy)
    requires o.chunkSize > 0
    ensures NewManifest(c, data, o, e).originalFilename == o.originalFilename
  {
  }

  // The users' own files.

  /** A step of the worker leaves every file it would take alone, but for a file that it encrypts and shreds. */
  lemma FilesAreLeftAlone(c: Crypto, cfg: Config, s: State, ev: Event, q: Path)
    requires FixesAscii(cfg.fold) && Allowed(c, cfg, s, ev) && !ev.Outside?
    requires q != [] && !Rejected(cfg, q)
    requires !(cfg.shredSource && ev.Visit? && ev.path == q && Succeeds(c, cfg, s, ev))
    ensures SameAt(s.disk, Step(c, cfg, s, ev).disk, q)
  {
    hide ShouldProcess, Destination, TempPath, Sealed, Layout, Rejected, EntryFor;
    if Tries(s, ev) {
      if forall made :: made in MadeBy(c, cfg, ev.path, ev.attempt) ==> made != q {
        AttemptChangesOnlyMade(c, cfg, s.disk, ev.path, ev.attempt, q);
      } else {
        MadeIsRejected(c, cfg, ev.path, ev.attempt, q);
      }
    }
  }

  lemma AttemptChangesOnlyMade(c: Crypto, cfg: Config, disk: Disk, path: Path, a: Attempt, q: Path)
    requires cfg.watch < path && a.entropy.Shaped()
    requires q !in MadeBy(c, cfg, path, a)
    requires cfg.shredSource && q == path ==> !Encrypts(c, cfg, path, a)
    ensures SameAt(disk, DiskAfter(c, cfg, disk, path, a), q)
  {
    hide Destination, TempPath, Sealed, Layout;
  }

  /**
   Between two points of a run a file that the filter takes stays as it is, unless others change it or the worker
   encrypts it with shredding on. This holds for every file, in the watched folder or not.
   */
  lemma {:induction false} UsersFilesStay(c: Crypto, cfg: Config, r: Run, i: nat, j: nat, q: Path)
    requires FixesAscii(cfg.fold) && IsRun(c, cfg, r) && i <= j < |r.states|
    requires q != [] && !Rejected(cfg, q)
    requires forall l :: i <= l < j && r.events[l].Outside? ==> SameAt(r.states[l].disk, r.events[l].disk, q)
    requires forall l :: i <= l < j ==> !(cfg.shredSource && EncryptsAt(c, cfg, r, l, q))
    ensures SameAt(r.states[i].disk, r.states[j].disk, q)
    decreases j
  {
    hide ShouldProcess, DiskAfter, MadeBy, EntryFor, Encrypts, Rejected, Visitable;
    if i < j {
      UsersFilesStay(c, cfg, r, i, j - 1, q);
      var s, ev := r.states[j - 1], r.events[j - 1];
      assert Follows(c, cfg, s, ev, r.states[j]);
      if !ev.Outside? {
        assert !(cfg.shredSource && EncryptsAt(c, cfg, r, j - 1, q));
        FilesAreLeftAlone(c, cfg, s, ev, q);
      }
    }
  }

  /**
   What becomes of a good container when a shredded file cannot be removed, which the worker does not notice either.
   The file is taken again as soon as it has been seen with one size for half a second, and the container of what is
   left replaces the good one.
   */
  lemma LeftoverReplacesContainer(c: Crypto, cfg: Config, s: State, first: Event, second: Event, third: Event)
    requires FixesAscii(cfg.fold) && cfg.shredSource
    requires Allowed(c, cfg, s, first) && Succeeds(c, cfg, s, first) && first.attempt.left.Some?
    requires var s1 := Step(c, cfg, s, first);
             && second.Visit? && second.path == first.path && Allowed(c, cfg, s1, second)
             && third.Visit? && third.path == first.path && Allowed(c, cfg, Step(c, cfg, s1, second), third)
    requires third.seen.size == second.seen.size && third.checked >= second.now + SETTLE_MILLIS
    requires third.attempt.content == first.attempt.left && third.attempt.renamed
    requires Encrypts(c, cfg, third.path, third.attempt)
    ensures var s2 := Step(c, cfg, Step(c, cfg, s, first), second);
            var d, disk := Destination(c, cfg, first.path), Step(c, cfg, s2, third).disk;
            var left := first.attempt.left.value;
            && first.path in s2.disk && s2.disk[first.path] == File(left)
            && Succeeds(c, cfg, s2, third)
            && d in disk
            && disk[d] == File(Layout(Sealed(c, cfg, first.path, left, third.attempt.entropy).value))
  {
    hide ShouldProcess, Destination, TempPath, AfterEncrypting, Layout, EntryFor, MadeBy, Sealed;
    var s1 := Step(c, cfg, s, first);
    assert first.path !in s1.fingerprints && first.path !in s1.candidates;
    var s2 := Step(c, cfg, s1, second);
    assert s2.disk == s1.disk && first.path !in s2.fingerprints;
    AttemptKeepsOthers(c, cfg, s2.disk, third.path, third.attempt, third.path);
  }

  // At most once, and only after the file has settled.

  /** Event i of a run encrypts `path`. */
  ghost predicate EncryptsAt(c: Crypto, cfg: Config, r: Run, i: nat, path: Path)
    requires IsRun(c, cfg, r)
  {
    i < |r.events| && r.events[i].Visit? && r.events[i].path == path
    && Follows(c, cfg, r.states[i], r.events[i], r.states[i + 1])
    && Succeeds(c, cfg, r.states[i], r.events[i])
  }

  /** Event i is a clean-up that finds `path` gone. */
  predicate ForgetsAt(r: Run, i: nat, path: Path) {
    i < |r.events| && i < |r.states| && r.events[i].CleanUp? && path !in r.states[i].disk
  }

  /** The fingerprint of an encryption stays until the next one, or until the path is found gone. */
  lemma {:induction false} FingerprintStays(c: Crypto, cfg: Config, r: Run, i: nat, j: nat, path: Path)
    requires IsRun(c, cfg, r) && !cfg.shredSource
    requires i < j < |r.states| && EncryptsAt(c, cfg, r, i, path)
    requires forall k :: i < k < j ==> !EncryptsAt(c, cfg, r, k, path) && !ForgetsAt(r, k, path)
    ensures path in r.states[j].fingerprints && r.states[j].fingerprints[path] == r.events[i].seen
    decreases j
  {
    hide ShouldProcess, DiskAfter, MadeBy, EntryFor, Sealed;
    assert Follows(c, cfg, r.states[j - 1], r.events[j - 1], r.states[j]);
    if j > i + 1 {
      FingerprintStays(c, cfg, r, i, j - 1, path);
      assert !EncryptsAt(c, cfg, r, j - 1, path) && !ForgetsAt(r, j - 1, path);
    }
  }

  /**
   With shredding off, two successive encryptions of a path see different sizes or modification times, unless a
   clean-up in between found the path gone.
   */
  lemma ReEncryptedOnlyWhenChanged(c: Crypto, cfg: Config, r: Run, i: nat, j: nat, path: Path)
    requires IsRun(c, cfg, r) && !cfg.shredSource
    requires i < j && EncryptsAt(c, cfg, r, i, path) && EncryptsAt(c, cfg, r, j, path)
    requires forall k :: i < k < j ==> !EncryptsAt(c, cfg, r, k, path) && !ForgetsAt(r, k, path)
    ensures r.events[i].seen != r.events[j].seen
  {
    hide ShouldProcess, Step, Sealed;
    FingerprintStays(c, cfg, r, i, j, path);
  }

  /** Hence a file that does not change and does not vanish is encrypted at most once. */
  lemma {:induction false} UnchangingEncryptedOnce(c: Crypto, cfg: Config, r: Run, i: nat, j: nat, path: Path,
                                                   seen: Meta)
    requires IsRun(c, cfg, r) && !cfg.shredSource
    requires EncryptsAt(c, cfg, r, i, path) && EncryptsAt(c, cfg, r, j, path)
    requires forall ev :: ev in r.events && ev.Visit? && ev.path == path ==> ev.seen == seen
    requires forall k :: 0 <= k < |r.events| ==> !ForgetsAt(r, k, path)
    ensures i == j
    decreases if i < j then j - i else i - j, i > j
  {
    hide ShouldProcess, Step, Follows, Succeeds, IsRun;
    if i > j {
      UnchangingEncryptedOnce(c, cfg, r, j, i, path, seen);
    } else if i < j {
      if k :| i < k < j && EncryptsAt(c, cfg, r, k, path) {
        UnchangingEncryptedOnce(c, cfg, r, i, k, path, seen);
      } else {
        ReEncryptedOnlyWhenChanged(c, cfg, r, i, j, path);
      }
    }
  }

  /** Event i notes the size of `path` without trying it. */
  predicate NotesAt(r: Run, i: nat, path: Path) {
    i < |r.events| && i < |r.states| && r.events[i].Visit? && r.events[i].path == path
      && Records(r.states[i], r.events[i])
  }

  predicate TriesAt(r: Run, i: nat, path: Path) {
    i < |r.events| && i < |r.states| && r.events[i].Visit? && r.events[i].path == path
      && Tries(r.states[i], r.events[i])
  }

  /** A candidate was noted by some event, and not noted again or tried since. */
  lemma {:induction false} CandidateWasNoted(c: Crypto, cfg: Config, r: Run, k: nat, path: Path) returns (i: nat)
    requires IsRun(c, cfg, r) && k < |r.states| && path in r.states[k].candidates
    ensures i < k && NotesAt(r, i, path)
    ensures r.states[k].candidates[path] == Sighting(r.events[i].seen.size, r.events[i].now)
    ensures forall l :: i < l < k ==> !NotesAt(r, l, path) && !TriesAt(r, l, path)
    decreases k
  {
    hide ShouldProcess, DiskAfter, MadeBy, EntryFor, Sealed, Succeeds;
    assert k > 0;
    var s, ev := r.states[k - 1], r.events[k - 1];
    assert Follows(c, cfg, s, ev, r.states[k]);
    if NotesAt(r, k - 1, path) {
      i := k - 1;
    } else {
      i := CandidateWasNoted(c, cfg, r, k - 1, path);
      assert !TriesAt(r, k - 1, path);
    }
  }

  /**
   Every attempt was preceded by a sighting of the same size at least half a second earlier, with no sighting or
   attempt in between; the attempt uses the sighting up.
   */
  lemma AttemptsAreDebounced(c: Crypto, cfg: Config, r: Run, j: nat, path: Path) returns (i: nat)
    requires IsRun(c, cfg, r) && TriesAt(r, j, path)
    ensures i < j && NotesAt(r, i, path)
    ensures r.events[i].seen.size == r.events[j].seen.size
    ensures r.events[j].checked >= r.events[i].now + SETTLE_MILLIS
    ensures forall l :: i < l < j ==> !NotesAt(r, l, path) && !TriesAt(r, l, path)
    ensures path !in r.states[j + 1].candidates
  {
    hide ShouldProcess, DiskAfter, MadeBy, EntryFor, Sealed, Succeeds;
    assert Follows(c, cfg, r.states[j], r.events[j], r.states[j + 1]);
    i := CandidateWasNoted(c, cfg, r, j, path);
  }
}
