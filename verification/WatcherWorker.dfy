/** The worker loop itself: collect_watch_files and the polling body of src/watcher/mod.rs, against FolderWatcher. */
module WatcherWorker {
  import opened BigEndian
  import opened Outcomes
  import opened Primitives
  import opened Streams
  import opened Container
  import opened Encryptor
  import opened Text
  import opened FileNames
  import opened WatchFilter
  import opened FilterCases
  import opened FolderWatcher

  // Collecting files.

  /** A folder the walk goes into. */
  predicate Visible(name: string) {
    !StartsWith(name, ".") && name != "node_modules" && name != ".git"
  }

  lemma VisibleExactly(name: string)
    ensures Visible(name) <==> !("." <= name) && name != "node_modules"
  {
  }

  /** What the walk from `dir` finds: files below it, reached through visible folders and never through `out`. */
  ghost predicate InScope(cfg: Config, disk: Disk, dir: Path, p: Path) {
    && dir < p && p in disk && disk[p].File?
    && (cfg.recursive || |p| == |dir| + 1)
    && !EndsWith(Lower(cfg.fold, Name(p)), CONTAINER_SUFFIX)
    && (forall k: nat :: |dir| < k <= |p| ==> Reached(cfg, disk, p, k))
  }

  /** The walk comes past the first k components of a path: not the output folder, and a visible folder on the way. */
  predicate Reached(cfg: Config, disk: Disk, p: Path, k: nat)
    requires 0 < k <= |p|
  {
    && p[..k] != cfg.out
    && (k < |p| ==> p[..k] in disk && disk[p[..k]].Directory? && Visible(p[k - 1]))
  }

  /** Everything below a folder. */
  ghost function Below(disk: Disk, dir: Path): set<Path> {
    set p | p in disk && dir < p
  }

  function Entries(disk: Disk, dir: Path): set<Path> {
    set p | p in disk && |p| == |dir| + 1 && dir <= p
  }

  /** The part of the walk through one entry of `dir`. */
  ghost predicate Through(cfg: Config, disk: Disk, dir: Path, child: Path, p: Path) {
    child <= p && InScope(cfg, disk, dir, p)
  }

  lemma ScopeOfFile(cfg: Config, disk: Disk, dir: Path, child: Path)
    requires child in Entries(disk, dir) && disk[child].File?
    ensures child == cfg.out || EndsWith(Lower(cfg.fold, Name(child)), CONTAINER_SUFFIX)
            ==> forall p :: !Through(cfg, disk, dir, child, p)
    ensures child != cfg.out && !EndsWith(Lower(cfg.fold, Name(child)), CONTAINER_SUFFIX) ==>
              forall p :: Through(cfg, disk, dir, child, p) <==> p == child
  {
    hide EndsWith;
    assert child[..|child|] == child;
    forall p | Through(cfg, disk, dir, child, p)
      ensures p == child && child != cfg.out
    {
      assert p[..|child|] == child && Reached(cfg, disk, p, |child|);
    }
  }

  lemma ScopeOfFolder(cfg: Config, disk: Disk, dir: Path, child: Path)
    requires child in Entries(disk, dir) && disk[child].Directory?
    ensures child == cfg.out || !cfg.recursive || !Visible(Name(child))
            ==> forall p :: !Through(cfg, disk, dir, child, p)
    ensures child != cfg.out && cfg.recursive && Visible(Name(child)) ==>
              forall p :: Through(cfg, disk, dir, child, p) <==> InScope(cfg, disk, child, p)
  {
    hide EndsWith, Visible, Lower, InScope;
    forall p | Through(cfg, disk, dir, child, p)
      ensures child != cfg.out && cfg.recursive && Visible(Name(child)) && InScope(cfg, disk, child, p)
    {
      ScopeNarrows(cfg, disk, dir, child, p);
    }
    if child != cfg.out && cfg.recursive && Visible(Name(child)) {
      forall p | InScope(cfg, disk, child, p)
        ensures Through(cfg, disk, dir, child, p)
      {
        ScopeWidens(cfg, disk, dir, child, p);
      }
    }
  }

  /** A file found through a folder is found by the walk from there. */
  lemma ScopeNarrows(cfg: Config, disk: Disk, dir: Path, child: Path, p: Path)
    requires child in Entries(disk, dir) && disk[child].Directory? && Through(cfg, disk, dir, child, p)
    ensures child != cfg.out && cfg.recursive && Visible(Name(child)) && InScope(cfg, disk, child, p)
  {
    hide EndsWith, Visible, Lower;
    var n := |child|;
    assert p[..n] == child && p != child;
    assert n < |p|;
    assert Reached(cfg, disk, p, n);
    assert p[n - 1] == Name(child);
  }

  /** And the other way round. */
  lemma ScopeWidens(cfg: Config, disk: Disk, dir: Path, child: Path, p: Path)
    requires child in Entries(disk, dir) && disk[child].Directory? && InScope(cfg, disk, child, p)
    requires child != cfg.out && cfg.recursive && Visible(Name(child))
    ensures Through(cfg, disk, dir, child, p)
  {
    hide EndsWith, Visible, Lower;
    var n := |child|;
    assert p[..n] == child;
    assert p[n - 1] == Name(child);
    assert Reached(cfg, disk, p, n);
    forall k: nat | |dir| < k <= |p|
      ensures Reached(cfg, disk, p, k)
    {
      assert k == n || n < k;
    }
  }

  /** No path is listed twice. */
  predicate Distinct(files: seq<Path>) {
    forall i, j :: 0 <= i < j < |files| ==> files[i] != files[j]
  }

  lemma DistinctAppend(a: seq<Path>, b: seq<Path>)
    requires Distinct(a) && Distinct(b) && forall p :: p in a ==> p !in b
    ensures Distinct(a + b)
  {
    var all := a + b;
    forall i, j | 0 <= i < j < |all|
      ensures all[i] != all[j]
    {
      assert i < |a| ==> all[i] in a;
      assert j >= |a| ==> all[j] in b;
    }
  }

  /** The parts of a walk through different entries have no file in common. */
  lemma EntriesApart(cfg: Config, disk: Disk, dir: Path, child: Path, p: Path)
    requires child in Entries(disk, dir) && Through(cfg, disk, dir, child, p)
    ensures forall other :: other in Entries(disk, dir) && Through(cfg, disk, dir, other, p) ==> other == child
  {
    hide InScope;
    forall other | other in Entries(disk, dir) && Through(cfg, disk, dir, other, p)
      ensures other == child
    {
      assert p[..|child|] == child && p[..|other|] == other;
    }
  }

  /** Lists the files of a folder, in whatever order the system names its entries. */
  method CollectWatchFiles(cfg: Config, disk: Disk, dir: Path) returns (files: seq<Path>)
    ensures forall p :: p in files <==> InScope(cfg, disk, dir, p)
    ensures Distinct(files)
    decreases Below(disk, dir)
  {
    hide InScope, Visible, EndsWith, Distinct, Through;
    files := [];
    NothingTwice();
    var left := Entries(disk, dir);
    while left != {}
      invariant left <= Entries(disk, dir)
      invariant forall p :: p in files <==>
                  exists child :: child in Entries(disk, dir) - left && Through(cfg, disk, dir, child, p)
      invariant Distinct(files)
      decreases left
    {
      var child :| child in left;
      ghost var before, done := files, Entries(disk, dir) - left;
      left := left - {child};
      var sub := [];
      if child == cfg.out {
        // neither listed nor entered
      } else if disk[child].File? {
        if !EndsWith(Lower(cfg.fold, Name(child)), CONTAINER_SUFFIX) {
          sub := [child];
        }
      } else if cfg.recursive && Visible(Name(child)) {
        assert Below(disk, child) < Below(disk, dir) by {
          assert child in Below(disk, dir) && child !in Below(disk, child);
        }
        sub := CollectWatchFiles(cfg, disk, child);
      }
      OneEntry(cfg, disk, dir, child);
      NoneTwice(cfg, disk, dir, child, done, files, sub);
      files := files + sub;
      assert Entries(disk, dir) - left == done + {child};
    }
    forall p
      ensures p in files <==> InScope(cfg, disk, dir, p)
    {
      ScopeStartsAtEntry(cfg, disk, dir, p);
    }
  }

  lemma NothingTwice()
    ensures Distinct([]) && forall p: Path :: Distinct([p])
  {
  }

  /** What one more entry leads to is not listed yet. */
  lemma NoneTwice(cfg: Config, disk: Disk, dir: Path, child: Path, done: set<Path>, files: seq<Path>, sub: seq<Path>)
    requires child in Entries(disk, dir) && child !in done && done <= Entries(disk, dir)
    requires forall p :: p in files ==> exists other :: other in done && Through(cfg, disk, dir, other, p)
    requires forall p :: p in sub ==> Through(cfg, disk, dir, child, p)
    requires Distinct(files) && Distinct(sub)
    ensures Distinct(files + sub)
  {
    hide Through, Distinct, Entries;
    forall p | p in files
      ensures p !in sub
    {
      if p in sub {
        EntriesApart(cfg, disk, dir, child, p);
      }
    }
    DistinctAppend(files, sub);
  }

  lemma OneEntry(cfg: Config, disk: Disk, dir: Path, child: Path)
    requires child in Entries(disk, dir)
    ensures if disk[child].File? && child != cfg.out && !EndsWith(Lower(cfg.fold, Name(child)), CONTAINER_SUFFIX)
            then forall p :: Through(cfg, disk, dir, child, p) <==> p == child
            else if disk[child].Directory? && child != cfg.out && cfg.recursive && Visible(Name(child))
            then forall p :: Through(cfg, disk, dir, child, p) <==> InScope(cfg, disk, child, p)
            else forall p :: !Through(cfg, disk, dir, child, p)
  {
    hide EndsWith, Visible, InScope, Through;
    if disk[child].File? {
      ScopeOfFile(cfg, disk, dir, child);
    } else {
      ScopeOfFolder(cfg, disk, dir, child);
    }
  }

  lemma ScopeStartsAtEntry(cfg: Config, disk: Disk, dir: Path, p: Path)
    ensures InScope(cfg, disk, dir, p)
            <==> exists child :: child in Entries(disk, dir) && Through(cfg, disk, dir, child, p)
  {
    hide EndsWith, Visible;
    if InScope(cfg, disk, dir, p) {
      var child := p[..|dir| + 1];
      assert Reached(cfg, disk, p, |dir| + 1);
      if |p| == |dir| + 1 {
        assert child == p;
      }
      assert child in Entries(disk, dir) && Through(cfg, disk, dir, child, p);
    }
  }

  /** In plain words: nothing is found behind a hidden or system folder, nor at or behind the output folder. */
  lemma FoldersLeftOut(cfg: Config, disk: Disk, dir: Path, p: Path, k: nat)
    requires InScope(cfg, disk, dir, p) && |dir| < k <= |p|
    ensures p[..k] != cfg.out
    ensures k < |p| ==> !("." <= p[k - 1]) && p[k - 1] != "node_modules" && p[k - 1] != ".git"
  {
    hide Visible, Lower;
    assert Reached(cfg, disk, p, k);
    VisibleExactly(p[k - 1]);
  }

  /** And every file that is no container is found through folders of any other names. */
  lemma FoldersEntered(cfg: Config, disk: Disk, dir: Path, p: Path)
    requires dir < p && p in disk && disk[p].File? && (cfg.recursive || |p| == |dir| + 1)
    requires var s := Lower(cfg.fold, Name(p)); !(|s| >= 7 && s[|s| - 7..] == ".wraith")
    requires forall k: nat :: |dir| < k <= |p| ==> p[..k] != cfg.out
    requires forall k: nat :: |dir| < k < |p| ==>
               p[..k] in disk && disk[p[..k]].Directory? && !("." <= p[k - 1]) && p[k - 1] != "node_modules"
    ensures InScope(cfg, disk, dir, p)
  {
    hide Visible, Lower, EndsWith;
    EndsExactly(Lower(cfg.fold, Name(p)), ".wraith");
    forall k: nat | |dir| < k <= |p|
      ensures Reached(cfg, disk, p, k)
    {
      assert p[..k] != cfg.out;
      if k < |p| {
        assert p[..k] in disk && disk[p[..k]].Directory?;
        VisibleExactly(p[k - 1]);
      }
    }
  }

  // The worker.

  /** What the system says about a file during one round; None when its metadata cannot be read. */
  datatype Observation = Observation(seen: Meta, now: nat, checked: nat, attempt: Attempt)

  function VisitOf(path: Path, o: Observation): Event {
    Visit(path, o.seen, o.now, o.checked, o.attempt)
  }

  /** The filter wants the file and its metadata can be read. */
  ghost predicate Due(cfg: Config, observe: Path -> Option<Observation>, p: Path) {
    p != [] && observe(p).Some? && Wanted(cfg.fold, Name(p), cfg.filterMode, cfg.filterExtensions)
  }

  ghost predicate VisitedFrom(events: seq<Event>, start: nat, p: Path) {
    exists i :: start <= i < |events| && events[i].Visit? && events[i].path == p
  }

  /** From `start` on, no path is visited twice. */
  ghost predicate OneVisitEach(events: seq<Event>, start: nat) {
    forall i, j :: start <= i < j < |events| && events[i].Visit? && events[j].Visit? ==>
      events[i].path != events[j].path
  }

  lemma NoVisitYet(events: seq<Event>)
    ensures OneVisitEach(events, |events|)
  {
  }

  /** What a round adds: a change by others, and a visit if the file is due. */
  ghost predicate Round(before: seq<Event>, events: seq<Event>, path: Path, due: bool) {
    && |events| == |before| + (if due then 2 else 1) && before < events
    && events[|before|].Outside?
    && (due ==> events[|before| + 1].Visit? && events[|before| + 1].path == path)
  }

  lemma RoundAdds(before: seq<Event>, events: seq<Event>, start: nat, path: Path, due: bool)
    requires start <= |before| && Round(before, events, path, due)
    requires OneVisitEach(before, start)
    requires forall i :: start <= i < |before| && before[i].Visit? ==> before[i].path != path
    ensures OneVisitEach(events, start)
    ensures due ==> VisitedFrom(events, start, path)
    ensures forall p :: VisitedFrom(before, start, p) ==> VisitedFrom(events, start, p)
    ensures forall i :: |before| <= i < |events| ==>
              if events[i].Visit? then events[i].path == path && due else events[i].Outside?
  {
    VisitedStays(before, events, start);
    if due {
      assert events[|before| + 1].Visit?;
    }
  }

  lemma NotYet(files: seq<Path>, n: nat)
    requires Distinct(files) && n < |files|
    ensures files[n] in files && files[n] !in files[..n]
  {
  }

  lemma VisitedStays(events: seq<Event>, more: seq<Event>, start: nat)
    requires events <= more
    ensures forall p :: VisitedFrom(events, start, p) ==> VisitedFrom(more, start, p)
  {
  }

  lemma ScopeIsVisitable(cfg: Config, disk: Disk, p: Path)
    requires InScope(cfg, disk, cfg.watch, p)
    ensures p != [] && cfg.watch < p
    ensures ShouldProcess(cfg.fold, Name(p), cfg.filterMode, cfg.filterExtensions) ==> Visitable(cfg, p)
  {
    hide ShouldProcess, EndsWith, Visible;
    forall k | |cfg.watch| < k <= |p|
      ensures p[..k] != cfg.out
    {
      assert Reached(cfg, disk, p, k);
    }
  }

  class Worker {
    const c: Crypto
    const cfg: Config
    var disk: Disk
    var candidates: map<Path, Sighting>
    var fingerprints: map<Path, Meta>
    var created: set<Path>
    var successes: seq<Success>
    ghost var run: Run

    function Now(): State
      reads this
    {
      State(disk, candidates, fingerprints, created, successes)
    }

    /** The fields are where the recorded run has led. */
    ghost predicate Valid()
      reads this
    {
      c.LawfulAead() && IsRun(c, cfg, run) && run.states[|run.events|] == Now()
    }

    constructor (c: Crypto, cfg: Config, disk: Disk)
      requires c.LawfulAead()
      ensures Valid() && this.c == c && this.cfg == cfg && this.disk == disk && run.events == []
    {
      this.c, this.cfg, this.disk := c, cfg, disk;
      candidates, fingerprints := map[], map[];
      created, successes := {}, [];
      run := Run([State(disk, map[], map[], {}, [])], []);
    }

    /** Adds an event to the recorded run. */
    ghost method Record(ev: Event)
      requires c.LawfulAead() && IsRun(c, cfg, run)
      requires Follows(c, cfg, run.states[|run.events|], ev, Now())
      modifies `run
      ensures Valid() && run.events == old(run.events) + [ev]
    {
      hide Follows;
      ghost var was := run;
      run := Run(run.states + [Now()], run.events + [ev]);
      forall i | 0 <= i < |run.events|
        ensures Follows(c, cfg, run.states[i], run.events[i], run.states[i + 1])
      {
        if i < |was.events| {
          assert Follows(c, cfg, was.states[i], was.events[i], was.states[i + 1]);
        }
      }
    }

    /** Somebody else changes the disk, but not the containers. */
    method Interfere(changed: Disk)
      requires Valid() && Allowed(c, cfg, Now(), Outside(changed))
      modifies this
      ensures Valid() && disk == changed && run.events == old(run.events) + [Outside(changed)]
    {
      disk := changed;
      Record(Outside(changed));
    }

    /** Drops what the worker remembers about paths that no longer exist. */
    method ForgetMissing()
      requires Valid()
      modifies this
      ensures Valid() && disk == old(disk) && run.events == old(run.events) + [CleanUp]
      ensures forall p :: p in candidates <==> p in old(candidates) && p in disk
      ensures forall p :: p in candidates ==> candidates[p] == old(candidates)[p]
      ensures forall p :: p in fingerprints <==> p in old(fingerprints) && p in disk
      ensures forall p :: p in fingerprints ==> fingerprints[p] == old(fingerprints)[p]
    {
      candidates := map p | p in candidates && p in disk :: candidates[p];
      fingerprints := map p | p in fingerprints && p in disk :: fingerprints[p];
      Record(CleanUp);
    }

    /** The encryption itself, from an opened file into a fresh one. */
    method SealFile(path: Path, content: Bytes, entropy: Entropy) returns (r: Option<Bytes>)
      requires c.LawfulAead() && path != [] && entropy.Shaped()
      ensures var sealed := Sealed(c, cfg, path, content, entropy);
              if r.Some? then sealed.Ok? && r.value == Layout(sealed.value) else sealed.Err?
    {
      hide Layout, Encode;
      var reader := new Reader(content);
      var sink := new Sink(None);
      var result := EncryptStream(c, reader, sink, cfg.key, Options(cfg, path), entropy);
      r := if result.Ok? then Some(sink.written) else None;
      assert result.Ok? ==> [] + Layout(Sealed(c, cfg, path, content, entropy).value) == sink.written;
    }

    /** Encrypts into the temporary file and renames it; on failure removes it. */
    method EncryptTo(path: Path, a: Attempt) returns (ok: bool)
      requires c.LawfulAead() && cfg.watch < path && a.entropy.Shaped()
      modifies `disk
      ensures ok <==> Encrypts(c, cfg, path, a)
      ensures disk == AfterEncrypting(c, cfg, old(disk), path, a)
    {
      hide TempPath, Destination, Layout, Sealed;
      ok := false;
      if a.content.Some? && a.tempCreated {
        var temp := TempPath(c, cfg, path, a.micros);
        disk := disk[temp := File([])];
        var sealed := SealFile(path, a.content.value, a.entropy);
        match sealed
        case None =>
          disk := disk - {temp};
        case Some(bytes) =>
          Commit(temp, Destination(c, cfg, path), bytes, a.renamed);
          ok := true;
      }
    }

    /** Finishes the temporary file and renames it, if that works. */
    method Commit(temp: Path, destination: Path, bytes: Bytes, renamed: bool)
      modifies `disk
      ensures disk
           == if renamed then (old(disk) - {temp})[destination := File(bytes)] else old(disk)[temp := File(bytes)]
    {
      disk := disk[temp := File(bytes)];
      if renamed {
        disk := disk - {temp};
        disk := disk[destination := File(bytes)];
      }
    }

    /** Tries a settled file. */
    method TryFile(path: Path, seen: Meta, a: Attempt)
      requires c.LawfulAead() && cfg.watch < path && a.entropy.Shaped()
      modifies `disk, `candidates, `fingerprints, `created, `successes
      ensures disk == DiskAfter(c, cfg, old(disk), path, a)
      ensures candidates == old(candidates) - {path}
      ensures created == old(created) + MadeBy(c, cfg, path, a)
      ensures if Encrypts(c, cfg, path, a)
              then fingerprints
                   == (if cfg.shredSource then old(fingerprints) - {path} else old(fingerprints)[path := seen])
                   && successes == old(successes) + [SuccessOf(c, cfg, path, seen, a)]
              else fingerprints == old(fingerprints) && successes == old(successes)
    {
      hide AfterEncrypting, AfterShredding, EntryFor, Sealed, MadeBy;
      var ok := EncryptTo(path, a);
      if ok {
        if cfg.shredSource {
          Shred(path, a);
          fingerprints := fingerprints - {path};
        } else {
          fingerprints := fingerprints[path := seen];
        }
        successes := successes + [SuccessOf(c, cfg, path, seen, a)];
      }
      created := created + MadeBy(c, cfg, path, a);
      candidates := candidates - {path};
    }

    /** Shreds the file, under names of its own, and removes what is left of it. */
    method Shred(path: Path, a: Attempt)
      requires path != []
      modifies `disk
      ensures disk == AfterShredding(old(disk), path, a)
    {
      disk := disk - ShredPaths(path, if a.shredded then a.shredNames else []);
      match a.left
      case None => disk := disk - {path};
      case Some(bytes) => disk := disk[path := File(bytes)];
    }

    /** One round for one file. */
    method VisitFile(path: Path, o: Observation)
      requires Valid() && Visitable(cfg, path) && WellFormed(VisitOf(path, o))
      modifies this
      ensures Valid() && run.events == old(run.events) + [VisitOf(path, o)]
    {
      hide ShouldProcess, DiskAfter, MadeBy, SuccessOf, Encrypts;
      ghost var before := Now();
      ghost var ev := VisitOf(path, o);
      if path in fingerprints && fingerprints[path] == o.seen {
        assert Now() == Step(c, cfg, before, ev);
      } else if path in candidates && candidates[path].size == o.seen.size
        && o.checked >= candidates[path].at + SETTLE_MILLIS {
        TryFile(path, o.seen, o.attempt);
        assert Now() == Step(c, cfg, before, ev);
      } else {
        candidates := candidates[path := Sighting(o.seen.size, o.now)];
        assert Now() == Step(c, cfg, before, ev);
      }
      Record(ev);
    }

    /** One round of a poll: others may change the disk, then the file is visited if the filter takes it. */
    method VisitCollected(path: Path, n: nat, observe: Path -> Option<Observation>, others: (State, nat) -> Disk)
      requires Valid() && path != []
      requires ShouldProcess(cfg.fold, Name(path), cfg.filterMode, cfg.filterExtensions) ==> Visitable(cfg, path)
      requires Allowed(c, cfg, Now(), Outside(others(Now(), n)))
      requires observe(path).Some? ==> WellFormed(VisitOf(path, observe(path).value))
      modifies this
      ensures Valid() && Round(old(run.events), run.events, path, Due(cfg, observe, path))
    {
      hide ShouldProcess, IsRun, WellFormed, Visitable, Allowed, Wanted;
      TakesExactlyWanted(cfg.fold, Name(path), cfg.filterMode, cfg.filterExtensions);
      Interfere(others(Now(), n));
      if ShouldProcess(cfg.fold, Name(path), cfg.filterMode, cfg.filterExtensions) {
        match observe(path)
        case None =>
        case Some(o) =>
          VisitFile(path, o);
      }
    }

    /**
     One poll: every collected file that passes the filter is visited once, then missing paths are forgotten. Before
     each visit others may change the disk, in any way that leaves the containers alone.
     */
    method Poll(observe: Path -> Option<Observation>, others: (State, nat) -> Disk)
      requires Valid()
      requires forall s, n :: Allowed(c, cfg, s, Outside(others(s, n)))
      requires forall p :: p != [] && observe(p).Some? ==> WellFormed(VisitOf(p, observe(p).value))
      modifies this
      ensures Valid() && old(run.events) < run.events && run.events[|run.events| - 1] == CleanUp
      ensures forall i :: |old(run.events)| <= i < |run.events| - 1 ==>
                if run.events[i].Visit?
                then InScope(cfg, old(disk), cfg.watch, run.events[i].path) && Due(cfg, observe, run.events[i].path)
                else run.events[i].Outside?
      ensures OneVisitEach(run.events[..|run.events| - 1], |old(run.events)|)
      ensures forall p :: InScope(cfg, old(disk), cfg.watch, p) && Due(cfg, observe, p) ==>
                VisitedFrom(run.events, |old(run.events)|, p)
    {
      hide ShouldProcess, IsRun, WellFormed, InScope, Visitable, VisitedFrom, OneVisitEach, Distinct, Due, Allowed;
      var files := CollectWatchFiles(cfg, disk, cfg.watch);
      ghost var start := run.events;
      NoVisitYet(start);
      var n := 0;
      while n < |files|
        invariant n <= |files| && Valid()
        invariant start <= run.events
        invariant forall i :: |start| <= i < |run.events| ==>
                    if run.events[i].Visit?
                    then run.events[i].path in files[..n] && Due(cfg, observe, run.events[i].path)
                    else run.events[i].Outside?
        invariant OneVisitEach(run.events, |start|)
        invariant forall k :: 0 <= k < n && Due(cfg, observe, files[k]) ==> VisitedFrom(run.events, |start|, files[k])
      {
        NotYet(files, n);
        ScopeIsVisitable(cfg, old(disk), files[n]);
        ghost var before := run.events;
        VisitCollected(files[n], n, observe, others);
        RoundAdds(before, run.events, |start|, files[n], Due(cfg, observe, files[n]));
        n := n + 1;
      }
      VisitedStays(run.events, run.events + [CleanUp], |start|);
      ForgetMissing();
      forall p | InScope(cfg, old(disk), cfg.watch, p) && Due(cfg, observe, p)
        ensures VisitedFrom(run.events, |start|, p)
      {
        assert p in files;
      }
    }
  }
}
