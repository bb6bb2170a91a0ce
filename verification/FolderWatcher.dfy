/** One watcher worker as a step machine: the polling loop of start_folder_watcher in src/watcher/mod.rs. */
module FolderWatcher {
  import opened BigEndian
  import opened Outcomes
  import opened Primitives
  import opened Wraith
  import opened Container
  import opened Encryptor
  import opened Text
  import opened FileNames
  import opened WatchFilter
  import opened Csv

  datatype Node = File(content: Bytes) | Directory

  type Disk = map<Path, Node>

  datatype Config = Config(
    fold: Fold,
    watch: Path,
    out: Path,
    key: Bytes,
    suite: Suite,
    nameFuzzing: bool,
    shredSource: bool,
    recursive: bool,
    filterMode: string,
    filterExtensions: seq<string>
  )

  /** The size and modification time of a file. */
  datatype Meta = Meta(size: nat, mtime: nat)

  /** What the surroundings contribute when a file is tried: everything here is free. */
  datatype Attempt = Attempt(
    hashed: Option<Bytes>,       // what the audit hash read, if it could
    content: Option<Bytes>,      // what the encryption reads, if the file opens
    micros: nat,                 // the number in the temporary name
    tempCreated: bool,
    renamed: bool,               // whether the temporary file could be renamed; the worker does not look
    entropy: Entropy,
    shredNames: seq<string>,     // the random parts of the shredder's names
    shredded: bool,
    left: Option<Bytes>,         // what is left at the path of a shredded file that could not be removed
    timestamp: string
  )

  /** One round for one file, at the end of a poll, or a change by somebody else. Times are in milliseconds. */
  datatype Event =
    | Visit(path: Path, seen: Meta, now: nat, checked: nat, attempt: Attempt)
    | CleanUp
    | Outside(disk: Disk)

  datatype Sighting = Sighting(size: nat, at: nat)

  /** A file that was encrypted: where, what was read, and the log entry. */
  datatype Success = Success(path: Path, seen: Meta, content: Bytes, entropy: Entropy, entry: AuditEntry)

  /** `created` and `successes` are the history of the worker: the paths it has made and the files it has encrypted. */
  datatype State = State(
    disk: Disk,
    candidates: map<Path, Sighting>,
    fingerprints: map<Path, Meta>,
    created: set<Path>,
    successes: seq<Success>
  )

  const SETTLE_MILLIS: nat := 500

  /**
   Whether the worker looks at a path at all: it is below the watched folder, not in the output folder, and passes
   the filter.
   */
  ghost predicate Visitable(cfg: Config, path: Path) {
    && cfg.watch < path
    && (cfg.recursive || |path| == |cfg.watch| + 1)
    && (forall k :: |cfg.watch| < k <= |path| ==> path[..k] != cfg.out)
    && ShouldProcess(cfg.fold, Name(path), cfg.filterMode, cfg.filterExtensions)
  }

  function RelativePath(cfg: Config, path: Path): Path
    requires cfg.watch < path
  {
    path[|cfg.watch|..]
  }

  function OutName(c: Crypto, cfg: Config, name: string): string {
    if cfg.nameFuzzing then FuzzedName(c, name) else PlainName(name)
  }

  function TargetDir(cfg: Config, path: Path): Path
    requires cfg.watch < path
  {
    var rel := RelativePath(cfg, path);
    if cfg.recursive then cfg.out + rel[..|rel| - 1] else cfg.out
  }

  /** Where the container of a file goes. */
  function Destination(c: Crypto, cfg: Config, path: Path): Path
    requires cfg.watch < path
  {
    TargetDir(cfg, path) + [OutName(c, cfg, Name(path))]
  }

  function TempPath(c: Crypto, cfg: Config, path: Path, micros: nat): Path
    requires cfg.watch < path
  {
    TargetDir(cfg, path) + [TempName(OutName(c, cfg, Name(path)), micros)]
  }

  function Options(cfg: Config, path: Path): EncryptOptions
    requires path != []
  {
    DefaultOptions(cfg.suite, Name(path))
  }

  /** The container made of a file's bytes. */
  function Sealed(c: Crypto, cfg: Config, path: Path, content: Bytes, entropy: Entropy): Result<Container, WraithError>
    requires path != [] && entropy.Shaped()
  {
    Encode(c, cfg.key, content, Options(cfg, path), entropy)
  }

  function AuditHash(c: Crypto, hashed: Option<Bytes>): string {
    match hashed
    case None => "0000"
    case Some(content) => Hex(c.sha256(content))
  }

  function EntryFor(c: Crypto, cfg: Config, path: Path, seen: Meta, a: Attempt): AuditEntry
    requires cfg.watch < path
  {
    AuditEntry(a.timestamp, Name(path), Slashed(RelativePath(cfg, path)), OutName(c, cfg, Name(path)), seen.size,
               cfg.shredSource && a.shredded, AuditHash(c, a.hashed))
  }

  /** What the history keeps of an attempt that succeeds. */
  function SuccessOf(c: Crypto, cfg: Config, path: Path, seen: Meta, a: Attempt): Success
    requires cfg.watch < path && a.content.Some?
  {
    Success(path, seen, a.content.value, a.entropy, EntryFor(c, cfg, path, seen, a))
  }

  /** What the shredder leaves on its way: siblings of the file under its own names. */
  function ShredPaths(path: Path, names: seq<string>): set<Path>
    requires path != []
  {
    set n | n in names :: path[..|path| - 1] + [ShreddedName(n)]
  }

  // The decisions for one file.

  /** The file is unchanged since it was last encrypted. */
  predicate AlreadyDone(s: State, path: Path, seen: Meta) {
    path in s.fingerprints && s.fingerprints[path] == seen
  }

  /** The file had this size at least half a second ago. */
  predicate Settled(s: State, path: Path, seen: Meta, checked: nat) {
    path in s.candidates && s.candidates[path].size == seen.size && checked >= s.candidates[path].at + SETTLE_MILLIS
  }

  predicate Tries(s: State, ev: Event) {
    ev.Visit? && !AlreadyDone(s, ev.path, ev.seen) && Settled(s, ev.path, ev.seen, ev.checked)
  }

  predicate Records(s: State, ev: Event) {
    ev.Visit? && !AlreadyDone(s, ev.path, ev.seen) && !Settled(s, ev.path, ev.seen, ev.checked)
  }

  predicate WellFormed(ev: Event) {
    ev.Visit? ==>
      && ev.path != [] && ev.attempt.entropy.Shaped()
      && (ev.attempt.shredded ==> ev.attempt.left == None)
      && forall n :: n in ev.attempt.shredNames ==> AllHex(n)
  }

  predicate Succeeds(c: Crypto, cfg: Config, s: State, ev: Event)
    requires WellFormed(ev)
  {
    Tries(s, ev) && Encrypts(c, cfg, ev.path, ev.attempt)
  }

  /** The file opens, the temporary file can be made and the encryption succeeds. */
  predicate Encrypts(c: Crypto, cfg: Config, path: Path, a: Attempt)
    requires path != [] && a.entropy.Shaped()
  {
    a.content.Some? && a.tempCreated && Sealed(c, cfg, path, a.content.value, a.entropy).Ok?
  }

  /** The disk after encrypting into the temporary file and renaming it. */
  function AfterEncrypting(c: Crypto, cfg: Config, disk: Disk, path: Path, a: Attempt): Disk
    requires cfg.watch < path && a.entropy.Shaped()
  {
    if a.content.None? || !a.tempCreated then disk
    else
      var temp := TempPath(c, cfg, path, a.micros);
      match Sealed(c, cfg, path, a.content.value, a.entropy)
      case Err(_) => disk - {temp}
      case Ok(k) =>
        if a.renamed then (disk - {temp})[Destination(c, cfg, path) := File(Layout(k))]
        else disk[temp := File(Layout(k))]
  }

  function AfterShredding(disk: Disk, path: Path, a: Attempt): Disk
    requires path != []
  {
    var rest := disk - ShredPaths(path, if a.shredded then a.shredNames else []);
    match a.left
    case None => rest - {path}
    case Some(bytes) => rest[path := File(bytes)]
  }

  /** The disk after an attempt. */
  function DiskAfter(c: Crypto, cfg: Config, disk: Disk, path: Path, a: Attempt): Disk
    requires cfg.watch < path && a.entropy.Shaped()
  {
    var after := AfterEncrypting(c, cfg, disk, path, a);
    if Encrypts(c, cfg, path, a) && cfg.shredSource then AfterShredding(after, path, a) else after
  }

  /** The paths an attempt makes, even for a moment. */
  function MadeBy(c: Crypto, cfg: Config, path: Path, a: Attempt): set<Path>
    requires cfg.watch < path && a.entropy.Shaped()
  {
    if a.content.None? || !a.tempCreated then {}
    else
      var temp := TempPath(c, cfg, path, a.micros);
      if Sealed(c, cfg, path, a.content.value, a.entropy).Err? then {temp}
      else {temp, Destination(c, cfg, path)} + if cfg.shredSource then ShredPaths(path, a.shredNames) else {}
  }

  /** One step of the machine. */
  function Step(c: Crypto, cfg: Config, s: State, ev: Event): State
    requires WellFormed(ev) && (ev.Visit? ==> cfg.watch < ev.path)
  {
    match ev
    case Outside(disk) => s.(disk := disk)
    case CleanUp =>
      s.(candidates := map p | p in s.candidates && p in s.disk :: s.candidates[p],
         fingerprints := map p | p in s.fingerprints && p in s.disk :: s.fingerprints[p])
    case Visit(path, seen, now, checked, a) =>
      if AlreadyDone(s, path, seen) then s
      else if !Settled(s, path, seen, checked) then s.(candidates := s.candidates[path := Sighting(seen.size, now)])
      else
        var tried := s.(candidates := s.candidates - {path},
                        disk := DiskAfter(c, cfg, s.disk, path, a),
                        created := s.created + MadeBy(c, cfg, path, a));
        if !Encrypts(c, cfg, path, a) then tried
        else tried.(fingerprints := if cfg.shredSource then s.fingerprints - {path} else s.fingerprints[path := seen],
                    successes := s.successes + [SuccessOf(c, cfg, path, seen, a)])
  }

  /** An event the worker or its surroundings may produce. Nobody else changes the containers it has made. */
  ghost predicate Allowed(c: Crypto, cfg: Config, s: State, ev: Event) {
    && WellFormed(ev)
    && (ev.Visit? ==> Visitable(cfg, ev.path))
    && (ev.Outside? ==>
          forall x :: x in s.successes && cfg.watch < x.path ==> SameAt(s.disk, ev.disk, Destination(c, cfg, x.path)))
  }

  predicate SameAt(d: Disk, d': Disk, p: Path) {
    (p in d <==> p in d') && (p in d ==> d[p] == d'[p])
  }

  // Runs.

  /** A fresh worker over some disk. */
  predicate Fresh(s: State) {
    s.candidates == map[] && s.fingerprints == map[] && s.created == {} && s.successes == []
  }

  /** A run: the events, and the states before, between and after them. */
  datatype Run = Run(states: seq<State>, events: seq<Event>)

  ghost predicate Follows(c: Crypto, cfg: Config, s: State, ev: Event, s': State) {
    Allowed(c, cfg, s, ev) && s' == Step(c, cfg, s, ev)
  }

  ghost predicate IsRun(c: Crypto, cfg: Config, r: Run) {
    && |r.states| == |r.events| + 1
    && Fresh(r.states[0])
    && forall i :: 0 <= i < |r.events| ==> Follows(c, cfg, r.states[i], r.events[i], r.states[i + 1])
  }
}
