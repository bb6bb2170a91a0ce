/** Backup archives: src/backup/mod.rs. The destination folder is a map from names to contents. */
module Backup {
  import opened BigEndian
  import opened Outcomes
  import opened Primitives
  import opened Streams
  import opened Wraith
  import opened Container
  import opened Encryptor
  import opened Decryptor
  import opened Text
  import opened FileNames

  const MANIFEST_NAME: string := "backup_manifest.wraith"

  // The source tree.

  /** What an entry of a folder may be; a locked folder cannot be listed. */
  datatype Tree = Leaf(content: Bytes, mtime: nat) | Folder(children: Forest) | Locked

  /** The entries of a folder, in the order the system lists them. */
  datatype Forest = Empty | Entry(name: string, tree: Tree, more: Forest)

  datatype SourceFile = SourceFile(path: Path, content: Bytes, mtime: nat)

  /** Every folder, at any depth, can be listed. */
  predicate Readable(f: Forest) {
    match f
    case Empty => true
    case Entry(_, Leaf(_, _), more) => Readable(more)
    case Entry(_, Folder(children), more) => Readable(children) && Readable(more)
    case Entry(_, Locked, _) => false
  }

  /** The files of a folder that are backed up, with their paths below `at`. */
  function Collected(f: Forest, at: Path): seq<SourceFile> {
    match f
    case Empty => []
    case Entry(name, Leaf(content, mtime), more) =>
      (if name == MANIFEST_NAME then [] else [SourceFile(at + [name], content, mtime)]) + Collected(more, at)
    case Entry(name, Folder(children), more) => Collected(children, at + [name]) + Collected(more, at)
    case Entry(_, Locked, more) => Collected(more, at)
  }

  /** Walks the tree, pushing onto a list; stops at the first folder that cannot be listed. */
  method CollectFilesRecursive(f: Forest, at: Path, list: seq<SourceFile>)
    returns (r: Result<seq<SourceFile>, BackupError>)
    ensures r == if Readable(f) then Ok(list + Collected(f, at)) else Err(FolderUnreadable)
    decreases f
  {
    var all := list;
    var left := f;
    while left.Entry?
      invariant left == f || left < f
      invariant Readable(left) <==> Readable(f)
      invariant all + Collected(left, at) == list + Collected(f, at)
      decreases left
    {
      ghost var before, was := all, left;
      match left.tree
      case Folder(children) =>
        var below := CollectFilesRecursive(children, at + [left.name], all);
        if below.Err? {
          return below;
        }
        all := below.value;
        left := left.more;
        assert before + Collected(was, at) == before + Collected(children, at + [was.name]) + Collected(left, at);
      case Leaf(content, mtime) =>
        if left.name != MANIFEST_NAME {
          all := all + [SourceFile(at + [left.name], content, mtime)];
        }
        left := left.more;
        assert before + Collected(was, at) == all + Collected(left, at);
      case Locked =>
        return Err(FolderUnreadable);
    }
    assert all + Collected(left, at) == all;
    r := Ok(all);
  }

  /** Looks a path up in a folder. */
  function FileAt(f: Forest, p: Path): Option<(Bytes, nat)> {
    if p == [] then None
    else match f
      case Empty => None
      case Entry(name, tree, more) =>
        if name != p[0] then FileAt(more, p)
        else match tree
          case Leaf(content, mtime) => if |p| == 1 then Some((content, mtime)) else None
          case Folder(children) => FileAt(children, p[1..])
          case Locked => None
  }

  function Names(f: Forest): set<string> {
    if f.Empty? then {} else {f.name} + Names(f.more)
  }

  /** A real folder: names are distinct, not empty, and free of slashes. */
  predicate Proper(f: Forest) {
    match f
    case Empty => true
    case Entry(name, tree, more) =>
      name !in Names(more) && ProperName(name) && Proper(more) && (tree.Folder? ==> Proper(tree.children))
  }

  predicate ProperName(name: string) {
    name != "" && '/' !in name
  }

  // The archive.

  datatype BackupEntry = BackupEntry(blindedId: string, relativePath: string, originalSize: nat,
                                     originalSha256: string, modified: nat)

  datatype BackupManifest = BackupManifest(version: nat, createdAt: nat, totalFiles: nat, totalBytes: nat,
                                           suiteId: nat, entries: seq<BackupEntry>)

  datatype BackupError =
    | FolderUnreadable
    | EncryptionFailed(cause: WraithError)
    | ManifestMissing
    | ManifestUnreadable(cause: WraithError)
    | ManifestInvalid
    | FileMissing(blindedId: string)
    | DecryptionFailed(cause: WraithError)
    | HashMismatch(relativePath: string)

  /** The relative path as it is recorded: every backslash becomes a slash, also one that is part of a name. */
  function RelativeName(p: Path): string {
    ForwardSlashes(Slashed(p))
  }

  function BlindedId(c: Crypto, relativePath: string): string {
    Hex(c.sha256(c.utf8("WRAITH_BACKUP_BLINDED_V1:") + c.utf8(relativePath))) + CONTAINER_SUFFIX
  }

  function EntryFor(c: Crypto, f: SourceFile): BackupEntry {
    var rel := RelativeName(f.path);
    BackupEntry(BlindedId(c, rel), rel, |f.content|, Hex(c.sha256(f.content)), f.mtime)
  }

  function EntriesFor(c: Crypto, files: seq<SourceFile>): (es: seq<BackupEntry>)
    ensures |es| == |files|
  {
    if files == [] then [] else EntriesFor(c, files[..|files| - 1]) + [EntryFor(c, files[|files| - 1])]
  }

  function TotalBytes(files: seq<SourceFile>): nat {
    if files == [] then 0 else TotalBytes(files[..|files| - 1]) + |files[|files| - 1].content|
  }

  /** The container for file i of a run. */
  function FileContainer(c: Crypto, key: Bytes, suite: Suite, f: SourceFile, e: Entropy): Result<Container, WraithError>
    requires e.Shaped()
  {
    Encode(c, key, f.content, DefaultOptions(suite, BlindedId(c, RelativeName(f.path))), e)
  }

  type Archive = map<string, Bytes>

  ghost predicate Shaped(entropy: nat -> Entropy) {
    forall n :: entropy(n).Shaped()
  }

  /** The archive after the files; each container replaces whatever had its name. */
  ghost function Stored(c: Crypto, key: Bytes, suite: Suite, files: seq<SourceFile>, entropy: nat -> Entropy,
                        archive: Archive): Result<Archive, BackupError>
    requires Shaped(entropy)
    decreases |files|
  {
    if files == [] then Ok(archive)
    else
      var n := |files| - 1;
      match Stored(c, key, suite, files[..n], entropy, archive)
      case Err(e) => Err(e)
      case Ok(before) =>
        match FileContainer(c, key, suite, files[n], entropy(n))
        case Err(e) => Err(EncryptionFailed(e))
        case Ok(k) => Ok(before[BlindedId(c, RelativeName(files[n].path)) := Layout(k)])
  }

  function ManifestFor(c: Crypto, suite: Suite, files: seq<SourceFile>, now: nat): BackupManifest {
    BackupManifest(1, now, |files|, TotalBytes(files), suite.Id(), EntriesFor(c, files))
  }

  ghost function Created(c: Crypto, json: Json<BackupManifest>, key: Bytes, suite: Suite, files: seq<SourceFile>,
                         entropy: nat -> Entropy, now: nat, archive: Archive): Result<Archive, BackupError>
    requires Shaped(entropy)
  {
    match Stored(c, key, suite, files, entropy, archive)
    case Err(e) => Err(e)
    case Ok(before) =>
      match Encode(c, key, json.write(ManifestFor(c, suite, files, now)),
                   DefaultOptions(suite, "backup_manifest.json"), entropy(|files|))
      case Err(e) => Err(EncryptionFailed(e))
      case Ok(k) => Ok(before[MANIFEST_NAME := Layout(k)])
  }

  /** Encrypts some bytes into a fresh file. */
  method EncryptBytes(c: Crypto, key: Bytes, data: Bytes, o: EncryptOptions, e: Entropy)
    returns (r: Result<Bytes, WraithError>)
    requires c.LawfulAead() && e.Shaped()
    ensures var k := Encode(c, key, data, o, e);
            if r.Ok? then k.Ok? && r.value == Layout(k.value) else k == Err(r.error)
  {
    hide Layout, Encode;
    var reader := new Reader(data);
    var sink := new Sink(None);
    var result := EncryptStream(c, reader, sink, key, o, e);
    match result
    case Err(error) => r := Err(error);
    case Ok(_) =>
      r := Ok(sink.written);
      assert [] + Layout(Encode(c, key, data, o, e).value) == sink.written;
  }

  datatype Stock = Stock(archive: Archive, entries: seq<BackupEntry>, totalBytes: nat)

  /** Encrypts one file under its blinded name. */
  method StoreFile(c: Crypto, key: Bytes, suite: Suite, f: SourceFile, e: Entropy, archive: Archive)
    returns (r: Result<(Archive, BackupEntry), BackupError>)
    requires c.LawfulAead() && e.Shaped()
    ensures var k := FileContainer(c, key, suite, f, e);
            if r.Ok?
            then k.Ok? && r.value.1 == EntryFor(c, f)
              && r.value.0 == archive[BlindedId(c, RelativeName(f.path)) := Layout(k.value)]
            else k.Err? && r.error == EncryptionFailed(k.error)
  {
    hide Encode, Layout, Hex, RelativeName, BlindedId;
    var entry := EntryFor(c, f);
    var bytes := EncryptBytes(c, key, f.content, DefaultOptions(suite, entry.blindedId), e);
    match bytes
    case Err(error) => r := Err(EncryptionFailed(error));
    case Ok(b) => r := Ok((archive[entry.blindedId := b], entry));
  }

  lemma NothingStored(c: Crypto, key: Bytes, suite: Suite, entropy: nat -> Entropy, archive: Archive)
    requires Shaped(entropy)
    ensures Stored(c, key, suite, [], entropy, archive) == Ok(archive) && EntriesFor(c, []) == [] && TotalBytes([]) == 0
  {
  }

  /** What file n adds to what the files before it made. */
  lemma OneMoreStored(c: Crypto, key: Bytes, suite: Suite, files: seq<SourceFile>, entropy: nat -> Entropy,
                      archive: Archive, n: nat)
    requires Shaped(entropy) && n < |files| && Stored(c, key, suite, files[..n], entropy, archive).Ok?
    ensures EntriesFor(c, files[..n + 1]) == EntriesFor(c, files[..n]) + [EntryFor(c, files[n])]
    ensures TotalBytes(files[..n + 1]) == TotalBytes(files[..n]) + |files[n].content|
    ensures var before := Stored(c, key, suite, files[..n], entropy, archive).value;
            var k := FileContainer(c, key, suite, files[n], entropy(n));
            Stored(c, key, suite, files[..n + 1], entropy, archive)
              == if k.Err? then Err(EncryptionFailed(k.error))
                 else Ok(before[BlindedId(c, RelativeName(files[n].path)) := Layout(k.value)])
  {
    hide FileContainer, Layout, EntryFor, RelativeName, BlindedId;
    var more := files[..n + 1];
    assert more[..|more| - 1] == files[..n] && more[|more| - 1] == files[n];
  }

  /** The loop over the files. */
  method StoreFiles(c: Crypto, key: Bytes, suite: Suite, files: seq<SourceFile>, entropy: nat -> Entropy,
                    archive: Archive)
    returns (r: Result<Stock, BackupError>)
    requires c.LawfulAead() && Shaped(entropy)
    ensures var stored := Stored(c, key, suite, files, entropy, archive);
            match r
            case Err(e) => stored == Err(e)
            case Ok(stock) =>
              stored == Ok(stock.archive) && stock.entries == EntriesFor(c, files)
              && stock.totalBytes == TotalBytes(files)
  {
    hide FileContainer, Layout, EntryFor, RelativeName, BlindedId, Stored, EntriesFor, TotalBytes;
    var out, entries, totalBytes, n := archive, [], 0, 0;
    NothingStored(c, key, suite, entropy, archive);
    assert files[..0] == [];
    while n < |files|
      invariant n <= |files|
      invariant Stored(c, key, suite, files[..n], entropy, archive) == Ok(out)
      invariant entries == EntriesFor(c, files[..n]) && totalBytes == TotalBytes(files[..n])
    {
      var f := files[n];
      OneMoreStored(c, key, suite, files, entropy, archive, n);
      var one := StoreFile(c, key, suite, f, entropy(n), out);
      if one.Err? {
        StoredFails(c, key, suite, files, entropy, archive, n + 1);
        return Err(one.error);
      }
      out := one.value.0;
      totalBytes := totalBytes + |f.content|;
      entries := entries + [one.value.1];
      n := n + 1;
    }
    assert files[..n] == files;
    r := Ok(Stock(out, entries, totalBytes));
  }

  /** One container per file, then the sealed manifest that lists them. */
  method CreateBackupArchive(c: Crypto, json: Json<BackupManifest>, source: Forest, key: Bytes, suite: Suite,
                             entropy: nat -> Entropy, now: nat, archive: Archive)
    returns (r: Result<(Archive, BackupManifest), BackupError>)
    requires c.LawfulAead() && Shaped(entropy)
    ensures var files := Collected(source, []);
            var created := Created(c, json, key, suite, files, entropy, now, archive);
            if !Readable(source) then r == Err(FolderUnreadable)
            else if r.Ok? then created == Ok(r.value.0) && r.value.1 == ManifestFor(c, suite, files, now)
            else created == Err(r.error)
  {
    hide Encode, Layout, Stored, Collected, EntriesFor, TotalBytes;
    var collected := CollectFilesRecursive(source, [], []);
    if collected.Err? {
      return Err(collected.error);
    }
    var files := collected.value;
    assert files == Collected(source, []);
    var stored := StoreFiles(c, key, suite, files, entropy, archive);
    if stored.Err? {
      return Err(stored.error);
    }
    var stock := stored.value;
    var manifest := BackupManifest(1, now, |stock.entries|, stock.totalBytes, suite.Id(), stock.entries);
    var sealed := EncryptBytes(c, key, json.write(manifest), DefaultOptions(suite, "backup_manifest.json"),
      entropy(|files|));
    match sealed
    case Err(error) => r := Err(EncryptionFailed(error));
    case Ok(bytes) => r := Ok((stock.archive[MANIFEST_NAME := bytes], manifest));
  }

  lemma {:induction false} StoredFails(c: Crypto, key: Bytes, suite: Suite, files: seq<SourceFile>,
                                       entropy: nat -> Entropy, archive: Archive, n: nat)
    requires Shaped(entropy) && n <= |files|
    requires Stored(c, key, suite, files[..n], entropy, archive).Err?
    ensures Stored(c, key, suite, files, entropy, archive) == Stored(c, key, suite, files[..n], entropy, archive)
    decreases |files|
  {
    hide FileContainer, Layout;
    if n == |files| {
      assert files[..n] == files;
    } else {
      assert files[..|files| - 1][..n] == files[..n];
      StoredFails(c, key, suite, files[..|files| - 1], entropy, archive, n);
    }
  }

  // Restoring.

  datatype Restored = Restored(files: map<string, Bytes>, count: nat, bytes: nat)

  /** The first n entries restored: each container is opened and its text checked against the recorded hash. */
  function RestoredEntries(c: Crypto, key: Bytes, archive: Archive, es: seq<BackupEntry>, n: nat)
    : Result<Restored, BackupError>
    requires n <= |es|
  {
    if n == 0 then Ok(Restored(map[], 0, 0))
    else match RestoredEntries(c, key, archive, es, n - 1)
      case Err(e) => Err(e)
      case Ok(before) =>
        match RestoredEntry(c, key, archive, es[n - 1])
        case Err(e) => Err(e)
        case Ok(text) =>
          Ok(Restored(before.files[es[n - 1].relativePath := text], before.count + 1,
                      before.bytes + es[n - 1].originalSize))
  }

  function RestoredEntry(c: Crypto, key: Bytes, archive: Archive, e: BackupEntry): Result<Bytes, BackupError> {
    if e.blindedId !in archive then Err(FileMissing(e.blindedId))
    else
      var d := Decode(c, key, archive[e.blindedId], None);
      if d.result.Err? then Err(DecryptionFailed(d.result.error))
      else if Hex(c.sha256(d.text)) != e.originalSha256 then Err(HashMismatch(e.relativePath))
      else Ok(d.text)
  }

  function OpenedManifest(c: Crypto, json: Json<BackupManifest>, key: Bytes, archive: Archive)
    : Result<BackupManifest, BackupError>
  {
    if MANIFEST_NAME !in archive then Err(ManifestMissing)
    else
      var d := Decode(c, key, archive[MANIFEST_NAME], None);
      if d.result.Err? then Err(ManifestUnreadable(d.result.error))
      else match json.read(d.text)
        case None => Err(ManifestInvalid)
        case Some(m) => Ok(m)
  }

  function RestoredArchive(c: Crypto, json: Json<BackupManifest>, key: Bytes, archive: Archive)
    : Result<Restored, BackupError>
  {
    match OpenedManifest(c, json, key, archive)
    case Err(e) => Err(e)
    case Ok(m) => RestoredEntries(c, key, archive, m.entries, |m.entries|)
  }

  method DecryptBytes(c: Crypto, key: Bytes, data: Bytes) returns (r: Result<Bytes, WraithError>)
    ensures var d := Decode(c, key, data, None);
            if r.Ok? then d.result.Ok? && r.value == d.text else d.result == Err(r.error)
  {
    hide Decode;
    var reader := new Reader(data);
    var sink := new Sink(None);
    var result := DecryptStream(c, reader, sink, key);
    match result
    case Err(error) => r := Err(error);
    case Ok(_) =>
      r := Ok(sink.written);
      assert [] + Decode(c, key, data, None).text == sink.written;
  }

  method RestoreBackupArchive(c: Crypto, json: Json<BackupManifest>, key: Bytes, archive: Archive)
    returns (r: Result<Restored, BackupError>)
    ensures r == RestoredArchive(c, json, key, archive)
  {
    hide Decode, Hex;
    if MANIFEST_NAME !in archive {
      return Err(ManifestMissing);
    }
    var plain := DecryptBytes(c, key, archive[MANIFEST_NAME]);
    if plain.Err? {
      return Err(ManifestUnreadable(plain.error));
    }
    var manifest := json.read(plain.value);
    if manifest.None? {
      return Err(ManifestInvalid);
    }
    r := RestoreEntries(c, key, archive, manifest.value.entries);
  }

  /** The loop over the entries. */
  method RestoreEntries(c: Crypto, key: Bytes, archive: Archive, es: seq<BackupEntry>)
    returns (r: Result<Restored, BackupError>)
    ensures r == RestoredEntries(c, key, archive, es, |es|)
  {
    hide Decode, Hex;
    var files: map<string, Bytes> := map[];
    var count: nat, bytes: nat, n := 0, 0, 0;
    while n < |es|
      invariant n <= |es|
      invariant RestoredEntries(c, key, archive, es, n) == Ok(Restored(files, count, bytes))
    {
      var e := es[n];
      if e.blindedId !in archive {
        RestoreFails(c, key, archive, es, n + 1);
        return Err(FileMissing(e.blindedId));
      }
      var plain := DecryptBytes(c, key, archive[e.blindedId]);
      if plain.Err? {
        RestoreFails(c, key, archive, es, n + 1);
        return Err(DecryptionFailed(plain.error));
      }
      if Hex(c.sha256(plain.value)) != e.originalSha256 {
        RestoreFails(c, key, archive, es, n + 1);
        return Err(HashMismatch(e.relativePath));
      }
      files := files[e.relativePath := plain.value];
      count := count + 1;
      bytes := bytes + e.originalSize;
      n := n + 1;
    }
    r := Ok(Restored(files, count, bytes));
  }

  lemma {:induction false} RestoreFails(c: Crypto, key: Bytes, archive: Archive, es: seq<BackupEntry>, n: nat)
    requires n <= |es| && RestoredEntries(c, key, archive, es, n).Err?
    ensures RestoredEntries(c, key, archive, es, |es|) == RestoredEntries(c, key, archive, es, n)
    decreases |es| - n
  {
    hide RestoredEntry;
    if n < |es| {
      RestoreFails(c, key, archive, es, n + 1);
    }
  }
}
