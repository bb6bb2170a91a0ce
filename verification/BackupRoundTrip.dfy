/** Creating a backup and restoring it. */
module BackupRoundTrip {
  import opened BigEndian
  import opened Outcomes
  import opened Primitives
  import opened Wraith
  import opened Container
  import opened Encryptor
  import opened Decryptor
  import opened RoundTrip
  import opened Text
  import opened FileNames
  import opened Backup

  /** Different files of the list go to different blinded names. */
  ghost predicate BlindedApart(c: Crypto, files: seq<SourceFile>) {
    forall f, g :: f in files && g in files ==>
      BlindedId(c, RelativeName(f.path)) == BlindedId(c, RelativeName(g.path)) ==> f == g
  }

  /** The file is within the size the format counts, and its sealed manifest within the reader's bound. */
  ghost predicate FileFits(c: Crypto, suite: Suite, data: Bytes, name: string, entropy: nat -> Entropy) {
    && |data| < U64_LIMIT
    && forall n ::
         SealedManifestLength(c, NewManifest(c, data, DefaultOptions(suite, name), entropy(n))) <= MAX_MANIFEST_LEN
  }

  ghost predicate AllFit(c: Crypto, suite: Suite, files: seq<SourceFile>, entropy: nat -> Entropy) {
    forall f :: f in files ==> FileFits(c, suite, f.content, BlindedId(c, RelativeName(f.path)), entropy)
  }

  /** An archive member that opens to this text. */
  predicate OpensTo(c: Crypto, key: Bytes, archive: Archive, name: string, text: Bytes) {
    name in archive && var d := Decode(c, key, archive[name], None); d.result.Ok? && d.text == text
  }

  lemma EncodedOpens(c: Crypto, key: Bytes, suite: Suite, data: Bytes, name: string, entropy: nat -> Entropy, n: nat)
    requires c.Lawful() && Shaped(entropy)
    requires Encode(c, key, data, DefaultOptions(suite, name), entropy(n)).Ok?
    requires FileFits(c, suite, data, name, entropy)
    ensures var d := Decode(c, key, Layout(Encode(c, key, data, DefaultOptions(suite, name), entropy(n)).value), None);
            d.result.Ok? && d.text == data
  {
    hide Decode, Layout, Seal, StartSession, NewManifest;
    RoundTrips(c, key, data, DefaultOptions(suite, name), entropy(n), None);
  }

  /** After the files are stored, each blinded name opens to its file. */
  lemma {:induction false} StoredOpens(c: Crypto, key: Bytes, suite: Suite, files: seq<SourceFile>,
                                       entropy: nat -> Entropy, archive: Archive)
    requires c.Lawful() && Shaped(entropy)
    requires Stored(c, key, suite, files, entropy, archive).Ok?
    requires BlindedApart(c, files) && AllFit(c, suite, files, entropy)
    ensures forall f :: f in files ==>
              OpensTo(c, key, Stored(c, key, suite, files, entropy, archive).value, BlindedId(c, RelativeName(f.path)),
                f.content)
    decreases |files|
  {
    hide Decode, Layout, Encode, BlindedId, RelativeName, FileFits;
    if files != [] {
      var n, last := |files| - 1, files[|files| - 1];
      var before := Stored(c, key, suite, files[..n], entropy, archive).value;
      StoredOpens(c, key, suite, files[..n], entropy, archive);
      assert last in files;
      EncodedOpens(c, key, suite, last.content, BlindedId(c, RelativeName(last.path)), entropy, n);
      forall f | f in files
        ensures OpensTo(c, key, Stored(c, key, suite, files, entropy, archive).value,
                BlindedId(c, RelativeName(f.path)), f.content)
      {
        if f != last {
          assert f in files[..n];
          assert OpensTo(c, key, before, BlindedId(c, RelativeName(f.path)), f.content);
        }
      }
    }
  }

  /** A blinded name has an even number of characters before its suffix. */
  lemma BlindedIsNotManifest(c: Crypto, relativePath: string)
    ensures BlindedId(c, relativePath) != MANIFEST_NAME
  {
    hide Hex;
    var hex := Hex(c.sha256(c.utf8("WRAITH_BACKUP_BLINDED_V1:") + c.utf8(relativePath)));
    assert |BlindedId(c, relativePath)| == |hex| + 7;
    assert |MANIFEST_NAME| == 22;
  }

  /** The files by relative name; where names repeat the last one counts. */
  function ByName(files: seq<SourceFile>): map<string, Bytes> {
    if files == [] then map[]
    else ByName(files[..|files| - 1])[RelativeName(files[|files| - 1].path) := files[|files| - 1].content]
  }

  lemma {:induction false} EntriesRestore(c: Crypto, key: Bytes, files: seq<SourceFile>, archive: Archive, n: nat)
    requires n <= |files|
    requires forall f :: f in files ==> OpensTo(c, key, archive, BlindedId(c, RelativeName(f.path)), f.content)
    ensures RestoredEntries(c, key, archive, EntriesFor(c, files), n)
            == Ok(Restored(ByName(files[..n]), n, TotalBytes(files[..n])))
    decreases n
  {
    hide BlindedId, RelativeName, RestoredEntry, EntriesFor, OpensTo;
    if n > 0 {
      EntriesRestore(c, key, files, archive, n - 1);
      EntryAt(c, files, n - 1);
      assert files[..n][..n - 1] == files[..n - 1];
      assert files[n - 1] in files;
      EntryRestores(c, key, files[n - 1], archive);
    }
  }

  lemma EntryRestores(c: Crypto, key: Bytes, f: SourceFile, archive: Archive)
    requires OpensTo(c, key, archive, BlindedId(c, RelativeName(f.path)), f.content)
    ensures RestoredEntry(c, key, archive, EntryFor(c, f)) == Ok(f.content)
  {
    hide Decode, BlindedId, RelativeName, Hex;
  }

  lemma {:induction false} EntryAt(c: Crypto, files: seq<SourceFile>, i: nat)
    requires i < |files|
    ensures EntriesFor(c, files)[i] == EntryFor(c, files[i])
    decreases |files|
  {
    hide EntryFor;
    if i < |files| - 1 {
      EntryAt(c, files[..|files| - 1], i);
    }
  }

  /** Restoring what was created gives back every collected file, and the totals agree with the manifest's. */
  lemma BackupRoundTrips(c: Crypto, json: Json<BackupManifest>, key: Bytes, suite: Suite, files: seq<SourceFile>,
                         entropy: nat -> Entropy, now: nat, archive: Archive)
    requires c.Lawful() && LawfulJson(json) && Shaped(entropy)
    requires Created(c, json, key, suite, files, entropy, now, archive).Ok?
    requires BlindedApart(c, files) && AllFit(c, suite, files, entropy)
    requires FileFits(c, suite, json.write(ManifestFor(c, suite, files, now)), "backup_manifest.json", entropy)
    ensures RestoredArchive(c, json, key, Created(c, json, key, suite, files, entropy, now, archive).value)
         == Ok(Restored(ByName(files), ManifestFor(c, suite, files, now).totalFiles,
           ManifestFor(c, suite, files, now).totalBytes))
  {
    hide Decode, Layout, Encode, BlindedId, RelativeName, FileFits, Stored, BlindedApart, AllFit, EntriesFor,
         TotalBytes;
    var m, out := ManifestFor(c, suite, files, now), Created(c, json, key, suite, files, entropy, now, archive).value;
    var before := Stored(c, key, suite, files, entropy, archive).value;
    StoredOpens(c, key, suite, files, entropy, archive);
    EncodedOpens(c, key, suite, json.write(m), "backup_manifest.json", entropy, |files|);
    assert json.read(json.write(m)) == Some(m);
    forall f | f in files
      ensures OpensTo(c, key, out, BlindedId(c, RelativeName(f.path)), f.content)
    {
      BlindedIsNotManifest(c, RelativeName(f.path));
      assert OpensTo(c, key, before, BlindedId(c, RelativeName(f.path)), f.content);
    }
    EntriesRestore(c, key, files, out, |files|);
    assert files[..|files|] == files;
  }

  // From the list of files to the tree.

  lemma {:induction false} FileNamesAreNames(f: Forest, p: Path)
    requires FileAt(f, p).Some?
    ensures p != [] && p[0] in Names(f)
  {
    if f.name != p[0] {
      FileNamesAreNames(f.more, p);
    }
  }

  /** The collected files are those of the tree, at their paths, except the ones named like the manifest. */
  lemma {:induction false} CollectedIsTree(f: Forest, at: Path, x: SourceFile)
    requires Proper(f)
    ensures x in Collected(f, at) <==>
            at < x.path && FileAt(f, x.path[|at|..]) == Some((x.content, x.mtime)) && Name(x.path) != MANIFEST_NAME
    decreases f
  {
    if f.Entry? {
      CollectedIsTree(f.more, at, x);
      var here := at + [f.name];
      if at < x.path {
        var rel := x.path[|at|..];
        if FileAt(f.more, rel).Some? {
          FileNamesAreNames(f.more, rel);
        }
        if rel[0] == f.name {
          assert x.path[..|here|] == here;
          assert rel[1..] == x.path[|here|..];
        }
        if |rel| == 1 {
          assert x.path == at + [rel[0]];
        }
      }
      match f.tree {
        case Folder(children) =>
          CollectedIsTree(children, here, x);
          if here < x.path {
            assert x.path[..|at|] == at && x.path[|at|] == f.name;
          }
        case Leaf(_, _) =>
          assert here[|at|..] == [f.name];
        case Locked =>
      }
    }
  }

  predicate ProperPath(p: Path) {
    p != [] && forall i :: 0 <= i < |p| ==> ProperName(p[i])
  }

  lemma {:induction false} FilePathsAreProper(f: Forest, p: Path)
    requires Proper(f) && FileAt(f, p).Some?
    ensures ProperPath(p)
    decreases f
  {
    hide ProperName;
    if f.name != p[0] {
      FilePathsAreProper(f.more, p);
    } else if f.tree.Folder? {
      FilePathsAreProper(f.tree.children, p[1..]);
    }
  }

  /** No component holds a backslash. */
  predicate BackslashFree(p: Path) {
    forall i :: 0 <= i < |p| ==> '\\' !in p[i]
  }

  /** Recording replaces the backslashes and nothing else. */
  lemma {:induction false} BackslashShows(p: Path)
    ensures BackslashFree(p) <==> '\\' !in Slashed(p)
    decreases |p|
  {
    if |p| == 1 {
      assert p[0] == Slashed(p);
    } else if p != [] {
      hide Slashed;
      SlashedUnfolds(p);
      BackslashShows(p[1..]);
      assert BackslashFree(p) <==> '\\' !in p[0] && BackslashFree(p[1..]) by {
        assert forall i :: 0 < i < |p| ==> p[i] == p[1..][i - 1];
      }
    }
  }

  lemma RecordedHasNoBackslash(p: Path)
    ensures '\\' !in RelativeName(p)
    ensures BackslashFree(p) ==> RelativeName(p) == Slashed(p)
  {
    BackslashShows(p);
  }

  function UpToSlash(s: string): string {
    if s == [] || s[0] == '/' then [] else [s[0]] + UpToSlash(s[1..])
  }

  lemma {:induction false} UpToSlashIs(a: string, rest: string)
    requires '/' !in a && (rest == [] || rest[0] == '/')
    ensures UpToSlash(a + rest) == a
  {
    if a == [] {
      assert a + rest == rest;
    } else {
      UpToSlashIs(a[1..], rest);
      assert (a + rest)[1..] == a[1..] + rest;
    }
  }

  lemma SlashedUnfolds(p: Path)
    requires p != []
    ensures Slashed(p) == if |p| == 1 then p[0] else p[0] + ("/" + Slashed(p[1..]))
  {
  }

  lemma SlashedHead(p: Path)
    requires ProperPath(p)
    ensures UpToSlash(Slashed(p)) == p[0]
  {
    hide UpToSlash, Slashed;
    SlashedUnfolds(p);
    assert ProperName(p[0]);
    UpToSlashIs(p[0], if |p| == 1 then [] else "/" + Slashed(p[1..]));
    assert p[0] + [] == p[0];
  }

  /** Proper paths can be told apart by their slashed form. */
  lemma {:induction false} SlashedInjective(p: Path, q: Path)
    requires ProperPath(p) && ProperPath(q) && Slashed(p) == Slashed(q)
    ensures p == q
    decreases |p|
  {
    hide ProperName, Slashed;
    SlashedHead(p);
    SlashedHead(q);
    SlashedUnfolds(p);
    SlashedUnfolds(q);
    if |p| > 1 && |q| > 1 {
      assert Slashed(p)[|p[0]| + 1..] == Slashed(p[1..]) && Slashed(q)[|q[0]| + 1..] == Slashed(q[1..]);
      SlashedInjective(p[1..], q[1..]);
    }
    assert p == [p[0]] + p[1..] && q == [q[0]] + q[1..];
  }

  // What the names lead to.

  lemma {:induction false} ByNameKeys(files: seq<SourceFile>)
    ensures forall name :: name in ByName(files) ==> exists f :: f in files && RelativeName(f.path) == name
    decreases |files|
  {
    hide RelativeName;
    if files != [] {
      var front, last := files[..|files| - 1], files[|files| - 1];
      ByNameKeys(front);
      forall name | name in ByName(files)
        ensures exists f :: f in files && RelativeName(f.path) == name
      {
        if name in ByName(front) {
          var f :| f in front && RelativeName(f.path) == name;
          assert f in files;
        } else {
          assert last in files;
        }
      }
    }
  }

  /** Where relative names differ for different files, each name leads to its file. */
  lemma {:induction false} ByNameFinds(files: seq<SourceFile>)
    requires forall f, g :: f in files && g in files && RelativeName(f.path) == RelativeName(g.path) ==> f == g
    ensures forall f :: f in files ==>
              RelativeName(f.path) in ByName(files) && ByName(files)[RelativeName(f.path)] == f.content
    decreases |files|
  {
    hide RelativeName;
    if files != [] {
      var front, last := files[..|files| - 1], files[|files| - 1];
      assert forall f :: f in front ==> f in files;
      ByNameFinds(front);
      assert files == front + [last];
    }
  }

  /** The collected files have no backslash in their paths. */
  predicate NoBackslashes(files: seq<SourceFile>) {
    forall f :: f in files ==> BackslashFree(f.path)
  }

  lemma CollectedIsProper(source: Forest, f: SourceFile)
    requires Proper(source) && f in Collected(source, [])
    ensures ProperPath(f.path) && FileAt(source, f.path) == Some((f.content, f.mtime)) && Name(f.path) != MANIFEST_NAME
  {
    hide ProperName;
    CollectedIsTree(source, [], f);
    assert f.path[0..] == f.path;
    FilePathsAreProper(source, f.path);
  }

  /** Without backslashes, the collected files of a real folder have names of their own. */
  lemma SameNameSameFile(source: Forest, f: SourceFile, g: SourceFile)
    requires Proper(source) && f in Collected(source, []) && g in Collected(source, [])
    requires BackslashFree(f.path) && BackslashFree(g.path) && RelativeName(f.path) == RelativeName(g.path)
    ensures f == g
  {
    hide RelativeName, Slashed, ProperName, Collected, Proper, FileAt;
    CollectedIsProper(source, f);
    CollectedIsProper(source, g);
    RecordedHasNoBackslash(f.path);
    RecordedHasNoBackslash(g.path);
    SlashedInjective(f.path, g.path);
  }

  /** These are the files of the source at their paths, and nothing else, except files named like the manifest. */
  ghost predicate HoldsTree(source: Forest, files: map<string, Bytes>) {
    forall p :: ProperPath(p) ==> HoldsAt(source, files, p)
  }

  predicate HoldsAt(source: Forest, files: map<string, Bytes>, p: Path)
    requires p != []
  {
    if FileAt(source, p).Some? && Name(p) != MANIFEST_NAME
    then Slashed(p) in files && files[Slashed(p)] == FileAt(source, p).value.0
    else Slashed(p) !in files
  }

  /** Without backslashes, the recorded names lead to exactly the tree. */
  lemma NamesHoldTree(source: Forest)
    requires Proper(source) && NoBackslashes(Collected(source, []))
    ensures HoldsTree(source, ByName(Collected(source, [])))
  {
    hide RelativeName, Slashed, ProperName, BackslashFree, Proper, Collected;
    var files := Collected(source, []);
    forall f, g | f in files && g in files && RelativeName(f.path) == RelativeName(g.path)
      ensures f == g
    {
      SameNameSameFile(source, f, g);
    }
    ByNameFinds(files);
    forall p | ProperPath(p)
      ensures HoldsAt(source, ByName(files), p)
    {
      NamesHoldAt(source, p);
    }
  }

  lemma NamesHoldAt(source: Forest, p: Path)
    requires Proper(source) && NoBackslashes(Collected(source, [])) && ProperPath(p)
    requires var files := Collected(source, []);
             forall f :: f in files ==>
               RelativeName(f.path) in ByName(files) && ByName(files)[RelativeName(f.path)] == f.content
    ensures HoldsAt(source, ByName(Collected(source, [])), p)
  {
    hide RelativeName, Slashed, ProperName, BackslashFree, Collected, ByName, Proper;
    var files := Collected(source, []);
    if FileAt(source, p).Some? && Name(p) != MANIFEST_NAME {
      var f := SourceFile(p, FileAt(source, p).value.0, FileAt(source, p).value.1);
      assert p[0..] == p;
      CollectedIsTree(source, [], f);
      RecordedHasNoBackslash(p);
    } else if Slashed(p) in ByName(files) {
      ByNameKeys(files);
      var f :| f in files && RelativeName(f.path) == Slashed(p);
      CollectedIsProper(source, f);
      RecordedHasNoBackslash(f.path);
      SlashedInjective(f.path, p);
    }
  }

  /** Names without a backslash can only hold a tree without one. */
  lemma TreeHasNoBackslashes(source: Forest, files: map<string, Bytes>)
    requires Proper(source) && HoldsTree(source, files)
    requires forall name :: name in files ==> '\\' !in name
    ensures NoBackslashes(Collected(source, []))
  {
    hide Slashed, ProperName, Collected, Proper, FileAt, BackslashFree;
    forall f | f in Collected(source, [])
      ensures BackslashFree(f.path)
    {
      CollectedIsProper(source, f);
      assert HoldsAt(source, files, f.path);
      BackslashShows(f.path);
    }
  }

  /** The recorded names lead to exactly the tree if and only if no path of a file holds a backslash. */
  lemma BackupHoldsTree(source: Forest)
    requires Proper(source)
    ensures HoldsTree(source, ByName(Collected(source, []))) <==> NoBackslashes(Collected(source, []))
  {
    hide RelativeName, Proper, Collected, NoBackslashes, HoldsTree;
    var files := Collected(source, []);
    if NoBackslashes(files) {
      NamesHoldTree(source);
    }
    if HoldsTree(source, ByName(files)) {
      ByNameKeys(files);
      forall name | name in ByName(files)
        ensures '\\' !in name
      {
        var f :| f in files && RelativeName(f.path) == name;
        RecordedHasNoBackslash(f.path);
      }
      TreeHasNoBackslashes(source, ByName(files));
    }
  }

  // What a restore that succeeds has done.

  /** Every entry was restored, and the restored files have the names of the entries. */
  lemma {:induction false} RestoredMeans(c: Crypto, key: Bytes, archive: Archive, es: seq<BackupEntry>, n: nat)
    requires n <= |es| && RestoredEntries(c, key, archive, es, n).Ok?
    ensures forall i :: 0 <= i < n ==> RestoredEntry(c, key, archive, es[i]).Ok?
    ensures forall name :: name in RestoredEntries(c, key, archive, es, n).value.files ==>
              exists i :: 0 <= i < n && es[i].relativePath == name
  {
    hide RestoredEntry;
    if n > 0 {
      RestoredMeans(c, key, archive, es, n - 1);
    }
  }

  /** The manifest of a created archive is the one that was sealed. */
  lemma ManifestReturns(c: Crypto, json: Json<BackupManifest>, key: Bytes, suite: Suite, files: seq<SourceFile>,
                        entropy: nat -> Entropy, now: nat, archive: Archive)
    requires c.Lawful() && LawfulJson(json) && Shaped(entropy)
    requires Created(c, json, key, suite, files, entropy, now, archive).Ok?
    requires FileFits(c, suite, json.write(ManifestFor(c, suite, files, now)), "backup_manifest.json", entropy)
    ensures var m := ManifestFor(c, suite, files, now);
            OpenedManifest(c, json, key, Created(c, json, key, suite, files, entropy, now, archive).value) == Ok(m)
  {
    hide Decode, Layout, Encode, FileFits, Stored, EntriesFor, TotalBytes;
    var m := ManifestFor(c, suite, files, now);
    EncodedOpens(c, key, suite, json.write(m), "backup_manifest.json", entropy, |files|);
    assert json.read(json.write(m)) == Some(m);
  }

  /** A restore that succeeds has the recorded names only, so no backslash in any of them. */
  lemma RestoredNames(c: Crypto, key: Bytes, files: seq<SourceFile>, archive: Archive)
    requires RestoredEntries(c, key, archive, EntriesFor(c, files), |files|).Ok?
    ensures forall name :: name in RestoredEntries(c, key, archive, EntriesFor(c, files), |files|).value.files ==>
              '\\' !in name
  {
    hide RestoredEntries, RelativeName, BlindedId, EntriesFor;
    var es := EntriesFor(c, files);
    RestoredMeans(c, key, archive, es, |files|);
    forall name | name in RestoredEntries(c, key, archive, es, |files|).value.files
      ensures '\\' !in name
    {
      var i :| 0 <= i < |es| && es[i].relativePath == name;
      EntryAt(c, files, i);
      RecordedHasNoBackslash(files[i].path);
    }
  }

  predicate HashApart(c: Crypto, x: string, y: string) {
    BlindedId(c, x) == BlindedId(c, y) ==> x == y
  }

  /** The hash does not collide on the relative names of these files. */
  ghost predicate HashesApart(c: Crypto, files: seq<SourceFile>) {
    forall f, g :: f in files && g in files ==> HashApart(c, RelativeName(f.path), RelativeName(g.path))
  }

  lemma HashApartBlindedApart(c: Crypto, source: Forest)
    requires Proper(source) && NoBackslashes(Collected(source, [])) && HashesApart(c, Collected(source, []))
    ensures BlindedApart(c, Collected(source, []))
  {
    hide BlindedId, RelativeName, Collected, Proper, BackslashFree;
    var files := Collected(source, []);
    forall f, g | f in files && g in files && BlindedId(c, RelativeName(f.path)) == BlindedId(c, RelativeName(g.path))
      ensures f == g
    {
      assert HashApart(c, RelativeName(f.path), RelativeName(g.path));
      SameNameSameFile(source, f, g);
    }
  }

  /**
   Restoring a backup of a folder under the same credentials gives back exactly its files, each at its relative path
   with its bytes and nothing else, if and only if no path of a file holds a backslash; the recorded totals then agree.
   A file named like the manifest is never backed up, wherever it lies, and does not count.
   */
  lemma BackupRestoresTree(c: Crypto, json: Json<BackupManifest>, key: Bytes, suite: Suite, source: Forest,
                           entropy: nat -> Entropy, now: nat, archive: Archive)
    requires c.Lawful() && LawfulJson(json) && Shaped(entropy) && Proper(source) && Readable(source)
    requires Created(c, json, key, suite, Collected(source, []), entropy, now, archive).Ok?
    requires HashesApart(c, Collected(source, []))
    requires AllFit(c, suite, Collected(source, []), entropy)
    requires FileFits(c, suite, json.write(ManifestFor(c, suite, Collected(source, []), now)), "backup_manifest.json",
             entropy)
    ensures var files := Collected(source, []);
            var r := RestoredArchive(c, json, key, Created(c, json, key, suite, files, entropy, now, archive).value);
            && (r.Ok? && HoldsTree(source, r.value.files) <==> NoBackslashes(files))
            && (NoBackslashes(files) ==> r.value.count == |files| && r.value.bytes == TotalBytes(files))
  {
    hide BlindedId, RelativeName, Proper, Collected, Created, FileFits, AllFit, HoldsTree, TotalBytes, RestoredEntries;
    hide OpenedManifest, NoBackslashes, HashesApart, EntriesFor;
    var files := Collected(source, []);
    var out := Created(c, json, key, suite, files, entropy, now, archive).value;
    ManifestReturns(c, json, key, suite, files, entropy, now, archive);
    var r := RestoredArchive(c, json, key, out);
    if NoBackslashes(files) {
      HashApartBlindedApart(c, source);
      BackupRoundTrips(c, json, key, suite, files, entropy, now, archive);
      BackupHoldsTree(source);
    } else if r.Ok? && HoldsTree(source, r.value.files) {
      RestoredNames(c, key, files, out);
      TreeHasNoBackslashes(source, r.value.files);
    }
  }

  /**
   Two files whose recorded names are the same share one container, so the backup cannot be restored unless their
   contents have the same hash.
   */
  lemma SharedNameIsRefused(c: Crypto, json: Json<BackupManifest>, key: Bytes, suite: Suite, files: seq<SourceFile>,
                            entropy: nat -> Entropy, now: nat, archive: Archive, i: nat, j: nat)
    requires c.Lawful() && LawfulJson(json) && Shaped(entropy)
    requires Created(c, json, key, suite, files, entropy, now, archive).Ok?
    requires FileFits(c, suite, json.write(ManifestFor(c, suite, files, now)), "backup_manifest.json", entropy)
    requires i < |files| && j < |files| && RelativeName(files[i].path) == RelativeName(files[j].path)
    requires Hex(c.sha256(files[i].content)) != Hex(c.sha256(files[j].content))
    ensures RestoredArchive(c, json, key, Created(c, json, key, suite, files, entropy, now, archive).value).Err?
  {
    hide BlindedId, RelativeName, Created, FileFits, TotalBytes, OpenedManifest, RestoredEntries, Hex, Decode,
         EntriesFor;
    var out, es := Created(c, json, key, suite, files, entropy, now, archive).value, EntriesFor(c, files);
    ManifestReturns(c, json, key, suite, files, entropy, now, archive);
    if RestoredArchive(c, json, key, out).Ok? {
      RestoredMeans(c, key, out, es, |es|);
      EntryAt(c, files, i);
      EntryAt(c, files, j);
      assert RestoredEntry(c, key, out, es[i]).Ok? && RestoredEntry(c, key, out, es[j]).Ok?;
    }
  }

  /** The file a\b beside the file b in the folder a, for instance: the backup is made, and does not restore. */
  lemma BackslashClash(c: Crypto, json: Json<BackupManifest>, key: Bytes, suite: Suite, x: Bytes, y: Bytes,
                       entropy: nat -> Entropy, now: nat, archive: Archive)
    requires c.Lawful() && LawfulJson(json) && Shaped(entropy)
    requires Hex(c.sha256(x)) != Hex(c.sha256(y))
    ensures var source := Clashing(x, y);
            var files := Collected(source, []);
            Proper(source) && Readable(source) &&
            (Created(c, json, key, suite, files, entropy, now, archive).Ok?
             && FileFits(c, suite, json.write(ManifestFor(c, suite, files, now)), "backup_manifest.json", entropy) ==>
               RestoredArchive(c, json, key, Created(c, json, key, suite, files, entropy, now, archive).value).Err?)
  {
    hide Hex, Created, FileFits, RestoredArchive, Clashing, Proper, Readable, Collected, RelativeName;
    var source := Clashing(x, y);
    ClashingIsProper(x, y);
    ClashingCollected(x, y);
    ClashingNames();
    var files := Collected(source, []);
    if Created(c, json, key, suite, files, entropy, now, archive).Ok?
       && FileFits(c, suite, json.write(ManifestFor(c, suite, files, now)), "backup_manifest.json", entropy) {
      SharedNameIsRefused(c, json, key, suite, files, entropy, now, archive, 0, 1);
    }
  }

  const INNER_NAME: string := "b"
  const OUTER_NAME: string := "a"
  const BOTH_NAMES: string := "a\\b"

  function Clashing(x: Bytes, y: Bytes): Forest {
    Entry(BOTH_NAMES, Leaf(x, 0), ClashingFolder(y))
  }

  function ClashingFolder(y: Bytes): Forest {
    Entry(OUTER_NAME, Folder(Entry(INNER_NAME, Leaf(y, 0), Empty)), Empty)
  }

  lemma ClashingIsProper(x: Bytes, y: Bytes)
    ensures Proper(Clashing(x, y)) && Readable(Clashing(x, y))
  {
    var inner := Entry(INNER_NAME, Leaf(y, 0), Empty);
    assert Proper(inner) && Readable(inner);
    assert Proper(ClashingFolder(y)) && Readable(ClashingFolder(y));
    assert Names(ClashingFolder(y)) == {OUTER_NAME};
    assert |BOTH_NAMES| == 3 && |OUTER_NAME| == 1;
  }

  lemma ClashingCollected(x: Bytes, y: Bytes)
    ensures Collected(Clashing(x, y), [])
            == [SourceFile([BOTH_NAMES], x, 0), SourceFile([OUTER_NAME, INNER_NAME], y, 0)]
  {
    var inner := Entry(INNER_NAME, Leaf(y, 0), Empty);
    assert |MANIFEST_NAME| == 22 && |BOTH_NAMES| == 3 && |INNER_NAME| == 1;
    assert [OUTER_NAME] + [INNER_NAME] == [OUTER_NAME, INNER_NAME];
    assert Collected(inner, [OUTER_NAME]) == [SourceFile([OUTER_NAME, INNER_NAME], y, 0)];
    assert [] + [OUTER_NAME] == [OUTER_NAME] && [] + [BOTH_NAMES] == [BOTH_NAMES];
    assert Collected(ClashingFolder(y), []) == [SourceFile([OUTER_NAME, INNER_NAME], y, 0)];
  }

  lemma ClashingNames()
    ensures RelativeName([BOTH_NAMES]) == RelativeName([OUTER_NAME, INNER_NAME])
  {
    assert [OUTER_NAME, INNER_NAME][1..] == [INNER_NAME];
    assert Slashed([OUTER_NAME, INNER_NAME]) == "a/b";
    assert Slashed([BOTH_NAMES]) == "a\\b";
    assert ForwardSlashes("a\\b") == "a/b" == ForwardSlashes("a/b");
  }
}
