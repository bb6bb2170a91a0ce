/** What a backup writes down, and what a restore refuses: src/backup/mod.rs told from outside. */
module BackupCases {
  import opened BigEndian
  import opened Outcomes
  import opened Primitives
  import opened Wraith
  import opened Container
  import opened Encryptor
  import opened Decryptor
  import opened Text
  import opened FileNames
  import opened Backup
  import opened BackupRoundTrip

  // What is written down.

  /** The name of a file's container: the hash of its recorded path under a fixed tag. */
  lemma BlindedNameIs(c: Crypto, p: Path)
    requires BackslashFree(p)
    ensures BlindedId(c, RelativeName(p)) == Hex(c.sha256(c.utf8("WRAITH_BACKUP_BLINDED_V1:") + c.utf8(Slashed(p))))
            + ".wraith"
  {
    hide Hex, Slashed;
    RecordedHasNoBackslash(p);
  }

  /** The entry of a file, in full. */
  lemma EntryIs(c: Crypto, f: SourceFile)
    ensures var e := EntryFor(c, f);
            && e.relativePath == RelativeName(f.path) && e.blindedId == BlindedId(c, RelativeName(f.path))
            && e.originalSize == |f.content| && e.originalSha256 == Hex(c.sha256(f.content)) && e.modified == f.mtime
  {
    hide Hex, RelativeName, BlindedId;
  }

  /** The manifest of a backup, in full: one entry for each file, in order, and the totals. */
  lemma ManifestIs(c: Crypto, suite: Suite, files: seq<SourceFile>, now: nat)
    ensures var m := ManifestFor(c, suite, files, now);
            && m.version == 1 && m.createdAt == now && m.totalFiles == |files| == |m.entries|
            && m.suiteId == (if suite == MlKem768 then 1 else 2)
            && forall i :: 0 <= i < |files| ==> m.entries[i] == EntryFor(c, files[i])
  {
    hide EntryFor, EntriesFor;
    forall i | 0 <= i < |files|
      ensures EntriesFor(c, files)[i] == EntryFor(c, files[i])
    {
      EntryAt(c, files, i);
    }
  }

  // What a restore refuses.

  /** An archive without a manifest, with one that does not open, and with one that is none. */
  lemma ManifestRefused(c: Crypto, json: Json<BackupManifest>, key: Bytes, archive: Archive)
    ensures "backup_manifest.wraith" !in archive ==> RestoredArchive(c, json, key, archive) == Err(ManifestMissing)
    ensures "backup_manifest.wraith" in archive ==>
              var d := Decode(c, key, archive["backup_manifest.wraith"], None);
              && (d.result.Err? ==> RestoredArchive(c, json, key, archive) == Err(ManifestUnreadable(d.result.error)))
              && (d.result.Ok? && json.read(d.text) == None
                ==> RestoredArchive(c, json, key, archive) == Err(ManifestInvalid))
  {
    hide Decode;
  }

  /** An entry whose container is missing, does not open, or opens to other bytes than were recorded. */
  lemma EntryRefused(c: Crypto, key: Bytes, archive: Archive, e: BackupEntry)
    ensures e.blindedId !in archive ==> RestoredEntry(c, key, archive, e) == Err(FileMissing(e.blindedId))
    ensures e.blindedId in archive ==>
              var d := Decode(c, key, archive[e.blindedId], None);
              && (d.result.Err? ==> RestoredEntry(c, key, archive, e) == Err(DecryptionFailed(d.result.error)))
              && (d.result.Ok? && Hex(c.sha256(d.text)) != e.originalSha256 ==>
                    RestoredEntry(c, key, archive, e) == Err(HashMismatch(e.relativePath)))
              && (d.result.Ok? && Hex(c.sha256(d.text)) == e.originalSha256 ==>
                    RestoredEntry(c, key, archive, e) == Ok(d.text))
  {
    hide Decode, Hex;
  }

  /** The first entry that is refused decides; the ones after it are not looked at. */
  lemma FirstRefusalDecides(c: Crypto, key: Bytes, archive: Archive, es: seq<BackupEntry>, i: nat)
    requires i < |es| && RestoredEntry(c, key, archive, es[i]).Err?
    requires forall j :: 0 <= j < i ==> RestoredEntry(c, key, archive, es[j]).Ok?
    ensures RestoredEntries(c, key, archive, es, |es|) == Err(RestoredEntry(c, key, archive, es[i]).error)
  {
    hide RestoredEntry;
    BeforeIsRestored(c, key, archive, es, i);
    RestoreFails(c, key, archive, es, i + 1);
  }

  /** The sizes that a list of entries records. */
  function RecordedSizes(es: seq<BackupEntry>, n: nat): nat
    requires n <= |es|
  {
    if n == 0 then 0 else RecordedSizes(es, n - 1) + es[n - 1].originalSize
  }

  /** The totals of a restore count the entries and add up the sizes they record. */
  lemma {:induction false} TotalsAreRecorded(c: Crypto, key: Bytes, archive: Archive, es: seq<BackupEntry>, n: nat)
    requires n <= |es| && RestoredEntries(c, key, archive, es, n).Ok?
    ensures var r := RestoredEntries(c, key, archive, es, n).value; r.count == n && r.bytes == RecordedSizes(es, n)
  {
    hide RestoredEntry;
    if n > 0 {
      TotalsAreRecorded(c, key, archive, es, n - 1);
    }
  }

  lemma {:induction false} BeforeIsRestored(c: Crypto, key: Bytes, archive: Archive, es: seq<BackupEntry>, n: nat)
    requires n <= |es| && forall j :: 0 <= j < n ==> RestoredEntry(c, key, archive, es[j]).Ok?
    ensures RestoredEntries(c, key, archive, es, n).Ok?
  {
    hide RestoredEntry;
    if n > 0 {
      BeforeIsRestored(c, key, archive, es, n - 1);
    }
  }

  /** The first file that cannot be sealed stops a backup with the error of the sealing. */
  lemma FirstFailureDecides(c: Crypto, key: Bytes, suite: Suite, files: seq<SourceFile>, entropy: nat -> Entropy,
                            archive: Archive, i: nat)
    requires Shaped(entropy) && i < |files| && FileContainer(c, key, suite, files[i], entropy(i)).Err?
    requires Stored(c, key, suite, files[..i], entropy, archive).Ok?
    ensures Stored(c, key, suite, files, entropy, archive)
         == Err(EncryptionFailed(FileContainer(c, key, suite, files[i], entropy(i)).error))
  {
    hide FileContainer, Stored, EntriesFor, TotalBytes, Layout;
    OneMoreStored(c, key, suite, files, entropy, archive, i);
    StoredFails(c, key, suite, files, entropy, archive, i + 1);
  }
}
