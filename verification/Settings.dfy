/** The settings that the watcher, backups and vaults seal their containers with. */
module Settings {
  import opened BigEndian
  import opened Outcomes
  import opened Primitives
  import opened Wraith
  import opened Header
  import opened Container
  import opened Encryptor
  import FolderWatcher
  import Backup
  import Vault
  import opened FileNames

  /** The header of a container sealed with the default settings: 16 MiB chunks and 64 MiB, 3 passes, 4 lanes. */
  function DefaultHeader(suite: Suite, e: Entropy): WraithHeader {
    WraithHeader(4, suite, e.salt, e.uuid, 16_777_216, 65_536, 3, 4, 0)
  }

  lemma DefaultSealing(c: Crypto, password: Bytes, data: Bytes, suite: Suite, name: string, e: Entropy)
    requires e.Shaped()
    ensures var k := Encode(c, password, data, DefaultOptions(suite, name), e);
            && (k.Ok? ==> k.value.header == DefaultHeader(suite, e))
            && (k.Err? ==> k.error == if password == [] then InvalidPassword else CryptoFailed(KdfError))
    ensures NewManifest(c, data, DefaultOptions(suite, name), e).originalFilename == name
    ensures NewManifest(c, data, DefaultOptions(suite, name), e).createdAt == e.now
    ensures NewManifest(c, data, DefaultOptions(suite, name), e).sha256Hash == c.sha256(data)
  {
    hide Chunks, HeaderBytes, Seal;
    if StartSession(c, password, DefaultOptions(suite, name), e).Ok? {
      SealKeepsHeader(c, StartSession(c, password, DefaultOptions(suite, name), e).value, data,
        DefaultOptions(suite, name), e);
    }
  }

  lemma SealKeepsHeader(c: Crypto, s: Session, data: Bytes, o: EncryptOptions, e: Entropy)
    requires o.chunkSize > 0
    ensures Seal(c, s, data, o, e).header == s.header
  {
  }

  /** The watcher seals a file under its own suite and under the file's name. */
  lemma WatcherSeals(c: Crypto, cfg: FolderWatcher.Config, path: Path, content: Bytes, e: Entropy)
    requires path != [] && e.Shaped()
    ensures var k := FolderWatcher.Sealed(c, cfg, path, content, e);
            && k == Encode(c, cfg.key, content, DefaultOptions(cfg.suite, path[|path| - 1]), e)
            && (k.Ok? ==> k.value.header == DefaultHeader(cfg.suite, e))
  {
    hide Encode;
    DefaultSealing(c, cfg.key, content, cfg.suite, path[|path| - 1], e);
  }

  /** A backup seals a file under its blinded name. */
  lemma BackupSeals(c: Crypto, key: Bytes, suite: Suite, f: Backup.SourceFile, e: Entropy)
    requires e.Shaped()
    ensures var k := Backup.FileContainer(c, key, suite, f, e);
            && k == Encode(c, key, f.content, DefaultOptions(suite, Backup.BlindedId(c, Backup.RelativeName(f.path))),
              e)
            && (k.Ok? ==> k.value.header == DefaultHeader(suite, e))
  {
    hide Encode, Backup.BlindedId, Backup.RelativeName;
    DefaultSealing(c, key, f.content, suite, Backup.BlindedId(c, Backup.RelativeName(f.path)), e);
  }

  /** A vault is sealed under the payload name, which is what marks it as a vault. */
  lemma VaultSeals(c: Crypto, key: Bytes, tar: Bytes, suite: Suite, e: Entropy)
    requires e.Shaped()
    ensures var k := Encode(c, key, tar, Vault.VaultOptions(suite), e);
            && k == Encode(c, key, tar, DefaultOptions(suite, "vault_payload.tar"), e)
            && (k.Ok? ==> k.value.header == DefaultHeader(suite, e))
  {
    hide Encode;
    DefaultSealing(c, key, tar, suite, "vault_payload.tar", e);
  }
}
