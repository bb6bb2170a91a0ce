/** Vaults: the size checks of src/vault/mod.rs. The TAR archive is a byte string here. */
module Vault {
  import opened BigEndian
  import opened Outcomes
  import opened Primitives
  import opened Streams
  import opened Wraith
  import opened Container
  import opened Encryptor
  import opened Decryptor
  import opened RoundTrip
  import Crc
  import Keyfile

  const VAULT_PAYLOAD_NAME: string := "vault_payload.tar"
  const MAX_VAULT_PLAINTEXT_SIZE: nat := 2 * 1024 * 1024 * 1024
  const VAULT_TAR_OVERHEAD_MARGIN: nat := 64 * 1024 * 1024
  const MAX_SOURCES: nat := MAX_VAULT_PLAINTEXT_SIZE - VAULT_TAR_OVERHEAD_MARGIN

  /** What a source path may be. */
  datatype Item =
    | RegularFile(size: U64)
    | Directory(entries: Items)
    | UnreadableDirectory
    | Symlink
    | Special
    | Missing

  datatype Items = NoItems | Items(first: Item, rest: Items)

  datatype SourceError = IsSymlink | IsSpecial | NotAccessible | NotReadable | SizeOverflow | TooLarge

  /** Regular files and folders all the way down. */
  predicate Acceptable(i: Item) {
    match i
    case RegularFile(_) => true
    case Directory(entries) => AllAcceptable(entries)
    case _ => false
  }

  predicate AllAcceptable(xs: Items) {
    xs.Items? ==> Acceptable(xs.first) && AllAcceptable(xs.rest)
  }

  /** The bytes in all regular files. */
  function Size(i: Item): nat {
    match i
    case RegularFile(size) => size
    case Directory(entries) => Sizes(entries)
    case _ => 0
  }

  function Sizes(xs: Items): nat {
    if xs.NoItems? then 0 else Size(xs.first) + Sizes(xs.rest)
  }

  function Nodes(i: Item): (n: nat)
    ensures n > 0
  {
    if i.Directory? then 1 + AllNodes(i.entries) else 1
  }

  function AllNodes(xs: Items): nat {
    if xs.NoItems? then 0 else Nodes(xs.first) + AllNodes(xs.rest)
  }

  function Listed(xs: Items): seq<Item> {
    if xs.NoItems? then [] else [xs.first] + Listed(xs.rest)
  }

  // The same for a list of sources.

  predicate SourcesAcceptable(s: seq<Item>) {
    forall i :: i in s ==> Acceptable(i)
  }

  function SourcesSize(s: seq<Item>): nat {
    if s == [] then 0 else Size(s[0]) + SourcesSize(s[1..])
  }

  function SourcesNodes(s: seq<Item>): nat {
    if s == [] then 0 else Nodes(s[0]) + SourcesNodes(s[1..])
  }

  lemma {:induction false} SourcesConcat(s: seq<Item>, t: seq<Item>)
    ensures SourcesSize(s + t) == SourcesSize(s) + SourcesSize(t)
    ensures SourcesNodes(s + t) == SourcesNodes(s) + SourcesNodes(t)
  {
    if s == [] {
      assert s + t == t;
    } else {
      assert (s + t)[1..] == s[1..] + t;
      SourcesConcat(s[1..], t);
    }
  }

  lemma {:induction false} ListedAgrees(xs: Items)
    ensures SourcesSize(Listed(xs)) == Sizes(xs) && SourcesNodes(Listed(xs)) == AllNodes(xs)
    ensures SourcesAcceptable(Listed(xs)) <==> AllAcceptable(xs)
  {
    if xs.Items? {
      ListedAgrees(xs.rest);
      assert Listed(xs)[1..] == Listed(xs.rest) && Listed(xs)[0] == xs.first;
      assert forall i :: i in Listed(xs) <==> i == xs.first || i in Listed(xs.rest);
    }
  }

  /** One step of the worklist: the last item is replaced by what is in it. */
  lemma PopAgrees(stack: seq<Item>)
    requires stack != []
    ensures var rest, last := stack[..|stack| - 1], stack[|stack| - 1];
            && SourcesSize(stack) == SourcesSize(rest) + Size(last)
            && SourcesNodes(stack) == SourcesNodes(rest) + Nodes(last)
            && (SourcesAcceptable(stack) <==> SourcesAcceptable(rest) && Acceptable(last))
  {
    var rest, last := stack[..|stack| - 1], stack[|stack| - 1];
    assert stack == rest + [last];
    SourcesConcat(rest, [last]);
    assert SourcesSize([last]) == Size(last) && SourcesNodes([last]) == Nodes(last);
  }

  lemma PushAgrees(stack: seq<Item>, xs: Items)
    ensures SourcesSize(stack + Listed(xs)) == SourcesSize(stack) + Sizes(xs)
    ensures SourcesNodes(stack + Listed(xs)) == SourcesNodes(stack) + AllNodes(xs)
    ensures SourcesAcceptable(stack + Listed(xs)) <==> SourcesAcceptable(stack) && AllAcceptable(xs)
  {
    SourcesConcat(stack, Listed(xs));
    ListedAgrees(xs);
    assert forall i :: i in stack + Listed(xs) <==> i in stack || i in Listed(xs);
  }

  /** What is wrong with a node that is neither a regular file nor a folder that can be listed. */
  function Fault(i: Item): Option<SourceError> {
    match i
    case Symlink => Some(IsSymlink)
    case Special => Some(IsSpecial)
    case Missing => Some(NotAccessible)
    case UnreadableDirectory => Some(NotReadable)
    case RegularFile(_) => None
    case Directory(_) => None
  }

  /** Some node has this fault. */
  predicate Faulty(i: Item, e: SourceError) {
    if i.Directory? then AnyFaulty(i.entries, e) else Fault(i) == Some(e)
  }

  predicate AnyFaulty(xs: Items, e: SourceError) {
    xs.Items? && (Faulty(xs.first, e) || AnyFaulty(xs.rest, e))
  }

  ghost predicate SourcesFaulty(s: seq<Item>, e: SourceError) {
    exists i :: i in s && Faulty(i, e)
  }

  lemma {:induction false} ListedFaulty(xs: Items, e: SourceError)
    requires SourcesFaulty(Listed(xs), e)
    ensures AnyFaulty(xs, e)
  {
    var i :| i in Listed(xs) && Faulty(i, e);
    if xs.Items? && i != xs.first {
      assert i in Listed(xs.rest);
      ListedFaulty(xs.rest, e);
    }
  }

  /** Whatever fault is found after a step of the walk was there before. */
  lemma StepFaulty(stack: seq<Item>, e: SourceError)
    requires stack != []
    ensures var rest, last := stack[..|stack| - 1], stack[|stack| - 1];
            && (SourcesFaulty(rest, e) ==> SourcesFaulty(stack, e))
            && (Faulty(last, e) ==> SourcesFaulty(stack, e))
            && (last.Directory? && SourcesFaulty(rest + Listed(last.entries), e) ==> SourcesFaulty(stack, e))
  {
    hide Faulty;
    var rest, last := stack[..|stack| - 1], stack[|stack| - 1];
    assert last in stack && forall i :: i in rest ==> i in stack;
    if last.Directory? && SourcesFaulty(rest + Listed(last.entries), e) {
      var i :| i in rest + Listed(last.entries) && Faulty(i, e);
      if i !in rest {
        assert SourcesFaulty(Listed(last.entries), e);
        ListedFaulty(last.entries, e);
        FolderFaulty(last, e);
      }
    }
  }

  lemma LastFault(stack: seq<Item>)
    requires stack != []
    ensures var rest, last := stack[..|stack| - 1], stack[|stack| - 1];
            && (forall e :: SourcesFaulty(rest, e) ==> SourcesFaulty(stack, e))
            && (Fault(last).Some? ==> SourcesFaulty(stack, Fault(last).value))
            && (last.Directory? ==>
                  forall e :: SourcesFaulty(rest + Listed(last.entries), e) ==> SourcesFaulty(stack, e))
  {
    hide SourcesFaulty, Listed;
    forall e
      ensures SourcesFaulty(stack[..|stack| - 1], e) ==> SourcesFaulty(stack, e)
    {
      StepFaulty(stack, e);
    }
    var last := stack[|stack| - 1];
    if Fault(last).Some? {
      StepFaulty(stack, Fault(last).value);
    }
    if last.Directory? {
      forall e
        ensures SourcesFaulty(stack[..|stack| - 1] + Listed(last.entries), e) ==> SourcesFaulty(stack, e)
      {
        StepFaulty(stack, e);
      }
    }
  }

  lemma FolderFaulty(i: Item, e: SourceError)
    requires i.Directory? && AnyFaulty(i.entries, e)
    ensures Faulty(i, e)
  {
  }

  /**
   Walks the sources with a stack. It succeeds exactly on regular files and folders whose sizes add up to no more
   than the limit, and returns the sum; an error is for a reason.
   */
  method ValidateSourcePaths(sources: seq<Item>) returns (r: Result<nat, SourceError>)
    ensures r.Ok? <==> SourcesAcceptable(sources) && SourcesSize(sources) <= 2_147_483_648 - 67_108_864
    ensures r.Ok? ==> r.value == SourcesSize(sources)
    ensures r.Err? && (r.error == TooLarge || r.error == SizeOverflow)
            ==> SourcesSize(sources) > 2_147_483_648 - 67_108_864
    ensures r.Err? && r.error != TooLarge && r.error != SizeOverflow ==>
              !SourcesAcceptable(sources) && SourcesFaulty(sources, r.error)
  {
    hide SourcesSize, SourcesNodes, SourcesAcceptable, SourcesFaulty, Faulty;
    var stack, total := sources, 0;
    SourcesEmpty();
    while stack != []
      invariant total + SourcesSize(stack) == SourcesSize(sources)
      invariant SourcesAcceptable(stack) <==> SourcesAcceptable(sources)
      invariant total <= MAX_SOURCES
      invariant forall e :: SourcesFaulty(stack, e) ==> SourcesFaulty(sources, e)
      decreases SourcesNodes(stack)
    {
      PopAgrees(stack);
      LastFault(stack);
      var item := stack[|stack| - 1];
      stack := stack[..|stack| - 1];
      match item
      case Missing => return Err(NotAccessible);
      case Symlink => return Err(IsSymlink);
      case UnreadableDirectory => return Err(NotReadable);
      case Directory(entries) =>
        PushAgrees(stack, entries);
        stack := stack + Listed(entries);
      case Special => return Err(IsSpecial);
      case RegularFile(size) =>
        if total + size >= U64_LIMIT {
          return Err(SizeOverflow);
        }
        total := total + size;
        if total > MAX_SOURCES {
          return Err(TooLarge);
        }
    }
    r := Ok(total);
  }

  lemma SourcesEmpty()
    ensures SourcesSize([]) == 0 && SourcesAcceptable([])
  {
  }

  datatype VaultError =
    | NoCredentials
    | NoSources
    | BadSources(reason: SourceError)
    | PackedTooLarge
    | BadKeyfile(problem: Keyfile.KeyfileError)
    | EncryptionFailed(cause: WraithError)
    | DecryptionFailed(cause: WraithError)
    | NotAVault

  function VaultOptions(suite: Suite): EncryptOptions {
    DefaultOptions(suite, VAULT_PAYLOAD_NAME)
  }

  /** The key that a password and the contents of keyfiles make. */
  function MixedKey(password: Crc.Octets, keyfiles: seq<Crc.Octets>): Result<Bytes, VaultError> {
    match Keyfile.Effective(password, keyfiles)
    case Err(e) => Err(BadKeyfile(e))
    case Ok(effective) => Ok(Keyfile.AsBytes(effective))
  }

  method MixKey(password: Crc.Octets, keyfiles: seq<Crc.Octets>) returns (r: Result<Bytes, VaultError>)
    ensures r == MixedKey(password, keyfiles)
  {
    var effective := Keyfile.ApplyKeyfiles(password, keyfiles);
    match effective
    case Err(e) => r := Err(BadKeyfile(e));
    case Ok(value) => r := Ok(Keyfile.AsBytes(value));
  }

  lemma MixedIs(password: Crc.Octets, keyfiles: seq<Crc.Octets>)
    ensures var effective := Keyfile.Effective(password, keyfiles);
            MixedKey(password, keyfiles)
            == if effective.Ok? then Ok(Keyfile.AsBytes(effective.value)) else Err(BadKeyfile(effective.error))
  {
  }

  /** With credentials, and the vault's own settings, only the password hash can make the encryption fail. */
  lemma OnlyTheHashFails(c: Crypto, password: Crc.Octets, keyfiles: seq<Crc.Octets>, tar: Bytes, suite: Suite,
                         e: Entropy)
    requires e.Shaped() && (password != [] || keyfiles != []) && MixedKey(password, keyfiles).Ok?
    ensures var k := Encode(c, MixedKey(password, keyfiles).value, tar, VaultOptions(suite), e);
            k.Err? ==> k.error == CryptoFailed(KdfError)
  {
    hide Seal, Keyfile.Effective, Keyfile.AsBytes;
    Keyfile.GuardSeesCredentials(password, keyfiles, VaultOptions(suite));
  }

  // What the key of a vault depends on.

  /** The effective password is the whole key: two credentials make one key exactly when they mix to the same. */
  lemma KeysDetermined(password: Crc.Octets, keyfiles: seq<Crc.Octets>, password': Crc.Octets,
                       keyfiles': seq<Crc.Octets>)
    requires Keyfile.Effective(password, keyfiles).Ok? && Keyfile.Effective(password', keyfiles').Ok?
    ensures MixedKey(password, keyfiles) == MixedKey(password', keyfiles')
            <==> Keyfile.Effective(password, keyfiles) == Keyfile.Effective(password', keyfiles')
  {
    hide Keyfile.Effective, Keyfile.AsBytes;
    if MixedKey(password, keyfiles) == MixedKey(password', keyfiles') {
      Keyfile.AsBytesInjective(Keyfile.Effective(password, keyfiles).value,
        Keyfile.Effective(password', keyfiles').value);
    }
  }

  /** Another keyfile of the same length, where both fit the pool in one round, makes another key. */
  lemma OtherKeyfileOtherKey(password: Crc.Octets, x: Crc.Octets, y: Crc.Octets)
    requires |x| == |y| && x != [] && 4 * |x| <= Keyfile.PoolSize(|password|) && x != y
    ensures MixedKey(password, [x]).Ok? && MixedKey(password, [y]).Ok?
            && MixedKey(password, [x]) != MixedKey(password, [y])
  {
    hide Keyfile.AsBytes, Keyfile.Mix;
    Keyfile.KeyfilesDistinguished(password, x, y);
    KeysDetermined(password, [x], password, [y]);
  }

  /** A keyfile makes another key than none, under every password shorter than the pool. */
  lemma KeyfileMatters(password: Crc.Octets, keyfiles: seq<Crc.Octets>)
    requires |password| < Keyfile.PoolSize(|password|) && keyfiles != [] && [] !in keyfiles
    ensures MixedKey(password, keyfiles).Ok? && MixedKey(password, []).Ok?
    ensures |MixedKey(password, keyfiles).value| == Keyfile.PoolSize(|password|)
    ensures MixedKey(password, []).value == Keyfile.AsBytes(password)
    ensures MixedKey(password, keyfiles) != MixedKey(password, [])
  {
    hide Keyfile.AsBytes, Keyfile.MixedAt;
  }

  /** The sources pass. */
  predicate Admissible(sources: seq<Item>) {
    SourcesAcceptable(sources) && SourcesSize(sources) <= MAX_SOURCES
  }

  /**
   Validates the sources, checks the packed archive's size, mixes the credentials and seals the archive. What is made
   opens, under the same credentials, to the full archive, if the sealed manifest is within the format's bound.
   */
  method CreateVault(c: Crypto, sources: seq<Item>, tar: Bytes, password: Crc.Octets, keyfiles: seq<Crc.Octets>,
                     suite: Suite, e: Entropy)
    returns (r: Result<Bytes, VaultError>)
    requires c.Lawful() && e.Shaped()
    ensures var key := MixedKey(password, keyfiles);
            if password == [] && keyfiles == [] then r == Err(NoCredentials)
            else if sources == [] then r == Err(NoSources)
            else if !Admissible(sources) then r.Err? && r.error.BadSources?
            else if |tar| > MAX_VAULT_PLAINTEXT_SIZE then r == Err(PackedTooLarge)
            else if key.Err? then r == Err(key.error)
            else
              var k := Encode(c, key.value, tar, VaultOptions(suite), e);
              if k.Err? then r == Err(EncryptionFailed(CryptoFailed(KdfError))) else r == Ok(Layout(k.value))
    ensures r.Ok? ==>
              var effective := Keyfile.Effective(password, keyfiles);
              && effective.Ok?
              && var k := Encode(c, Keyfile.AsBytes(effective.value), tar, VaultOptions(suite), e);
              && k.Ok? && r.value == Layout(k.value)
    ensures r.Ok? && SealedManifestLength(c, NewManifest(c, tar, VaultOptions(suite), e)) <= MAX_MANIFEST_LEN ==>
              var key := MixedKey(password, keyfiles);
              key.Ok? && Opening(c, r.value, key.value) == Ok(tar)
  {
    hide Encode, Layout, SourcesAcceptable, SourcesSize, Opening, NewManifest, MixedKey, Keyfile.Effective,
         Keyfile.AsBytes;
    if password == [] && keyfiles == [] {
      return Err(NoCredentials);
    }
    if sources == [] {
      return Err(NoSources);
    }
    var checked := ValidateSourcePaths(sources);
    if checked.Err? {
      return Err(BadSources(checked.error));
    }
    if |tar| > MAX_VAULT_PLAINTEXT_SIZE {
      return Err(PackedTooLarge);
    }
    var key := MixKey(password, keyfiles);
    if key.Err? {
      return Err(key.error);
    }
    OnlyTheHashFails(c, password, keyfiles, tar, suite, e);
    MixedIs(password, keyfiles);
    r := SealArchive(c, tar, key.value, suite, e);
  }

  method SealArchive(c: Crypto, tar: Bytes, key: Bytes, suite: Suite, e: Entropy) returns (r: Result<Bytes, VaultError>)
    requires c.Lawful() && e.Shaped() && |tar| <= MAX_VAULT_PLAINTEXT_SIZE
    ensures var k := Encode(c, key, tar, VaultOptions(suite), e);
            r == if k.Err? then Err(EncryptionFailed(k.error)) else Ok(Layout(k.value))
    ensures r.Ok? && SealedManifestLength(c, NewManifest(c, tar, VaultOptions(suite), e)) <= MAX_MANIFEST_LEN
            ==> Opening(c, r.value, key) == Ok(tar)
  {
    hide Encode, Layout, Opening, NewManifest;
    ghost var k := Encode(c, key, tar, VaultOptions(suite), e);
    var reader := new Reader(tar);
    var sink := new Sink(None);
    var result := EncryptStream(c, reader, sink, key, VaultOptions(suite), e);
    match result
    case Err(error) =>
      r := Err(EncryptionFailed(error));
      assert k == Err(error);
    case Ok(_) =>
      assert k.Ok? && [] + Layout(k.value) == sink.written;
      assert Layout(k.value) == sink.written;
      r := Ok(sink.written);
      if SealedManifestLength(c, NewManifest(c, tar, VaultOptions(suite), e)) <= MAX_MANIFEST_LEN {
        OpensExactly(c, key, tar, VaultOptions(suite), e);
      }
  }

  /** What opening some bytes as a vault yields. */
  function Opening(c: Crypto, bytes: Bytes, key: Bytes): Result<Bytes, VaultError> {
    var d := Decode(c, key, bytes, Some(MAX_VAULT_PLAINTEXT_SIZE));
    match d.result
    case Err(error) => Err(DecryptionFailed(error))
    case Ok(m) => if m.originalFilename != VAULT_PAYLOAD_NAME then Err(NotAVault) else Ok(d.text)
  }

  /** Mixes the credentials and decrypts into a buffer that refuses to grow past the limit. */
  method OpenVault(c: Crypto, bytes: Bytes, password: Crc.Octets, keyfiles: seq<Crc.Octets>)
    returns (r: Result<Bytes, VaultError>)
    ensures var key := MixedKey(password, keyfiles);
            r == if key.Err? then Err(key.error) else Opening(c, bytes, key.value)
    ensures var effective := Keyfile.Effective(password, keyfiles);
            match effective
            case Err(problem) => r == Err(BadKeyfile(problem))
            case Ok(mixed) =>
              var d := Decode(c, Keyfile.AsBytes(mixed), bytes, Some(2_147_483_648));
              if d.result.Err? then r == Err(DecryptionFailed(d.result.error))
              else if d.result.value.originalFilename != "vault_payload.tar" then r == Err(NotAVault)
              else r == Ok(d.text)
    ensures r.Ok? ==> |r.value| <= MAX_VAULT_PLAINTEXT_SIZE
  {
    hide Decode, Keyfile.Effective, Keyfile.AsBytes;
    var key := MixKey(password, keyfiles);
    if key.Err? {
      return Err(key.error);
    }
    var reader := new Reader(bytes);
    var sink := new Sink(Some(MAX_VAULT_PLAINTEXT_SIZE));
    assert Room(sink) == Some(MAX_VAULT_PLAINTEXT_SIZE);
    var result := DecryptStream(c, reader, sink, key.value);
    ghost var d := Decode(c, key.value, bytes, Some(MAX_VAULT_PLAINTEXT_SIZE));
    assert result == d.result && sink.written == [] + d.text == d.text;
    match result
    case Err(error) => r := Err(DecryptionFailed(error));
    case Ok(m) => r := if m.originalFilename != VAULT_PAYLOAD_NAME then Err(NotAVault) else Ok(sink.written);
  }

  /**
   Which containers open as vaults: exactly those that fit the limit, have a sealed manifest within the format's bound
   and carry the vault's payload name; and those open to all their data.
   */
  lemma OpensExactly(c: Crypto, key: Bytes, data: Bytes, o: EncryptOptions, e: Entropy)
    requires c.Lawful() && e.Shaped() && |data| < U64_LIMIT
    requires Encode(c, key, data, o, e).Ok?
    ensures var r := Opening(c, Layout(Encode(c, key, data, o, e).value), key);
            if |data| > MAX_VAULT_PLAINTEXT_SIZE then r == Err(DecryptionFailed(WriteRefused))
            else if SealedManifestLength(c, NewManifest(c, data, o, e)) > MAX_MANIFEST_LEN then
              r.Err? && r.error.DecryptionFailed?
            else r == if o.originalFilename != VAULT_PAYLOAD_NAME then Err(NotAVault) else Ok(data)
  {
    hide Decode, Layout, NewManifest;
    var room := Some(MAX_VAULT_PLAINTEXT_SIZE);
    if Fits(room, |data|) {
      RoundTrips(c, key, data, o, e, room);
    } else {
      TooLittleRoom(c, key, data, o, e, room);
    }
  }
}
