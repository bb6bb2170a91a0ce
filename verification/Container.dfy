/**
 The WRAITH v4 container format as a grammar: what the parts are, how they are laid out in bytes, and what it
 means for a password to open them. Neither the writer nor the reader is mentioned here.
 */
module Container {
  import opened BigEndian
  import opened Outcomes
  import opened Primitives
  import opened Wraith
  import opened Header
  import opened ManifestTrailer

  /** A chunk record. The payload is the sealed text with its tag. */
  datatype Record = Record(index: nat, isFinal: bool, nonce: Bytes, payload: Bytes) {
    function TextLength(): nat {
      if |payload| < TAG_SIZE then 0 else |payload| - TAG_SIZE
    }
  }

  datatype Envelope = Envelope(kemCiphertext: Bytes, wrapNonce: Bytes, wrappedKey: Bytes)

  datatype Container = Container(
    header: WraithHeader,
    reserved: Bytes,
    envelope: Envelope,
    records: seq<Record>,
    trailer: Bytes
  )

  function Flag(b: bool): Byte {
    if b then 1 else 0
  }

  function RecordBytes(r: Record): Bytes {
    BE(r.index, 8) + [Flag(r.isFinal)] + BE(r.TextLength(), 4) + r.nonce + r.payload
  }

  function RecordsBytes(rs: seq<Record>): Bytes {
    if rs == [] then [] else RecordBytes(rs[0]) + RecordsBytes(rs[1..])
  }

  function EnvelopeBytes(e: Envelope): Bytes {
    BE(|e.kemCiphertext|, 4) + e.kemCiphertext + BE(NONCE_SIZE + |e.wrappedKey|, 4) + e.wrapNonce + e.wrappedKey
  }

  function TrailerBytes(t: Bytes): Bytes {
    TRAILER_MAGIC + BE(|t|, 4) + t
  }

  /** What follows the header. */
  function Body(k: Container): (b: Bytes)
    ensures |b| == |EnvelopeBytes(k.envelope)| + |RecordsBytes(k.records)| + |TrailerBytes(k.trailer)|
  {
    EnvelopeBytes(k.envelope) + RecordsBytes(k.records) + TrailerBytes(k.trailer)
  }

  function Layout(k: Container): (b: Bytes)
    requires k.header.Shaped()
    ensures |b| == MEANINGFUL_SIZE + |k.reserved| + |Body(k)|
  {
    Fields(k.header) + k.reserved + Body(k)
  }

  /** The nonce of a chunk: a prefix fixed for the run and the chunk's number. */
  function ChunkNonce(prefix: Bytes, index: nat): Bytes {
    prefix + BE(index, 8)
  }

  /** The data that a chunk is sealed with besides its text. */
  function ChunkAad(uuid: Bytes, index: nat, isFinal: bool, length: nat): Bytes {
    uuid + BE(index, 8) + [Flag(isFinal)] + BE(length, 4)
  }

  method GenerateChunkNonce(prefix: Bytes, index: nat) returns (nonce: array<Byte>)
    requires |prefix| == 4
    ensures fresh(nonce)
    ensures nonce[..] == ChunkNonce(prefix, index)
  {
    nonce := new Byte[NONCE_SIZE](_ => 0);
    CopyInto(nonce, 0, prefix);
    assert nonce[..4] == prefix;
    CopyInto(nonce, 4, BE(index, 8));
  }

  lemma ChunkNonceInjective(prefix: Bytes, i: U64, j: U64)
    ensures ChunkNonce(prefix, i) == ChunkNonce(prefix, j) <==> i == j
  {
    var x, y := ChunkNonce(prefix, i), ChunkNonce(prefix, j);
    assert x[|prefix|..] == BE(i, 8) && y[|prefix|..] == BE(j, 8);
    U64RoundTrip(i);
    U64RoundTrip(j);
  }

  /** The associated data of a chunk determines the container, the position, the end mark and the length. */
  lemma ChunkAadInjective(u: Bytes, i: U64, f: bool, n: U32, u': Bytes, i': U64, f': bool, n': U32)
    requires |u| == UUID_SIZE && |u'| == UUID_SIZE
    ensures |ChunkAad(u, i, f, n)| == 29
    ensures ChunkAad(u, i, f, n) == ChunkAad(u', i', f', n') <==> u == u' && i == i' && f == f' && n == n'
  {
    var x, y := ChunkAad(u, i, f, n), ChunkAad(u', i', f', n');
    assert x[..16] == u && y[..16] == u';
    assert x[16..24] == BE(i, 8) && y[16..24] == BE(i', 8);
    assert x[24] == Flag(f) && y[24] == Flag(f');
    assert x[25..] == BE(n, 4) && y[25..] == BE(n', 4);
    U64RoundTrip(i);
    U64RoundTrip(i');
    U32RoundTrip(n);
    U32RoundTrip(n');
  }

  /** The keys a password, a header and an envelope lead to. */
  ghost predicate Unlocks(c: Crypto, password: Bytes, h: WraithHeader, e: Envelope, keys: MasterKeys)
    requires h.Shaped()
  {
    exists passwordKey, decapsulationKey, secret ::
      && c.argon2(password, h.salt, h.argon2MCost, h.argon2TCost, h.argon2PCost) == Some(passwordKey)
      && c.open(WrapKey(c, passwordKey, h.salt, h.uuid), e.wrapNonce, e.wrappedKey, HeaderBytes(h))
        == Some(decapsulationKey)
      && c.decapsulate(h.suite, decapsulationKey, e.kemCiphertext) == Some(secret)
      && keys == DeriveMasterKeys(c, passwordKey, secret, h.uuid, h.salt)
  }

  predicate EnvelopeInBounds(s: Suite, e: Envelope) {
    && |e.kemCiphertext| == s.CiphertextSize()
    && |e.wrapNonce| == NONCE_SIZE
    && TAG_SIZE <= |e.wrappedKey| <= MAX_WRAPPED_KEY_LEN
  }

  /** Record i of n opens to `text`. */
  predicate RecordOpens(c: Crypto, dek: Bytes, uuid: Bytes, r: Record, i: nat, n: nat, text: Bytes) {
    && r.index == i
    && (r.isFinal <==> i == n - 1)
    && |r.nonce| == NONCE_SIZE
    && TAG_SIZE <= |r.payload| <= MAX_CHUNK_PAYLOAD_LEN + TAG_SIZE
    && c.open(dek, r.nonce, r.payload, ChunkAad(uuid, i, r.isFinal, r.TextLength())) == Some(text)
  }

  ghost predicate RecordsOpen(c: Crypto, dek: Bytes, uuid: Bytes, rs: seq<Record>, texts: seq<Bytes>) {
    && 0 < |rs| == |texts| <= U64_LIMIT
    && forall i :: 0 <= i < |rs| ==> RecordOpens(c, dek, uuid, rs[i], i, |rs|, texts[i])
  }

  /** The password opens container k; its chunks hold `texts` and its manifest is m. */
  ghost predicate Opens(c: Crypto, password: Bytes, k: Container, keys: MasterKeys, texts: seq<Bytes>, m: Manifest) {
    && password != []
    && k.header.Valid()
    && |k.reserved| == 4
    && EnvelopeInBounds(k.header.suite, k.envelope)
    && Unlocks(c, password, k.header, k.envelope, keys)
    && RecordsOpen(c, keys.dek, k.header.uuid, k.records, texts)
    && |k.trailer| <= MAX_MANIFEST_LEN
    && OpenManifest(c, keys.manifestKey, k.header.uuid, k.trailer) == Ok(m)
    && m.totalChunks == |k.records|
    && m.originalSize == |Flatten(texts)|
    && m.sha256Hash == c.sha256(Flatten(texts))
  }
}
