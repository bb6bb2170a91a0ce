/** Writing a container: src/wraith/encryptor.rs. */
module Encryptor {
  import opened BigEndian
  import opened Outcomes
  import opened Primitives
  import opened Streams
  import opened Wraith
  import opened Header
  import opened ManifestTrailer
  import opened Container

  datatype EncryptOptions = EncryptOptions(
    suite: Suite,
    chunkSize: U32,
    originalFilename: string,
    argon2MCost: U32,
    argon2TCost: U32,
    argon2PCost: U32
  )

  const DEFAULT_ARGON2_M_COST: nat := 64 * 1024
  const DEFAULT_ARGON2_T_COST: nat := 3
  const DEFAULT_ARGON2_P_COST: nat := 4

  /** The settings of everything but the encrypt command. */
  function DefaultOptions(suite: Suite, name: string): EncryptOptions {
    EncryptOptions(suite, DEFAULT_CHUNK_SIZE, name, DEFAULT_ARGON2_M_COST, DEFAULT_ARGON2_T_COST, DEFAULT_ARGON2_P_COST)
  }

  /** The random bytes one run draws, and the clock. */
  datatype Entropy = Entropy(salt: Bytes, uuid: Bytes, kemSeed: Bytes, wrapNonce: Bytes, noncePrefix: Bytes,
                             manifestNonce: Bytes, now: nat) {
    predicate Shaped() {
      && |salt| == SALT_SIZE && |uuid| == UUID_SIZE
      && |wrapNonce| == NONCE_SIZE && |noncePrefix| == 4 && |manifestNonce| == NONCE_SIZE
    }
  }

  /** The checks made before anything is written. */
  function Guard(password: Bytes, o: EncryptOptions): Option<WraithError> {
    if password == [] then Some(InvalidPassword)
    else if o.chunkSize < MIN_CHUNK_SIZE || o.chunkSize > MAX_CHUNK_SIZE then Some(InvalidChunkSize(o.chunkSize))
    else if o.argon2MCost < MIN_ARGON2_M_COST || o.argon2MCost > MAX_ARGON2_M_COST
         || o.argon2TCost < MIN_ARGON2_T_COST || o.argon2TCost > MAX_ARGON2_T_COST
         || o.argon2PCost < MIN_ARGON2_P_COST || o.argon2PCost > MAX_ARGON2_P_COST
         || o.argon2MCost * o.argon2TCost > MAX_ARGON2_WORK_FACTOR then Some(InvalidContainer)
    else None
  }

  function NewHeader(o: EncryptOptions, e: Entropy): (h: WraithHeader) {
    WraithHeader(CURRENT_VERSION, o.suite, e.salt, e.uuid, o.chunkSize, o.argon2MCost, o.argon2TCost, o.argon2PCost, 0)
  }

  /** The source cut into pieces of `size` bytes, the last of which may be shorter. */
  function Chunks(data: Bytes, size: nat): (cs: seq<Bytes>)
    requires size > 0
    ensures |cs| > 0
    decreases |data|
  {
    if |data| <= size then [data] else [data[..size]] + Chunks(data[size..], size)
  }

  /** The number of chunks announced to progress reports, from the declared size. */
  function PredictedChunks(total: nat, size: nat): nat
    requires size > 0
  {
    if total == 0 then 1 else (total + size - 1) / size
  }

  /** The records for the chunks from number `index` on. */
  function SealChunks(c: Crypto, dek: Bytes, uuid: Bytes, prefix: Bytes, index: nat,
                      texts: seq<Bytes>): (rs: seq<Record>)
    ensures |rs| == |texts|
    decreases |texts|
  {
    if texts == [] then []
    else [SealChunk(c, dek, uuid, prefix, index, |texts| == 1, texts[0])]
         + SealChunks(c, dek, uuid, prefix, index + 1, texts[1..])
  }

  function SealChunk(c: Crypto, dek: Bytes, uuid: Bytes, prefix: Bytes, index: nat, isFinal: bool,
                     text: Bytes): Record {
    var nonce := ChunkNonce(prefix, index);
    Record(index, isFinal, nonce, c.seal(dek, nonce, text, ChunkAad(uuid, index, isFinal, |text|)))
  }

  /** What is fixed before the first chunk: the header, the envelope and the keys. */
  datatype Session = Session(header: WraithHeader, envelope: Envelope, keys: MasterKeys)

  function StartSession(c: Crypto, password: Bytes, o: EncryptOptions, e: Entropy): (r: Result<Session, WraithError>)
    requires e.Shaped()
    ensures r.Ok? ==> r.value.header == NewHeader(o, e)
  {
    var h := NewHeader(o, e);
    var kem := c.encapsulate(o.suite, e.kemSeed);
    match c.argon2(password, h.salt, h.argon2MCost, h.argon2TCost, h.argon2PCost)
    case None => Err(CryptoFailed(KdfError))
    case Some(passwordKey) =>
      var wrapped := c.seal(WrapKey(c, passwordKey, h.salt, h.uuid), e.wrapNonce, kem.decapsulationKey, HeaderBytes(h));
      Ok(Session(h, Envelope(kem.ciphertext, e.wrapNonce, wrapped),
                 DeriveMasterKeys(c, passwordKey, kem.sharedSecret, h.uuid, h.salt)))
  }

  function NewManifest(c: Crypto, data: Bytes, o: EncryptOptions, e: Entropy): Manifest
    requires o.chunkSize > 0
  {
    Manifest(o.originalFilename, |data|, c.sha256(data), e.now, |Chunks(data, o.chunkSize)|)
  }

  /** The container that a run writes once its session has started. */
  function Seal(c: Crypto, s: Session, data: Bytes, o: EncryptOptions, e: Entropy): Container
    requires o.chunkSize > 0
  {
    Container(s.header, Zeros(4), s.envelope,
              SealChunks(c, s.keys.dek, s.header.uuid, e.noncePrefix, 0, Chunks(data, o.chunkSize)),
              SealManifest(c, NewManifest(c, data, o, e), s.keys.manifestKey, s.header.uuid, e.manifestNonce))
  }

  /** The container that a run writes, or the error it stops with. */
  function Encode(c: Crypto, password: Bytes, data: Bytes, o: EncryptOptions, e: Entropy)
    : (r: Result<Container, WraithError>)
    requires e.Shaped()
    ensures r.Ok? ==> r.value.header.Shaped()
  {
    var bad := Guard(password, o);
    if bad.Some? then Err(bad.value)
    else match StartSession(c, password, o, e)
      case Err(error) => Err(error)
      case Ok(session) => Ok(Seal(c, session, data, o, e))
  }

  /** What the loop still has to write when `data` is unread and `index` chunks are out. */
  function Remaining(c: Crypto, dek: Bytes, uuid: Bytes, prefix: Bytes, index: nat, data: Bytes, size: nat): Bytes
    requires size > 0
  {
    RecordsBytes(SealChunks(c, dek, uuid, prefix, index, Chunks(data, size)))
  }

  function Pending(lookahead: Option<Byte>): Bytes {
    match lookahead
    case None => []
    case Some(b) => [b]
  }

  /** Reads into the buffer from position `from` on, until it is full or the source ends. */
  method FillFrom(reader: Reader, buf: array<Byte>, from: nat) returns (n: nat)
    requires from <= buf.Length
    modifies reader, buf
    ensures from <= n <= buf.Length && n - from <= |old(reader.rest)|
    ensures buf[..n] == old(buf[..from]) + old(reader.rest)[..n - from]
    ensures reader.rest == old(reader.rest)[n - from..]
    ensures n == buf.Length || reader.rest == []
  {
    ghost var data := buf[..from] + reader.rest;
    n := from;
    while n < buf.Length
      invariant from <= n <= buf.Length && n <= |data|
      invariant buf[..n] == data[..n]
      invariant reader.rest == data[n..]
      decreases buf.Length - n
    {
      ghost var had := buf[..n];
      var got := reader.Read(buf, n);
      if got == 0 {
        break;
      }
      assert buf[..n + got] == had + data[n..][..got];
      n := n + got;
    }
  }

  /** What is held back and what is unread, cut in the unread part. */
  lemma Filled(held: Bytes, rest: Bytes, k: nat)
    requires k <= |rest|
    ensures (held + rest)[..|held| + k] == held + rest[..k]
    ensures (held + rest)[|held| + k..] == rest[k..]
  {
  }

  /**
   Fills the buffer: the byte held back from the last probe first, then reads until it is full or the source
   ends. Then probes for one more byte, so that the last chunk is known without trusting a declared size.
   */
  method FillChunk(reader: Reader, buf: array<Byte>, lookahead: Option<Byte>)
    returns (n: nat, isFinal: bool, next: Option<Byte>)
    requires buf.Length > 0
    modifies reader, buf
    ensures n <= buf.Length
    ensures var data := Pending(lookahead) + old(reader.rest);
            && n == (if |data| <= buf.Length then |data| else buf.Length)
            && buf[..n] == data[..n] && data[n..] == Pending(next) + reader.rest
            && (isFinal <==> |data| <= buf.Length)
    ensures isFinal ==> next == None
  {
    ghost var held, rest := Pending(lookahead), reader.rest;
    n := 0;
    if lookahead.Some? {
      buf[0] := lookahead.value;
      n := 1;
    }
    assert buf[..n] == held;
    n := FillFrom(reader, buf, n);
    Filled(held, rest, n - |held|);
    assert buf[..n] == (held + rest)[..n] && reader.rest == (held + rest)[n..];
    if n < buf.Length {
      return n, true, None;
    }
    isFinal, next := ProbeEnd(reader);
  }

  /** Probes for one more byte, and holds it back. */
  method ProbeEnd(reader: Reader) returns (isFinal: bool, next: Option<Byte>)
    modifies reader
    ensures Pending(next) + reader.rest == old(reader.rest)
    ensures isFinal <==> old(reader.rest) == []
    ensures isFinal ==> next == None
  {
    next := reader.Probe();
    isFinal := next == None;
  }

  method WriteParts(sink: Sink, parts: seq<Bytes>) returns (ok: bool)
    requires sink.Valid()
    modifies sink
    ensures sink.Valid()
    ensures ok <==> Fits(sink.limit, |old(sink.written)| + |Flatten(parts)|)
    ensures old(sink.written) <= sink.written <= old(sink.written) + Flatten(parts)
    ensures ok ==> sink.written == old(sink.written) + Flatten(parts)
  {
    var i := 0;
    while i < |parts|
      invariant i <= |parts| && sink.Valid()
      invariant old(sink.written) <= sink.written
      invariant sink.written + Flatten(parts[i..]) == old(sink.written) + Flatten(parts)
    {
      ghost var before := sink.written;
      ok := sink.WriteAll(parts[i]);
      assert Flatten(parts[i..]) == parts[i] + Flatten(parts[i + 1..]);
      if !ok {
        return;
      }
      assert sink.written + Flatten(parts[i + 1..]) == before + Flatten(parts[i..]);
      i := i + 1;
    }
    ok := true;
  }

  lemma FlattenFive(a: Bytes, b: Bytes, c: Bytes, d: Bytes, e: Bytes)
    ensures Flatten([a, b, c, d, e]) == a + b + c + d + e
  {
    assert Flatten([e]) == e;
    assert Flatten([d, e]) == d + e;
    assert Flatten([c, d, e]) == c + d + e;
    assert Flatten([b, c, d, e]) == b + c + d + e;
  }

  /** Seals one chunk and writes its record. */
  method WriteChunk(c: Crypto, sink: Sink, dek: Bytes, uuid: Bytes, prefix: Bytes, index: nat, isFinal: bool,
                    text: Bytes)
    returns (ok: bool)
    requires |prefix| == 4 && c.LawfulAead()
    requires sink.Valid()
    modifies sink
    ensures sink.Valid()
    ensures var record := RecordBytes(SealChunk(c, dek, uuid, prefix, index, isFinal, text));
            && (ok <==> Fits(sink.limit, |old(sink.written)| + |record|))
            && old(sink.written) <= sink.written <= old(sink.written) + record
            && (ok ==> sink.written == old(sink.written) + record)
  {
    var nonce := GenerateChunkNonce(prefix, index);
    var sealed := c.seal(dek, nonce[..], text, ChunkAad(uuid, index, isFinal, |text|));
    assert |sealed| == |text| + TAG_SIZE;
    var parts := [BE(index, 8), [Flag(isFinal)], BE(|text|, 4), nonce[..], sealed];
    FlattenFive(parts[0], parts[1], parts[2], parts[3], parts[4]);
    ok := WriteParts(sink, parts);
  }

  /** One round of the chunk loop: fills the buffer, seals its contents and writes the record. */
  method WriteNextChunk(c: Crypto, reader: Reader, sink: Sink, buf: array<Byte>, lookahead: Option<Byte>,
                        dek: Bytes, uuid: Bytes, prefix: Bytes, index: nat)
    returns (ok: bool, text: Bytes, isFinal: bool, next: Option<Byte>)
    requires buf.Length > 0 && |prefix| == 4 && c.LawfulAead()
    requires sink.Valid()
    modifies reader, sink, buf
    ensures sink.Valid()
    ensures Pending(lookahead) + old(reader.rest) == text + (Pending(next) + reader.rest)
    ensures (isFinal <==> |Pending(lookahead) + old(reader.rest)| <= buf.Length)
    ensures if isFinal then Pending(next) + reader.rest == [] else |text| == buf.Length
    ensures var record := RecordBytes(SealChunk(c, dek, uuid, prefix, index, isFinal, text));
            && (ok <==> Fits(sink.limit, |old(sink.written)| + |record|))
            && old(sink.written) <= sink.written <= old(sink.written) + record
            && (ok ==> sink.written == old(sink.written) + record)
  {
    var n;
    n, isFinal, next := FillChunk(reader, buf, lookahead);
    text := buf[..n];
    ok := WriteChunk(c, sink, dek, uuid, prefix, index, isFinal, text);
  }

  /** The chunk loop. `hashed` is what the hasher has been fed. */
  method WriteChunks(c: Crypto, reader: Reader, sink: Sink, dek: Bytes, uuid: Bytes, prefix: Bytes, size: nat)
    returns (ok: bool, count: nat, hashed: Bytes)
    requires size > 0 && |prefix| == 4 && c.LawfulAead()
    requires sink.Valid()
    modifies reader, sink
    ensures sink.Valid()
    ensures ok <==> Fits(sink.limit, |old(sink.written)| + |Remaining(c, dek, uuid, prefix, 0, old(reader.rest), size)|)
    ensures old(sink.written) <= sink.written
            <= old(sink.written) + Remaining(c, dek, uuid, prefix, 0, old(reader.rest), size)
    ensures ok ==> sink.written == old(sink.written) + Remaining(c, dek, uuid, prefix, 0, old(reader.rest), size)
    ensures ok ==> count == |Chunks(old(reader.rest), size)| && hashed == old(reader.rest) && reader.rest == []
  {
    hide Remaining, Chunks, SealChunk, RecordBytes;
    var buf := new Byte[size](_ => 0);
    var lookahead := None;
    ghost var tail, left := reader.rest, Remaining(c, dek, uuid, prefix, 0, reader.rest, size);
    ghost var goal := sink.written + left;
    count, hashed := 0, [];
    while true
      invariant sink.Valid() && fresh(buf) && buf.Length == size
      invariant tail == Pending(lookahead) + reader.rest
      invariant old(reader.rest) == hashed + tail
      invariant count + |Chunks(tail, size)| == |Chunks(old(reader.rest), size)|
      invariant left == Remaining(c, dek, uuid, prefix, count, tail, size)
      invariant old(sink.written) <= sink.written && goal == sink.written + left
      decreases |tail|
    {
      ghost var before, last := sink.written, hashed;
      var text, isFinal;
      ok, text, isFinal, lookahead := WriteNextChunk(c, reader, sink, buf, lookahead, dek, uuid, prefix, count);
      left := ChunkStep(c, dek, uuid, prefix, count, tail, size, text, before, left);
      if !ok {
        return;
      }
      hashed := hashed + text;
      tail := Pending(lookahead) + reader.rest;
      count := count + 1;
      if isFinal {
        break;
      }
    }
  }

  /** The first record of what remains, and the rest. */
  lemma OneChunk(c: Crypto, dek: Bytes, uuid: Bytes, prefix: Bytes, index: nat, data: Bytes, size: nat)
    requires size > 0
    ensures Remaining(c, dek, uuid, prefix, index, data, size) ==
      if |data| <= size then RecordBytes(SealChunk(c, dek, uuid, prefix, index, true, data))
      else RecordBytes(SealChunk(c, dek, uuid, prefix, index, false, data[..size]))
           + Remaining(c, dek, uuid, prefix, index + 1, data[size..], size)
  {
    var texts := Chunks(data, size);
    var rs := SealChunks(c, dek, uuid, prefix, index, texts);
    if |data| <= size {
      assert rs == [SealChunk(c, dek, uuid, prefix, index, true, data)];
      assert RecordsBytes(rs) == RecordBytes(rs[0]) + RecordsBytes([]);
    } else {
      assert texts[1..] == Chunks(data[size..], size);
      assert rs[1..] == SealChunks(c, dek, uuid, prefix, index + 1, texts[1..]);
    }
  }

  /** One round of the loop on paper: the record for `text`, and what is then left to write after `before`. */
  lemma ChunkStep(c: Crypto, dek: Bytes, uuid: Bytes, prefix: Bytes, index: nat, tail: Bytes, size: nat,
                  text: Bytes, before: Bytes, left: Bytes)
    returns (left': Bytes)
    requires size > 0
    requires left == Remaining(c, dek, uuid, prefix, index, tail, size)
    requires text == if |tail| <= size then tail else tail[..size]
    ensures before + left == before + RecordBytes(SealChunk(c, dek, uuid, prefix, index, |tail| <= size, text)) + left'
    ensures |tail| <= size ==> left' == [] && |Chunks(tail, size)| == 1
    ensures |tail| > size ==> left' == Remaining(c, dek, uuid, prefix, index + 1, tail[size..], size)
    ensures |tail| > size ==> |Chunks(tail, size)| == 1 + |Chunks(tail[size..], size)|
  {
    OneChunk(c, dek, uuid, prefix, index, tail, size);
    left' := if |tail| <= size then [] else Remaining(c, dek, uuid, prefix, index + 1, tail[size..], size);
  }

  method WriteEnvelope(sink: Sink, e: Envelope) returns (ok: bool)
    requires sink.Valid()
    modifies sink
    ensures sink.Valid()
    ensures ok <==> Fits(sink.limit, |old(sink.written)| + |EnvelopeBytes(e)|)
    ensures old(sink.written) <= sink.written <= old(sink.written) + EnvelopeBytes(e)
    ensures ok ==> sink.written == old(sink.written) + EnvelopeBytes(e)
  {
    var parts := [BE(|e.kemCiphertext|, 4), e.kemCiphertext, BE(NONCE_SIZE + |e.wrappedKey|, 4), e.wrapNonce,
      e.wrappedKey];
    FlattenFive(parts[0], parts[1], parts[2], parts[3], parts[4]);
    ok := WriteParts(sink, parts);
  }

  method WriteTrailer(sink: Sink, trailer: Bytes) returns (ok: bool)
    requires sink.Valid()
    modifies sink
    ensures sink.Valid()
    ensures ok <==> Fits(sink.limit, |old(sink.written)| + |TrailerBytes(trailer)|)
    ensures old(sink.written) <= sink.written <= old(sink.written) + TrailerBytes(trailer)
    ensures ok ==> sink.written == old(sink.written) + TrailerBytes(trailer)
  {
    assert Flatten([trailer]) == trailer;
    assert Flatten([BE(|trailer|, 4), trailer]) == BE(|trailer|, 4) + trailer;
    ok := WriteParts(sink, [TRAILER_MAGIC, BE(|trailer|, 4), trailer]);
  }

  method WriteHeader(sink: Sink, h: WraithHeader) returns (ok: bool)
    requires sink.Valid() && h.Shaped()
    modifies sink
    ensures sink.Valid()
    ensures ok <==> Fits(sink.limit, |old(sink.written)| + |HeaderBytes(h)|)
    ensures old(sink.written) <= sink.written <= old(sink.written) + HeaderBytes(h)
    ensures ok ==> sink.written == old(sink.written) + HeaderBytes(h)
  {
    var headerBytes := ToBytes(h);
    ok := sink.WriteAll(headerBytes[..]);
  }

  /** Writes what follows the header of container k: the envelope, the chunks and the trailer. */
  method WriteBody(c: Crypto, reader: Reader, sink: Sink, s: Session, o: EncryptOptions, e: Entropy, ghost k: Container)
    returns (ok: bool, total: nat)
    requires c.LawfulAead() && e.Shaped() && o.chunkSize > 0
    requires sink.Valid() && k == Seal(c, s, reader.rest, o, e)
    modifies reader, sink
    ensures sink.Valid()
    ensures ok <==> Fits(sink.limit, |old(sink.written)| + |Body(k)|)
    ensures old(sink.written) <= sink.written <= old(sink.written) + Body(k)
    ensures ok ==> sink.written == old(sink.written) + Body(k)
    ensures ok ==> total == |old(reader.rest)| && reader.rest == []
  {
    hide EnvelopeBytes, RecordsBytes, TrailerBytes, SealManifest, SealChunks, Chunks;
    total := 0;
    ghost var start := sink.written;
    ok := WriteEnvelope(sink, s.envelope);
    if ok {
      var count, hashed;
      ok, count, hashed := WriteChunks(c, reader, sink, s.keys.dek, s.header.uuid, e.noncePrefix, o.chunkSize);
      if ok {
        total := |hashed|;
        var m := Manifest(o.originalFilename, total, c.sha256(hashed), e.now, count);
        var trailer := SealManifest(c, m, s.keys.manifestKey, s.header.uuid, e.manifestNonce);
        assert trailer == k.trailer;
        ok := WriteTrailer(sink, trailer);
        ConcatAssociates(start, EnvelopeBytes(k.envelope), RecordsBytes(k.records), TrailerBytes(k.trailer));
      }
    }
  }

  /** How a run ends past the checks, for a sink that already holds some bytes. */
  function Outcome(c: Crypto, session: Result<Session, WraithError>, data: Bytes, o: EncryptOptions, e: Entropy,
                   limit: Option<nat>, held: nat): Result<nat, WraithError>
    requires o.chunkSize > 0 && (session.Ok? ==> session.value.header.Shaped())
  {
    if !Fits(limit, held + HEADER_SIZE) then Err(WriteRefused)
    else match session
      case Err(error) => Err(error)
      case Ok(s) => if Fits(limit, held + |Layout(Seal(c, s, data, o, e))|) then Ok(|data|) else Err(WriteRefused)
  }

  /** Everything after the checks: the container is started, filled and sealed. */
  method WriteContainer(c: Crypto, reader: Reader, sink: Sink, password: Bytes, o: EncryptOptions, e: Entropy)
    returns (r: Result<nat, WraithError>)
    requires c.LawfulAead() && e.Shaped() && o.chunkSize > 0
    requires sink.Valid()
    modifies reader, sink
    ensures sink.Valid()
    ensures r == Outcome(c, StartSession(c, password, o, e), old(reader.rest), o, e, sink.limit, |old(sink.written)|)
    ensures var session := StartSession(c, password, o, e);
            && old(sink.written) <= sink.written
            && (session.Ok? ==>
                  sink.written <= old(sink.written) + Layout(Seal(c, session.value, old(reader.rest), o, e)))
            && (session.Err? ==> sink.written <= old(sink.written) + HeaderBytes(NewHeader(o, e)))
            && (r.Ok? ==> sink.written == old(sink.written) + Layout(Seal(c, session.value, old(reader.rest), o, e)))
    ensures r.Ok? ==> reader.rest == []
  {
    hide StartSession, Body, Fields, SealChunks, SealManifest, NewManifest, Chunks;
    ghost var start := sink.written;
    var h := NewHeader(o, e);
    var ok := WriteHeader(sink, h);
    if !ok {
      return Err(WriteRefused);
    }
    var session := StartSession(c, password, o, e);
    match session
    case Err(error) =>
      r := Err(error);
    case Ok(s) =>
      ghost var k := Seal(c, s, reader.rest, o, e);
      var total;
      ok, total := WriteBody(c, reader, sink, s, o, e, k);
      r := if ok then Ok(total) else Err(WriteRefused);
      assert Layout(k) == HeaderBytes(h) + Body(k);
      assert start + HeaderBytes(h) + Body(k) == start + (HeaderBytes(h) + Body(k));
  }

  /**
   Encrypts everything the reader holds. The run fails where `Encode` does or where the container outgrows the sink;
   otherwise exactly the bytes of the encoded container are appended. A failed run has written a beginning of it.
   */
  method EncryptStream(c: Crypto, reader: Reader, sink: Sink, password: Bytes, o: EncryptOptions, e: Entropy)
    returns (r: Result<nat, WraithError>)
    requires c.LawfulAead() && e.Shaped()
    requires sink.Valid()
    modifies reader, sink
    ensures sink.Valid()
    ensures var encoded := Encode(c, password, old(reader.rest), o, e);
            r == if Guard(password, o).Some? then Err(Guard(password, o).value)
                 else if !Fits(sink.limit, |old(sink.written)| + HEADER_SIZE) then Err(WriteRefused)
                 else if encoded.Err? then Err(encoded.error)
                 else if !Fits(sink.limit, |old(sink.written)| + |Layout(encoded.value)|) then Err(WriteRefused)
                 else Ok(|old(reader.rest)|)
    ensures sink.limit.None? ==>
              var encoded := Encode(c, password, old(reader.rest), o, e);
              r == if encoded.Err? then Err(encoded.error) else Ok(|old(reader.rest)|)
    ensures var encoded := Encode(c, password, old(reader.rest), o, e);
            && (r.Ok? ==> encoded.Ok? && sink.written == old(sink.written) + Layout(encoded.value))
            && (encoded.Ok? ==> old(sink.written) <= sink.written <= old(sink.written) + Layout(encoded.value))
            && (encoded.Err? ==> old(sink.written) <= sink.written <= old(sink.written) + HeaderBytes(NewHeader(o, e)))
    ensures r.Ok? ==> reader.rest == []
    ensures Guard(password, o).Some? ==> sink.written == old(sink.written)
  {
    var bad := Guard(password, o);
    if bad.Some? {
      return Err(bad.value);
    }
    r := WriteContainer(c, reader, sink, password, o, e);
  }
}
