/** Reading and verifying a container: src/wraith/decryptor.rs. */
module Decryptor {
  import opened BigEndian
  import opened Outcomes
  import opened Primitives
  import opened Streams
  import opened Wraith
  import opened Header
  import opened ManifestTrailer
  import opened Container

  // The parser on values. Each function consumes a part of the input and returns the rest.

  type Parsed<T> = Result<(T, Bytes), WraithError>

  function ReadEnvelope(suite: Suite, input: Bytes): Parsed<Envelope> {
    if |input| < 4 then Err(EndOfStream)
    else if FromBE(input[..4]) != suite.CiphertextSize() then Err(InvalidContainer)
    else
      var n := suite.CiphertextSize();
      if |input| < 4 + n then Err(EndOfStream)
      else match ReadWrapped(input[4 + n..])
        case Err(error) => Err(error)
        case Ok((wrapped, rest)) => Ok((Envelope(input[4..4 + n], wrapped.nonce, wrapped.key), rest))
  }

  /** The wrapped key of an envelope, with the nonce in front of it. */
  datatype Wrapped = Wrapped(nonce: Bytes, key: Bytes)

  function ReadWrapped(input: Bytes): Parsed<Wrapped> {
    if |input| < 4 then Err(EndOfStream)
    else
      var n := FromBE(input[..4]);
      if n < NONCE_SIZE + TAG_SIZE || n - NONCE_SIZE > MAX_WRAPPED_KEY_LEN then Err(InvalidContainer)
      else if |input| < 4 + n then Err(EndOfStream)
      else Ok((Wrapped(input[4..16], input[16..4 + n]), input[4 + n..]))
  }

  function OpenEnvelope(c: Crypto, password: Bytes, h: WraithHeader, e: Envelope): Result<MasterKeys, WraithError>
    requires h.Shaped()
  {
    match c.argon2(password, h.salt, h.argon2MCost, h.argon2TCost, h.argon2PCost)
    case None => Err(CryptoFailed(KdfError))
    case Some(passwordKey) =>
      match c.open(WrapKey(c, passwordKey, h.salt, h.uuid), e.wrapNonce, e.wrappedKey, HeaderBytes(h))
      case None => Err(ManifestAuthFailed)
      case Some(decapsulationKey) =>
        match c.decapsulate(h.suite, decapsulationKey, e.kemCiphertext)
        case None => Err(CryptoFailed(KemError))
        case Some(secret) => Ok(DeriveMasterKeys(c, passwordKey, secret, h.uuid, h.salt))
  }

  function ReadRecord(input: Bytes, expected: nat): (r: Parsed<Record>)
    ensures r.Ok? ==> |r.value.1| < |input|
  {
    if |input| < 8 then Err(EndOfStream)
    else if FromBE(input[..8]) != expected then Err(ChunkTampered(FromBE(input[..8])))
    else if |input| < 9 then Err(EndOfStream)
    else if input[8] > 1 then Err(InvalidContainer)
    else if |input| < 13 then Err(EndOfStream)
    else
      var n := FromBE(input[9..13]);
      if n > MAX_CHUNK_PAYLOAD_LEN then Err(InvalidContainer)
      else if |input| < 25 + n + TAG_SIZE then Err(EndOfStream)
      else Ok((Record(expected, input[8] == 1, input[13..25], input[25..25 + n + TAG_SIZE]),
        input[25 + n + TAG_SIZE..]))
  }

  function OpenRecord(c: Crypto, dek: Bytes, uuid: Bytes, r: Record): Option<Bytes> {
    c.open(dek, r.nonce, r.payload, ChunkAad(uuid, r.index, r.isFinal, r.TextLength()))
  }

  /**
   How the chunk loop ends: with the number of chunks and the unread input, or with an error. The text written so far
   is kept either way.
   */
  datatype ChunksRead = AllRead(count: nat, text: Bytes, rest: Bytes) | Stopped(error: WraithError, text: Bytes)

  function ReadChunks(c: Crypto, dek: Bytes, uuid: Bytes, input: Bytes, index: nat, text: Bytes,
                      room: Option<nat>): ChunksRead
    decreases |input|
  {
    match ReadRecord(input, index)
    case Err(error) => Stopped(error, text)
    case Ok((record, rest)) =>
      match OpenRecord(c, dek, uuid, record)
      case None => Stopped(ChunkTampered(index), text)
      case Some(piece) =>
        if !Fits(room, |text| + |piece|) then Stopped(WriteRefused, text)
        else if record.isFinal then AllRead(index + 1, text + piece, rest)
        else ReadChunks(c, dek, uuid, rest, index + 1, text + piece, room)
  }

  function ReadTrailer(input: Bytes): Parsed<Bytes> {
    if |input| < 8 then Err(EndOfStream)
    else if input[..8] != TRAILER_MAGIC then Err(InvalidMagic)
    else if |input| < 12 then Err(EndOfStream)
    else
      var n := FromBE(input[8..12]);
      if n > MAX_MANIFEST_LEN then Err(InvalidContainer)
      else if |input| < 12 + n then Err(EndOfStream)
      else Ok((input[12..12 + n], input[12 + n..]))
  }

  /** The checks on the trailer, once the chunks are read. */
  function Finish(c: Crypto, h: WraithHeader, keys: MasterKeys, count: nat, text: Bytes,
                  input: Bytes): Result<Manifest, WraithError> {
    match ReadTrailer(input)
    case Err(error) => Err(error)
    case Ok((trailer, rest)) =>
      match OpenManifest(c, keys.manifestKey, h.uuid, trailer)
      case Err(error) => Err(error)
      case Ok(m) =>
        if m.totalChunks != count then Err(IntegrityHashMismatch)
        else if m.sha256Hash != c.sha256(text) || m.originalSize != |text| then Err(IntegrityHashMismatch)
        else if rest != [] then Err(InvalidContainer)
        else Ok(m)
  }

  /** The outcome of a run: its result, and the text it has released. */
  datatype Decoded = Decoded(result: Result<Manifest, WraithError>, text: Bytes)

  function Decode(c: Crypto, password: Bytes, input: Bytes, room: Option<nat>): Decoded
  {
    if password == [] then Decoded(Err(InvalidPassword), [])
    else match ReadHeader(input)
      case Err(error) => Decoded(Err(error), [])
      case Ok(h) => DecodeBody(c, password, h, input[HEADER_SIZE..], room)
  }

  function DecodeBody(c: Crypto, password: Bytes, h: WraithHeader, input: Bytes, room: Option<nat>): Decoded
    requires h.Shaped()
  {
    match ReadEnvelope(h.suite, input)
    case Err(error) => Decoded(Err(error), [])
    case Ok((envelope, rest)) =>
      match OpenEnvelope(c, password, h, envelope)
      case Err(error) => Decoded(Err(error), [])
      case Ok(keys) =>
        match ReadChunks(c, keys.dek, h.uuid, rest, 0, [], room)
        case Stopped(error, text) => Decoded(Err(error), text)
        case AllRead(count, text, rest') => Decoded(Finish(c, h, keys, count, text, rest'), text)
  }

  // The same on a reader and a sink.

  method ReadU32(reader: Reader) returns (n: Option<nat>)
    modifies reader
    ensures n.Some? <==> |old(reader.rest)| >= 4
    ensures n.Some? ==> n.value == FromBE(old(reader.rest)[..4]) && reader.rest == old(reader.rest)[4..]
  {
    var b := reader.ReadExact(4);
    n := if b.None? then None else Some(FromBE(b.value));
  }

  method ParseEnvelope(reader: Reader, suite: Suite) returns (r: Result<Envelope, WraithError>)
    modifies reader
    ensures var parsed := ReadEnvelope(suite, old(reader.rest));
            if r.Ok? then parsed == Ok((r.value, reader.rest)) else parsed == Err(r.error)
  {
    hide FromBE, ReadWrapped;
    ghost var input := reader.rest;
    var n := ReadU32(reader);
    if n.None? {
      return Err(EndOfStream);
    }
    if n.value != suite.CiphertextSize() {
      return Err(InvalidContainer);
    }
    var ct := reader.ReadExact(n.value);
    if ct.None? {
      return Err(EndOfStream);
    }
    SliceAfter(input, 4, 0, n.value);
    assert ct.value == input[4..4 + n.value] && reader.rest == input[4 + n.value..];
    var wrapped := ParseWrapped(reader);
    if wrapped.Err? {
      return Err(wrapped.error);
    }
    r := Ok(Envelope(ct.value, wrapped.value.nonce, wrapped.value.key));
  }

  method ParseWrapped(reader: Reader) returns (r: Result<Wrapped, WraithError>)
    modifies reader
    ensures var parsed := ReadWrapped(old(reader.rest));
            if r.Ok? then parsed == Ok((r.value, reader.rest)) else parsed == Err(r.error)
  {
    hide FromBE;
    ghost var input := reader.rest;
    var n := ReadU32(reader);
    if n.None? {
      return Err(EndOfStream);
    }
    if n.value < NONCE_SIZE + TAG_SIZE || n.value - NONCE_SIZE > MAX_WRAPPED_KEY_LEN {
      return Err(InvalidContainer);
    }
    var nonce := reader.ReadExact(NONCE_SIZE);
    if nonce.None? {
      return Err(EndOfStream);
    }
    SliceAfter(input, 4, 0, NONCE_SIZE);
    assert nonce.value == input[4..16] && reader.rest == input[16..];
    var key := reader.ReadExact(n.value - NONCE_SIZE);
    if key.None? {
      return Err(EndOfStream);
    }
    SliceAfter(input, 16, 0, n.value - NONCE_SIZE);
    assert key.value == input[16..4 + n.value] && reader.rest == input[4 + n.value..];
    r := Ok(Wrapped(nonce.value, key.value));
  }

  method ParseRecord(reader: Reader, expected: nat) returns (r: Result<Record, WraithError>)
    modifies reader
    ensures var parsed := ReadRecord(old(reader.rest), expected);
            if r.Ok? then parsed == Ok((r.value, reader.rest)) else parsed == Err(r.error)
  {
    hide FromBE;
    ghost var input := reader.rest;
    var index := reader.ReadExact(8);
    if index.None? {
      return Err(EndOfStream);
    }
    if FromBE(index.value) != expected {
      return Err(ChunkTampered(FromBE(index.value)));
    }
    var flag := reader.ReadExact(1);
    if flag.None? {
      return Err(EndOfStream);
    }
    assert flag.value[0] == input[8] && reader.rest == input[9..];
    if flag.value[0] > 1 {
      return Err(InvalidContainer);
    }
    var n := ReadU32(reader);
    if n.None? {
      return Err(EndOfStream);
    }
    SliceAfter(input, 9, 0, 4);
    assert n.value == FromBE(input[9..13]) && reader.rest == input[13..];
    if n.value > MAX_CHUNK_PAYLOAD_LEN {
      return Err(InvalidContainer);
    }
    var sealed := ParseSealed(reader, n.value);
    match sealed
    case None => r := Err(EndOfStream);
    case Some((nonce, payload)) =>
      SliceAfter(input, 13, 0, NONCE_SIZE);
      SliceAfter(input, 13, NONCE_SIZE, NONCE_SIZE + n.value + TAG_SIZE);
      r := Ok(Record(expected, flag.value[0] == 1, nonce, payload));
  }

  /** The nonce and the sealed text of a record. */
  method ParseSealed(reader: Reader, n: nat) returns (r: Option<(Bytes, Bytes)>)
    modifies reader
    ensures r.Some? <==> |old(reader.rest)| >= NONCE_SIZE + n + TAG_SIZE
    ensures r.Some? ==> r.value.0 == old(reader.rest)[..NONCE_SIZE]
    ensures r.Some? ==> r.value.1 == old(reader.rest)[NONCE_SIZE..NONCE_SIZE + n + TAG_SIZE]
    ensures r.Some? ==> reader.rest == old(reader.rest)[NONCE_SIZE + n + TAG_SIZE..]
  {
    ghost var input := reader.rest;
    var nonce := reader.ReadExact(NONCE_SIZE);
    if nonce.None? {
      return None;
    }
    var payload := reader.ReadExact(n + TAG_SIZE);
    if payload.None? {
      return None;
    }
    SliceAfter(input, NONCE_SIZE, 0, n + TAG_SIZE);
    r := Some((nonce.value, payload.value));
  }

  method ParseTrailer(reader: Reader) returns (r: Result<Bytes, WraithError>)
    modifies reader
    ensures var parsed := ReadTrailer(old(reader.rest));
            if r.Ok? then parsed == Ok((r.value, reader.rest)) else parsed == Err(r.error)
  {
    hide FromBE;
    ghost var input := reader.rest;
    var magic := reader.ReadExact(8);
    if magic.None? {
      return Err(EndOfStream);
    }
    if magic.value != TRAILER_MAGIC {
      return Err(InvalidMagic);
    }
    var n := ReadU32(reader);
    if n.None? {
      return Err(EndOfStream);
    }
    SliceAfter(input, 8, 0, 4);
    assert n.value == FromBE(input[8..12]) && reader.rest == input[12..];
    if n.value > MAX_MANIFEST_LEN {
      return Err(InvalidContainer);
    }
    var trailer := reader.ReadExact(n.value);
    if trailer.None? {
      return Err(EndOfStream);
    }
    SliceAfter(input, 12, 0, n.value);
    assert trailer.value == input[12..12 + n.value] && reader.rest == input[12 + n.value..];
    r := Ok(trailer.value);
  }

  /** How much more a sink takes. */
  function Room(sink: Sink): (r: Option<nat>)
    requires sink.Valid()
    reads sink
  {
    if sink.limit.None? then None else Some(sink.limit.value - |sink.written|)
  }

  /** The chunk loop: each record is read, checked, opened and released before the next one is looked at. */
  method DecryptChunks(c: Crypto, reader: Reader, sink: Sink, dek: Bytes, uuid: Bytes)
    returns (error: Option<WraithError>, count: nat, hashed: Bytes)
    requires sink.Valid()
    modifies reader, sink
    ensures sink.Valid()
    ensures var read := ReadChunks(c, dek, uuid, old(reader.rest), 0, [], old(Room(sink)));
            && sink.written == old(sink.written) + read.text
            && match error
               case Some(err) => read == Stopped(err, read.text)
               case None => read == AllRead(count, hashed, reader.rest)
  {
    hide ReadRecord, OpenRecord;
    ghost var room := Room(sink);
    ghost var goal := ReadChunks(c, dek, uuid, reader.rest, 0, [], room);
    ghost var start := sink.written;
    count, hashed := 0, [];
    while true
      invariant sink.Valid()
      invariant sink.written == start + hashed
      invariant ReadChunks(c, dek, uuid, reader.rest, count, hashed, room) == goal
      decreases |reader.rest|
    {
      var record := ParseRecord(reader, count);
      if record.Err? {
        return Some(record.error), count, hashed;
      }
      var piece := OpenRecord(c, dek, uuid, record.value);
      if piece.None? {
        return Some(ChunkTampered(count)), count, hashed;
      }
      var ok := sink.WriteAll(piece.value);
      if !ok {
        return Some(WriteRefused), count, hashed;
      }
      assert sink.written == start + (hashed + piece.value);
      hashed := hashed + piece.value;
      count := count + 1;
      if record.value.isFinal {
        break;
      }
    }
    error := None;
  }

  /** The trailer and the checks across chunks; ends with a probe that the source is exhausted. */
  method VerifyTrailer(c: Crypto, reader: Reader, h: WraithHeader, keys: MasterKeys, count: nat, hashed: Bytes)
    returns (r: Result<Manifest, WraithError>)
    modifies reader
    ensures r == Finish(c, h, keys, count, hashed, old(reader.rest))
    ensures r.Ok? ==> reader.rest == []
  {
    var trailer := ParseTrailer(reader);
    if trailer.Err? {
      return Err(trailer.error);
    }
    r := OpenManifest(c, keys.manifestKey, h.uuid, trailer.value);
    if r.Err? {
      return;
    }
    if r.value.totalChunks != count {
      return Err(IntegrityHashMismatch);
    }
    if r.value.sha256Hash != c.sha256(hashed) || r.value.originalSize != |hashed| {
      return Err(IntegrityHashMismatch);
    }
    var extra := reader.Probe();
    if extra.Some? {
      return Err(InvalidContainer);
    }
  }

  /** Opens a container from the reader and releases its text into the sink. */
  method DecryptStream(c: Crypto, reader: Reader, sink: Sink, password: Bytes)
    returns (r: Result<Manifest, WraithError>)
    requires sink.Valid()
    modifies reader, sink
    ensures sink.Valid()
    ensures var decoded := Decode(c, password, old(reader.rest), old(Room(sink)));
            r == decoded.result && sink.written == old(sink.written) + decoded.text
    ensures r.Ok? ==> reader.rest == []
  {
    hide HeaderBytes, ReadChunks, Finish, ReadEnvelope;
    if password == [] {
      return Err(InvalidPassword);
    }
    var header := ReadFrom(reader);
    if header.Err? {
      return Err(header.error);
    }
    var envelope := ParseEnvelope(reader, header.value.suite);
    if envelope.Err? {
      return Err(envelope.error);
    }
    var keys := OpenEnvelope(c, password, header.value, envelope.value);
    if keys.Err? {
      return Err(keys.error);
    }
    var error, count, hashed := DecryptChunks(c, reader, sink, keys.value.dek, header.value.uuid);
    if error.Some? {
      return Err(error.value);
    }
    r := VerifyTrailer(c, reader, header.value, keys.value, count, hashed);
  }
}
