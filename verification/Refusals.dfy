/** Which error stops the reader, on inputs taken apart: the error branches of src/wraith/header.rs and decryptor.rs. */
module Refusals {
  import opened BigEndian
  import opened Outcomes
  import opened Primitives
  import opened Streams
  import opened Wraith
  import opened Header
  import opened ManifestTrailer
  import opened Container
  import opened Encryptor
  import opened Decryptor
  import opened Acceptance

  const WRAITH_LETTERS: Bytes := ['W' as int, 'R' as int, 'A' as int, 'I' as int, 'T' as int, 'H' as int]

  /** The sizes of section 8 of FIPS 203, and the numbers of the suites. */
  lemma SuiteSizes()
    ensures MlKem768.Id() == 1 && MlKem1024.Id() == 2
    ensures MlKem768.CiphertextSize() == 1088 && MlKem1024.CiphertextSize() == 1568
    ensures MlKem768.DecapsulationKeySize() == 2400 && MlKem1024.DecapsulationKeySize() == 3168
  {
  }

  // The header.

  /** Where the fields of a header stand, and how it begins. */
  lemma HeaderLayout(h: WraithHeader)
    requires h.Shaped()
    ensures var b := HeaderBytes(h);
            && |b| == 80 && b[0..6] == WRAITH_LETTERS && b[6] == h.version
            && b[7] == (if h.suite == MlKem768 then 1 else 2)
            && b[8..40] == h.salt && b[40..56] == h.uuid
            && FromBE(b[56..60]) == h.chunkSize && FromBE(b[60..64]) == h.argon2MCost
            && FromBE(b[64..68]) == h.argon2TCost && FromBE(b[68..72]) == h.argon2PCost
            && FromBE(b[72..76]) == h.flags && b[76..80] == [0, 0, 0, 0]
  {
    hide BE, FromBE, Fields;
    FieldsAt(h, Zeros(4));
    U32RoundTrip(h.chunkSize);
    U32RoundTrip(h.argon2MCost);
    U32RoundTrip(h.argon2TCost);
    U32RoundTrip(h.argon2PCost);
    U32RoundTrip(h.flags);
    assert HeaderBytes(h)[76..80] == Zeros(4) == [0, 0, 0, 0];
  }

  /** The settings of a header that the reader takes: the documented bounds, in numbers. */
  predicate WithinBounds(h: WraithHeader) {
    && 65_536 <= h.chunkSize <= 268_435_456
    && 8 <= h.argon2MCost <= 262_144 && 1 <= h.argon2TCost <= 10 && 1 <= h.argon2PCost <= 8
    && h.argon2MCost * h.argon2TCost <= 2_621_440
  }

  /** What a serialised header is read as, whatever it says and whatever its last four bytes are. */
  lemma HeaderRefusals(h: WraithHeader, reserved: Bytes, rest: Bytes)
    requires h.Shaped() && |reserved| == 4
    ensures ReadHeader(Fields(h) + reserved + rest) ==
              if h.version != 4 then Err(UnsupportedVersion(h.version))
              else if !(65_536 <= h.chunkSize <= 268_435_456) then Err(InvalidChunkSize(h.chunkSize))
              else if !WithinBounds(h) then Err(InvalidContainer)
              else Ok(h)
  {
    hide Fields, BE, FromBE;
    assert (Fields(h) + reserved + rest)[..HEADER_SIZE] == Fields(h) + reserved;
    FieldsAt(h, reserved);
    U32RoundTrip(h.chunkSize);
    U32RoundTrip(h.argon2MCost);
    U32RoundTrip(h.argon2TCost);
    U32RoundTrip(h.argon2PCost);
    U32RoundTrip(h.flags);
  }

  /** What is no header at all: too short, with other letters in front, or with an unknown suite. */
  lemma NoHeader(input: Bytes)
    ensures |input| < 80 ==> ReadHeader(input) == Err(UnexpectedEof)
    ensures |input| >= 80 && input[..6] != WRAITH_LETTERS ==> ReadHeader(input) == Err(InvalidMagic)
    ensures |input| >= 80 && input[..6] == WRAITH_LETTERS && input[6] == 4 && input[7] !in [1, 2] ==>
              ReadHeader(input) == Err(CryptoFailed(UnsupportedSuite(input[7])))
  {
    hide FromBE;
    if |input| >= 80 {
      assert input[..80][0..6] == input[..6];
      assert MlKem768.Id() == 1 && MlKem1024.Id() == 2;
    }
  }

  // The envelope.

  /** The lengths that an envelope announces are checked before its contents are read. */
  lemma EnvelopeRefusals(s: Suite, announced: U32, ct: Bytes, wrapped: U32, rest: Bytes)
    ensures var size := if s == MlKem768 then 1088 else 1568;
            && (announced != size ==> ReadEnvelope(s, BE(announced, 4) + rest) == Err(InvalidContainer))
            && (|ct| == size && !(28 <= wrapped <= 8192 + 12) ==>
                  ReadEnvelope(s, BE(size, 4) + ct + BE(wrapped, 4) + rest) == Err(InvalidContainer))
            && (|ct| == size && 28 <= wrapped <= 8192 + 12 && |rest| < wrapped ==>
                  ReadEnvelope(s, BE(size, 4) + ct + BE(wrapped, 4) + rest) == Err(EndOfStream))
            && (|ct| < size ==> ReadEnvelope(s, BE(size, 4) + ct) == Err(EndOfStream))
  {
    hide BE, FromBE;
    var size := s.CiphertextSize();
    U32RoundTrip(announced);
    U32RoundTrip(size);
    U32RoundTrip(wrapped);
    assert (BE(announced, 4) + rest)[..4] == BE(announced, 4);
    assert (BE(size, 4) + ct)[..4] == BE(size, 4);
    if |ct| == size {
      var input := BE(size, 4) + ct + BE(wrapped, 4) + rest;
      assert input[..4] == BE(size, 4) && input[4 + size..] == BE(wrapped, 4) + rest;
      assert (BE(wrapped, 4) + rest)[..4] == BE(wrapped, 4);
    }
  }

  // A record.

  /** The fields of a record are checked one by one, in their order. */
  lemma RecordRefusals(expected: nat, index: U64, flag: Byte, length: U32, rest: Bytes)
    ensures index != expected ==> ReadRecord(BE(index, 8) + rest, expected) == Err(ChunkTampered(index))
    ensures index == expected && flag > 1
            ==> ReadRecord(BE(index, 8) + [flag] + rest, expected) == Err(InvalidContainer)
    ensures index == expected && flag <= 1 && length > 268_435_456 ==>
              ReadRecord(BE(index, 8) + [flag] + BE(length, 4) + rest, expected) == Err(InvalidContainer)
    ensures index == expected && flag <= 1 && length <= 268_435_456 && |rest| < 12 + length + 16 ==>
              ReadRecord(BE(index, 8) + [flag] + BE(length, 4) + rest, expected) == Err(EndOfStream)
  {
    hide BE, FromBE;
    U64RoundTrip(index);
    U32RoundTrip(length);
    assert (BE(index, 8) + rest)[..8] == BE(index, 8);
    assert (BE(index, 8) + [flag] + rest)[..8] == BE(index, 8) && (BE(index, 8) + [flag] + rest)[8] == flag;
    var input := BE(index, 8) + [flag] + BE(length, 4) + rest;
    assert input[..8] == BE(index, 8) && input[8] == flag && input[9..13] == BE(length, 4);
  }

  lemma NoRecord(expected: nat, input: Bytes)
    ensures |input| < 8 ==> ReadRecord(input, expected) == Err(EndOfStream)
  {
  }

  /** What a chunk is sealed with besides its text, byte for byte. */
  lemma AadLayout(uuid: Bytes, index: U64, isFinal: bool, length: U32)
    requires |uuid| == UUID_SIZE
    ensures var aad := ChunkAad(uuid, index, isFinal, length);
            && |aad| == 29 && aad[..16] == uuid && FromBE(aad[16..24]) == index
            && aad[24] == (if isFinal then 1 else 0) && FromBE(aad[25..29]) == length
  {
    hide BE, FromBE;
    var aad := ChunkAad(uuid, index, isFinal, length);
    assert aad[16..24] == BE(index, 8) && aad[25..29] == BE(length, 4);
    U64RoundTrip(index);
    U32RoundTrip(length);
  }

  lemma NonceLayout(prefix: Bytes, index: U64)
    requires |prefix| == 4
    ensures var nonce := ChunkNonce(prefix, index);
            |nonce| == 12 && nonce[..4] == prefix && FromBE(nonce[4..]) == index
  {
    U64RoundTrip(index);
    assert ChunkNonce(prefix, index)[4..] == BE(index, 8);
  }

  // The trailer.

  /** What is refused once the chunks are read, in the order of the checks. */
  lemma TrailerRefusals(c: Crypto, h: WraithHeader, keys: MasterKeys, count: nat, text: Bytes, length: U32, rest: Bytes)
    ensures |rest| < 8 ==> Finish(c, h, keys, count, text, rest) == Err(EndOfStream)
    ensures |rest| >= 8 && rest[..8] != WRAITH_LETTERS + ['M' as int, 'F' as int] ==>
              Finish(c, h, keys, count, text, rest) == Err(InvalidMagic)
    ensures var input := WRAITH_LETTERS + ['M' as int, 'F' as int] + BE(length, 4) + rest;
            && (length > 65_536 ==> Finish(c, h, keys, count, text, input) == Err(InvalidContainer))
            && (length <= 65_536 && |rest| < length ==> Finish(c, h, keys, count, text, input) == Err(EndOfStream))
  {
    hide BE, FromBE, OpenManifest;
    var magic := WRAITH_LETTERS + ['M' as int, 'F' as int];
    assert magic == TRAILER_MAGIC;
    var input := magic + BE(length, 4) + rest;
    assert input[..8] == magic && input[8..12] == BE(length, 4);
    U32RoundTrip(length);
  }

  /** What the checks against the manifest refuse: another count, another hash or size, and anything behind it. */
  lemma ManifestRefusals(c: Crypto, h: WraithHeader, keys: MasterKeys, count: nat, text: Bytes, trailer: Bytes,
                         rest: Bytes)
    requires |trailer| <= MAX_MANIFEST_LEN
    ensures var inside, r := OpenManifest(c, keys.manifestKey, h.uuid, trailer),
                             Finish(c, h, keys, count, text, TrailerBytes(trailer) + rest);
            if inside.Err? then r == Err(ManifestAuthFailed)
            else
              var m := inside.value;
              if m.totalChunks != count || m.sha256Hash != c.sha256(text) || m.originalSize != |text| then
                r == Err(IntegrityHashMismatch)
              else if rest != [] then r == Err(InvalidContainer)
              else r == Ok(m)
  {
    hide TrailerBytes, ReadTrailer;
    TrailerReads(trailer, rest);
  }

  /**
   A sealed manifest is bound to its key and to its container: where the cipher refuses another, so does the reader.
   */
  lemma ManifestIsBound(c: Crypto, m: Manifest, key: Bytes, uuid: Bytes, nonce: Bytes, key': Bytes, uuid': Bytes)
    requires |nonce| == NONCE_SIZE
    requires c.open(key', nonce, c.seal(key, nonce, c.manifestJson.write(m), uuid), uuid') == None
    ensures OpenManifest(c, key', uuid', SealManifest(c, m, key, uuid, nonce)) == Err(ManifestAuthFailed)
  {
    var sealed := c.seal(key, nonce, c.manifestJson.write(m), uuid);
    assert (nonce + sealed)[..NONCE_SIZE] == nonce && (nonce + sealed)[NONCE_SIZE..] == sealed;
  }

  // The whole input.

  /** Up to its records, an input is read like a container with the same beginning. */
  lemma FrontReads(c: Crypto, password: Bytes, h: WraithHeader, reserved: Bytes, e: Envelope, later: Bytes,
                   room: Option<nat>)
    requires password != [] && h.Valid() && |reserved| == 4 && EnvelopeInBounds(h.suite, e)
    ensures var inside := OpenEnvelope(c, password, h, e);
            var d := Decode(c, password, Fields(h) + reserved + EnvelopeBytes(e) + later, room);
            if inside.Err? then d == Decoded(Err(inside.error), [])
            else match ReadChunks(c, inside.value.dek, h.uuid, later, 0, [], room)
              case Stopped(error, text) => d == Decoded(Err(error), text)
              case AllRead(count, text, rest) => d == Decoded(Finish(c, h, inside.value, count, text, rest), text)
  {
    hide Fields, EnvelopeBytes, ReadEnvelope, OpenEnvelope, ReadChunks, Finish, ParseHeader;
    var front := Fields(h) + reserved;
    var input := front + EnvelopeBytes(e) + later;
    assert input[..HEADER_SIZE] == front && input[HEADER_SIZE..] == EnvelopeBytes(e) + later;
    ParseInvertsFields(h, reserved);
    EnvelopeReads(h.suite, e, later);
  }

  /** Records that are not the last are read and released, and the rest is read after them. */
  lemma {:induction false} EarlierReads(c: Crypto, dek: Bytes, uuid: Bytes, rs: seq<Record>, texts: seq<Bytes>,
                                        first: nat,
                                        n: nat, text: Bytes, rest: Bytes)
    requires |rs| == |texts| && first + |rs| < n <= U64_LIMIT
    requires forall i :: 0 <= i < |rs| ==> RecordOpens(c, dek, uuid, rs[i], first + i, n, texts[i])
    ensures ReadChunks(c, dek, uuid, RecordsBytes(rs) + rest, first, text, None)
         == ReadChunks(c, dek, uuid, rest, first + |rs|, text + Flatten(texts), None)
    decreases |rs|
  {
    hide ReadRecord, BE, RecordBytes, RecordOpens;
    if rs == [] {
      assert RecordsBytes(rs) + rest == rest && text + Flatten(texts) == text;
    } else {
      var later := RecordsBytes(rs[1..]) + rest;
      assert RecordsBytes(rs) + rest == RecordBytes(rs[0]) + later;
      assert RecordOpens(c, dek, uuid, rs[0], first + 0, n, texts[0]);
      OneReads(c, dek, uuid, rs[0], texts[0], first, n, later);
      forall i | 0 <= i < |rs| - 1
        ensures RecordOpens(c, dek, uuid, rs[1..][i], first + 1 + i, n, texts[1..][i])
      {
        assert RecordOpens(c, dek, uuid, rs[i + 1], first + (i + 1), n, texts[i + 1]);
      }
      EarlierReads(c, dek, uuid, rs[1..], texts[1..], first + 1, n, text + texts[0], rest);
      assert text + texts[0] + Flatten(texts[1..]) == text + Flatten(texts);
    }
  }

  lemma OneReads(c: Crypto, dek: Bytes, uuid: Bytes, r: Record, text: Bytes, index: nat, n: nat, later: Bytes)
    requires index + 1 < n <= U64_LIMIT && RecordOpens(c, dek, uuid, r, index, n, text)
    ensures ReadRecord(RecordBytes(r) + later, index) == Ok((r, later))
    ensures OpenRecord(c, dek, uuid, r) == Some(text) && !r.isFinal
  {
    hide ReadRecord, RecordBytes, ChunkAad;
    RecordReads(r, later);
  }

  /**
   A chunk that does not open, a record that is malformed, or an end before the last chunk stops the reader right
   there. Exactly the texts of the chunks before have been released.
   */
  lemma StopsWhereItFails(c: Crypto, password: Bytes, h: WraithHeader, reserved: Bytes, e: Envelope, keys: MasterKeys,
                          rs: seq<Record>, texts: seq<Bytes>, n: nat, rest: Bytes)
    requires password != [] && h.Valid() && |reserved| == 4 && EnvelopeInBounds(h.suite, e)
    requires OpenEnvelope(c, password, h, e) == Ok(keys)
    requires |rs| == |texts| && |rs| < n <= U64_LIMIT
    requires forall i :: 0 <= i < |rs| ==> RecordOpens(c, keys.dek, h.uuid, rs[i], i, n, texts[i])
    ensures var d := Decode(c, password, Fields(h) + reserved + EnvelopeBytes(e) + (RecordsBytes(rs) + rest), None);
            match ReadRecord(rest, |rs|)
            case Err(error) => d == Decoded(Err(error), Flatten(texts))
            case Ok((r, _)) =>
              c.open(keys.dek, r.nonce, r.payload, ChunkAad(h.uuid, |rs|, r.isFinal, |r.payload| - 16)) == None ==>
                d == Decoded(Err(ChunkTampered(|rs|)), Flatten(texts))
  {
    hide Fields, EnvelopeBytes, OpenEnvelope, Finish, RecordOpens, Decode, RecordsBytes, ReadRecord, ChunkAad,
         ReadChunks;
    FrontReads(c, password, h, reserved, e, RecordsBytes(rs) + rest, None);
    forall i | 0 <= i < |rs|
      ensures RecordOpens(c, keys.dek, h.uuid, rs[i], 0 + i, n, texts[i])
    {
      assert RecordOpens(c, keys.dek, h.uuid, rs[i], i, n, texts[i]);
    }
    EarlierReads(c, keys.dek, h.uuid, rs, texts, 0, n, [], rest);
    assert [] + Flatten(texts) == Flatten(texts);
    NextStops(c, keys.dek, h.uuid, rest, |rs|, Flatten(texts));
  }

  lemma NextStops(c: Crypto, dek: Bytes, uuid: Bytes, input: Bytes, index: nat, text: Bytes)
    ensures var read := ReadChunks(c, dek, uuid, input, index, text, None);
            match ReadRecord(input, index)
            case Err(error) => read == Stopped(error, text)
            case Ok((r, _)) =>
              c.open(dek, r.nonce, r.payload, ChunkAad(uuid, index, r.isFinal, |r.payload| - 16)) == None ==>
                read == Stopped(ChunkTampered(index), text)
  {
    hide ReadRecord, ChunkAad, RecordBytes;
    if ReadRecord(input, index).Ok? {
      var (r, later) := ReadRecord(input, index).value;
      ReadsRecord(input, index, r, later);
    }
  }

  /**
   With a password whose key does not unwrap the envelope, or under a header that it was not sealed with, the reader
   stops before the first chunk and has released nothing.
   */
  lemma WrongPasswordIsRefused(c: Crypto, password: Bytes, h: WraithHeader, reserved: Bytes, e: Envelope, later: Bytes,
                               stretched: Bytes, room: Option<nat>)
    requires password != [] && h.Valid() && |reserved| == 4 && EnvelopeInBounds(h.suite, e)
    requires c.argon2(password, h.salt, h.argon2MCost, h.argon2TCost, h.argon2PCost) == Some(stretched)
    requires c.open(c.hkdf(h.salt + h.uuid, stretched, "miragex-v4-pqc-wrap-key"), e.wrapNonce, e.wrappedKey,
             HeaderBytes(h))
             == None
    ensures Decode(c, password, Fields(h) + reserved + EnvelopeBytes(e) + later, room)
            == Decoded(Err(ManifestAuthFailed), [])
  {
    hide Fields, EnvelopeBytes, Decode, HeaderBytes, ReadChunks, Finish;
    FrontReads(c, password, h, reserved, e, later, room);
  }

  /** And without a password nothing is read at all. */
  lemma EmptyPasswordIsRefused(c: Crypto, input: Bytes, room: Option<nat>, o: EncryptOptions)
    ensures Decode(c, [], input, room) == Decoded(Err(InvalidPassword), []) && Guard([], o) == Some(InvalidPassword)
  {
  }

  /** What the writer refuses, with which error. */
  lemma WriterRefusals(password: Bytes, o: EncryptOptions)
    ensures Guard(password, o) ==
              if password == [] then Some(InvalidPassword)
              else if !(65_536 <= o.chunkSize <= 268_435_456) then Some(InvalidChunkSize(o.chunkSize))
              else if !(8 <= o.argon2MCost <= 262_144 && 1 <= o.argon2TCost <= 10 && 1 <= o.argon2PCost <= 8
                        && o.argon2MCost * o.argon2TCost <= 2_621_440) then Some(InvalidContainer)
              else None
  {
  }
}
