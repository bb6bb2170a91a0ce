/** The writer against the reader, and the laws of the format that follow. */
module RoundTrip {
  import opened Arithmetic
  import opened BigEndian
  import opened Outcomes
  import opened Primitives
  import opened Streams
  import opened Wraith
  import opened Header
  import opened ManifestTrailer
  import opened Container
  import opened Encryptor
  import opened Decryptor
  import opened Acceptance

  // The shape of the chunk stream.

  /** Where chunk i begins. */
  function Offset(i: nat, size: nat): nat {
    i * size
  }

  lemma OffsetSteps(i: nat, size: nat)
    ensures Offset(0, size) == 0
    ensures i > 0 ==> Offset(i, size) == Offset(i - 1, size) + size
  {
    if i > 0 {
      assert i * size == (i - 1) * size + size;
    }
  }

  /** The last chunk is what remains after the full ones; it is empty only for empty data. */
  lemma {:induction false} LastChunk(data: Bytes, size: nat)
    requires size > 0
    ensures var cs := Chunks(data, size); var last := |cs| - 1;
            && Offset(last, size) <= |data| <= Offset(last, size) + size
            && cs[last] == data[Offset(last, size)..]
            && (cs[last] == [] <==> data == [])
    decreases |data|
  {
    hide Offset;
    var last := |Chunks(data, size)| - 1;
    OffsetSteps(last, size);
    if |data| > size {
      var rest := data[size..];
      LastChunk(rest, size);
      SliceAfter(data, size, Offset(last - 1, size), Offset(last - 1, size));
    }
  }

  /** Every other chunk is a full slice, and they follow one another. */
  lemma {:induction false} FullChunk(data: Bytes, size: nat, i: nat)
    requires size > 0 && i < |Chunks(data, size)| - 1
    ensures Offset(i, size) + size <= |data| && Chunks(data, size)[i] == data[Offset(i, size)..Offset(i, size) + size]
    decreases i
  {
    hide Offset;
    OffsetSteps(i, size);
    if i > 0 {
      var rest, before := data[size..], Offset(i - 1, size);
      FullChunk(rest, size, i - 1);
      SliceAfter(data, size, before, before + size);
    }
  }

  lemma ChunkLengths(data: Bytes, size: nat)
    requires size > 0
    ensures forall i :: 0 <= i < |Chunks(data, size)| ==> |Chunks(data, size)[i]| <= size
  {
    hide Chunks;
    LastChunk(data, size);
    forall i | 0 <= i < |Chunks(data, size)| - 1
      ensures |Chunks(data, size)[i]| <= size
    {
      FullChunk(data, size, i);
    }
  }

  lemma {:induction false} ChunksConcatenate(data: Bytes, size: nat)
    requires size > 0
    ensures Flatten(Chunks(data, size)) == data
    decreases |data|
  {
    var cs := Chunks(data, size);
    if |data| <= size {
      assert Flatten(cs) == cs[0] + Flatten([]);
    } else {
      ChunksConcatenate(data[size..], size);
      assert cs[1..] == Chunks(data[size..], size);
    }
  }

  /** The number of chunks is the announced one whenever the declared size is the true one. */
  lemma {:induction false} ChunkCount(data: Bytes, size: nat)
    requires size > 0
    ensures |Chunks(data, size)| == PredictedChunks(|data|, size)
    ensures |Chunks(data, size)| <= |data| + 1
    decreases |data|
  {
    if |data| > size {
      ChunkCount(data[size..], size);
      QuotientSteps(|data| - 1, size);
    } else if data != [] {
      SmallQuotient(|data| + size - 1, size);
    }
  }

  // Sealing and opening again.

  /** Sealed chunks open to their texts, in order, with the end mark on the last. */
  lemma SealedChunkOpens(c: Crypto, dek: Bytes, uuid: Bytes, prefix: Bytes, index: nat, texts: seq<Bytes>, i: nat)
    requires c.LawfulAead() && |prefix| == 4
    requires i < |texts| && |texts[i]| <= MAX_CHUNK_PAYLOAD_LEN
    ensures var r := SealChunks(c, dek, uuid, prefix, index, texts)[i];
            && RecordOpens(c, dek, uuid, r, index + i, index + |texts|, texts[i])
            && r.nonce == ChunkNonce(prefix, index + i)
    decreases i
  {
    hide RecordOpens, SealChunk, ChunkNonce;
    if i > 0 {
      SealedChunkOpens(c, dek, uuid, prefix, index + 1, texts[1..], i - 1);
    } else {
      OneChunkOpens(c, dek, uuid, prefix, index, |texts|, texts[0]);
    }
  }

  lemma OneChunkOpens(c: Crypto, dek: Bytes, uuid: Bytes, prefix: Bytes, index: nat, left: nat, text: Bytes)
    requires c.LawfulAead() && |prefix| == 4 && left > 0 && |text| <= MAX_CHUNK_PAYLOAD_LEN
    ensures var r := SealChunk(c, dek, uuid, prefix, index, left == 1, text);
            RecordOpens(c, dek, uuid, r, index, index + left, text) && r.nonce == ChunkNonce(prefix, index)
  {
    hide BE, ChunkAad;
    var nonce, aad := ChunkNonce(prefix, index), ChunkAad(uuid, index, left == 1, |text|);
    assert |c.seal(dek, nonce, text, aad)| == |text| + TAG_SIZE;
    assert c.open(dek, nonce, c.seal(dek, nonce, text, aad), aad) == Some(text);
  }

  lemma SealedChunksOpen(c: Crypto, dek: Bytes, uuid: Bytes, prefix: Bytes, data: Bytes, size: nat)
    requires c.LawfulAead() && |prefix| == 4
    requires 0 < size <= MAX_CHUNK_PAYLOAD_LEN && |data| < U64_LIMIT
    ensures RecordsOpen(c, dek, uuid, SealChunks(c, dek, uuid, prefix, 0, Chunks(data, size)), Chunks(data, size))
  {
    hide Chunks, SealChunks, RecordOpens, ChunkAad;
    var texts := Chunks(data, size);
    ChunkCount(data, size);
    ChunkLengths(data, size);
    forall i | 0 <= i < |texts|
      ensures RecordOpens(c, dek, uuid, SealChunks(c, dek, uuid, prefix, 0, texts)[i], i, |texts|, texts[i])
    {
      SealedChunkOpens(c, dek, uuid, prefix, 0, texts, i);
    }
  }

  /** No nonce is used twice under the data key of a run. */
  lemma NoncesDistinct(c: Crypto, dek: Bytes, uuid: Bytes, prefix: Bytes, data: Bytes, size: nat, i: nat, j: nat)
    requires c.LawfulAead() && |prefix| == 4
    requires 0 < size <= MAX_CHUNK_PAYLOAD_LEN && |data| < U64_LIMIT
    requires i < j < |Chunks(data, size)|
    ensures var rs := SealChunks(c, dek, uuid, prefix, 0, Chunks(data, size)); rs[i].nonce != rs[j].nonce
  {
    hide SealChunks, Chunks, ChunkNonce, ChunkAad;
    var texts := Chunks(data, size);
    ChunkCount(data, size);
    ChunkLengths(data, size);
    SealedChunkOpens(c, dek, uuid, prefix, 0, texts, i);
    SealedChunkOpens(c, dek, uuid, prefix, 0, texts, j);
    ChunkNonceInjective(prefix, i, j);
  }

  /** The writer's checks accept exactly the settings that the reader's header check accepts. */
  lemma GuardsAgree(password: Bytes, o: EncryptOptions, e: Entropy)
    requires e.Shaped()
    ensures Guard(password, o).None?
            <==> password != [] && ParseHeader(HeaderBytes(NewHeader(o, e))) == Ok(NewHeader(o, e))
  {
    ParseInvertsFields(NewHeader(o, e), Zeros(4));
  }

  lemma SessionUnlocks(c: Crypto, password: Bytes, o: EncryptOptions, e: Entropy)
    requires c.LawfulAead() && c.LawfulKem() && e.Shaped()
    requires StartSession(c, password, o, e).Ok?
    ensures var s := StartSession(c, password, o, e).value;
            EnvelopeInBounds(o.suite, s.envelope) && Unlocks(c, password, s.header, s.envelope, s.keys)
  {
    var h := NewHeader(o, e);
    var kem := c.encapsulate(o.suite, e.kemSeed);
    var passwordKey := c.argon2(password, h.salt, h.argon2MCost, h.argon2TCost, h.argon2PCost).value;
    var wrapKey := WrapKey(c, passwordKey, h.salt, h.uuid);
    assert |c.seal(wrapKey, e.wrapNonce, kem.decapsulationKey, HeaderBytes(h))| == |kem.decapsulationKey| + TAG_SIZE;
    assert c.open(wrapKey, e.wrapNonce, c.seal(wrapKey, e.wrapNonce, kem.decapsulationKey, HeaderBytes(h)),
                  HeaderBytes(h))
        == Some(kem.decapsulationKey);
  }

  /** The length of a sealed manifest. */
  function SealedManifestLength(c: Crypto, m: Manifest): nat {
    |c.manifestJson.write(m)| + NONCE_SIZE + TAG_SIZE
  }

  /**
   The round trip. Whatever the writer produces, the reader releases exactly the data, provided the sink has room.
   It then returns the manifest if and only if the sealed manifest is within the reader's bound, which the writer
   does not check.
   */
  lemma RoundTrips(c: Crypto, password: Bytes, data: Bytes, o: EncryptOptions, e: Entropy, room: Option<nat>)
    requires c.Lawful() && e.Shaped() && |data| < U64_LIMIT
    requires Encode(c, password, data, o, e).Ok? && Fits(room, |data|)
    ensures var m := NewManifest(c, data, o, e);
            var d := Decode(c, password, Layout(Encode(c, password, data, o, e).value), room);
            && d.text == data
            && (d.result.Ok? <==> SealedManifestLength(c, m) <= MAX_MANIFEST_LEN)
            && (d.result.Ok? ==> d.result == Ok(m))
            && m.originalFilename == o.originalFilename && m.originalSize == |data|
            && m.totalChunks == PredictedChunks(|data|, o.chunkSize)
  {
    hide Decode, Layout, SealChunks, Finish, SealManifest, OpenManifest, HeaderBytes, RecordsOpen, Unlocks;
    var s, m := StartSession(c, password, o, e).value, NewManifest(c, data, o, e);
    var k, texts := Seal(c, s, data, o, e), Chunks(data, o.chunkSize);
    SessionUnlocks(c, password, o, e);
    SealedChunksOpen(c, s.keys.dek, s.header.uuid, e.noncePrefix, data, o.chunkSize);
    ChunksConcatenate(data, o.chunkSize);
    ChunkCount(data, o.chunkSize);
    OpenInvertsSeal(c, m, s.keys.manifestKey, s.header.uuid, e.manifestNonce);
    TrailerDecides(c, password, k, s.keys, texts, room, []);
    assert Layout(k) + [] == Layout(k) && TrailerBytes(k.trailer) + [] == TrailerBytes(k.trailer);
    TrailerSettles(c, k.header, s.keys, |texts|, data, k.trailer, m);
  }

  /** With too little room the reader refuses, having released only the beginning of the data. */
  lemma TooLittleRoom(c: Crypto, password: Bytes, data: Bytes, o: EncryptOptions, e: Entropy, room: Option<nat>)
    requires c.Lawful() && e.Shaped() && |data| < U64_LIMIT
    requires Encode(c, password, data, o, e).Ok? && !Fits(room, |data|)
    ensures var d := Decode(c, password, Layout(Encode(c, password, data, o, e).value), room);
            d.result == Err(WriteRefused) && d.text <= data
  {
    hide Decode, Layout, SealChunks, SealManifest, HeaderBytes, RecordsOpen, Unlocks;
    var s := StartSession(c, password, o, e).value;
    SessionUnlocks(c, password, o, e);
    SealedChunksOpen(c, s.keys.dek, s.header.uuid, e.noncePrefix, data, o.chunkSize);
    ChunksConcatenate(data, o.chunkSize);
    RoomDecides(c, password, Seal(c, s, data, o, e), s.keys, Chunks(data, o.chunkSize), room);
  }

  /** A matching manifest is accepted exactly when its trailer is within the bound. */
  lemma TrailerSettles(c: Crypto, h: WraithHeader, keys: MasterKeys, count: nat, text: Bytes, trailer: Bytes,
                       m: Manifest)
    requires OpenManifest(c, keys.manifestKey, h.uuid, trailer) == Ok(m)
    requires m.totalChunks == count && m.sha256Hash == c.sha256(text) && m.originalSize == |text|
    ensures Finish(c, h, keys, count, text, TrailerBytes(trailer)).Ok? <==> |trailer| <= MAX_MANIFEST_LEN
    ensures |trailer| <= MAX_MANIFEST_LEN ==> Finish(c, h, keys, count, text, TrailerBytes(trailer)) == Ok(m)
  {
    var input := TrailerBytes(trailer);
    if |trailer| <= MAX_MANIFEST_LEN {
      TrailerReads(trailer, []);
      assert input + [] == input;
    }
    if Finish(c, h, keys, count, text, input).Ok? {
      var t := ReadTrailer(input).value.0;
      ReadsTrailer(input, t, []);
      assert |input| == 12 + |t|;
    }
  }

  /**
   The bound bites, whatever the primitives: with a serialiser that does not shorten names, the writer produces a
   container for every name of 64 KiB or more without complaint, and the same password cannot open it.
   */
  lemma LongNamesAreRefused(c: Crypto, password: Bytes, data: Bytes, o: EncryptOptions, e: Entropy, room: Option<nat>)
    requires c.Lawful() && e.Shaped() && |data| < U64_LIMIT
    requires Encode(c, password, data, o, e).Ok? && Fits(room, |data|)
    requires |c.manifestJson.write(NewManifest(c, data, o, e))| >= |o.originalFilename| >= MAX_MANIFEST_LEN
    ensures Decode(c, password, Layout(Encode(c, password, data, o, e).value), room).result.Err?
  {
    hide Decode, Layout, Seal;
    RoundTrips(c, password, data, o, e, room);
  }

  /** Such a container exists. */
  lemma LongNameIsRefused()
    ensures exists c: Crypto, password: Bytes, data: Bytes, o: EncryptOptions, e: Entropy ::
              && c.Lawful() && e.Shaped()
              && Encode(c, password, data, o, e).Ok?
              && Decode(c, password, Layout(Encode(c, password, data, o, e).value), None).result.Err?
  {
    hide Decode, Layout, WriteNats, Seal, Chunks, HeaderBytes;
    var c, password, data := Toy(), [1], [];
    var o := EncryptOptions(MlKem768, MIN_CHUNK_SIZE, seq(MAX_MANIFEST_LEN, i => 'n'), 8, 1, 1);
    var e := Entropy(Zeros(32), Zeros(16), [], Zeros(12), Zeros(4), Zeros(12), 0);
    ToyIsLawful();
    ToyWriteIsLong(NewManifest(c, data, o, e));
    LongNamesAreRefused(c, password, data, o, e, None);
  }

  lemma ToyWriteIsLong(m: Manifest)
    ensures |ToyWrite(m)| >= |m.originalFilename|
  {
    NatsAreLong(ToyFields(m));
  }

  lemma NatsAreLong(ns: seq<nat>)
    ensures |WriteNats(ns)| >= |ns|
  {
    if ns != [] {
      UnaryReads(ns[0], []);
      assert Unary(ns[0]) + [] == Unary(ns[0]);
    }
  }
}
