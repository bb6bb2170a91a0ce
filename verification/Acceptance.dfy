/**
 The reader of Decryptor against the grammar of Container: it accepts exactly the byte strings that are laid out
 from a container the password opens, and it releases exactly that container's text.
 */
module Acceptance {
  import opened BigEndian
  import opened Outcomes
  import opened Primitives
  import opened Streams
  import opened Wraith
  import opened Header
  import opened ManifestTrailer
  import opened Container
  import opened Decryptor

  // Each part of the format reads back, and nothing else reads.

  lemma EnvelopeReads(s: Suite, e: Envelope, rest: Bytes)
    requires EnvelopeInBounds(s, e)
    ensures ReadEnvelope(s, EnvelopeBytes(e) + rest) == Ok((e, rest))
  {
    hide BE, FromBE, ReadWrapped;
    var n, w := |e.kemCiphertext|, Wrapped(e.wrapNonce, e.wrappedKey);
    var input := EnvelopeBytes(e) + rest;
    assert input == BE(n, 4) + e.kemCiphertext + (WrappedBytes(w) + rest);
    assert input[..4] == BE(n, 4) && input[4..4 + n] == e.kemCiphertext && input[4 + n..] == WrappedBytes(w) + rest;
    U32RoundTrip(n);
    WrappedReads(w, rest);
  }

  function WrappedBytes(w: Wrapped): Bytes {
    BE(NONCE_SIZE + |w.key|, 4) + w.nonce + w.key
  }

  lemma WrappedReads(w: Wrapped, rest: Bytes)
    requires |w.nonce| == NONCE_SIZE && TAG_SIZE <= |w.key| <= MAX_WRAPPED_KEY_LEN
    ensures ReadWrapped(WrappedBytes(w) + rest) == Ok((w, rest))
  {
    hide BE, FromBE;
    var input, n := WrappedBytes(w) + rest, NONCE_SIZE + |w.key|;
    assert input[..4] == BE(n, 4) && input[4..16] == w.nonce && input[16..4 + n] == w.key && input[4 + n..] == rest;
    U32RoundTrip(n);
  }

  lemma ReadsEnvelope(s: Suite, input: Bytes, e: Envelope, rest: Bytes)
    requires ReadEnvelope(s, input) == Ok((e, rest))
    ensures EnvelopeInBounds(s, e)
    ensures input == EnvelopeBytes(e) + rest
  {
    hide BE, FromBE, ReadWrapped;
    var n, w := s.CiphertextSize(), Wrapped(e.wrapNonce, e.wrappedKey);
    U32Bound(input[..4]);
    ReadsWrapped(input[4 + n..], w, rest);
    assert input == BE(n, 4) + e.kemCiphertext + (WrappedBytes(w) + rest);
  }

  lemma ReadsWrapped(input: Bytes, w: Wrapped, rest: Bytes)
    requires ReadWrapped(input) == Ok((w, rest))
    ensures |w.nonce| == NONCE_SIZE && TAG_SIZE <= |w.key| <= MAX_WRAPPED_KEY_LEN
    ensures input == WrappedBytes(w) + rest
  {
    hide BE, FromBE;
    U32Bound(input[..4]);
    assert input == input[..4] + w.nonce + w.key + rest;
  }

  predicate RecordInBounds(r: Record) {
    && r.index < U64_LIMIT
    && |r.nonce| == NONCE_SIZE
    && TAG_SIZE <= |r.payload| <= MAX_CHUNK_PAYLOAD_LEN + TAG_SIZE
  }

  lemma RecordReads(r: Record, rest: Bytes)
    requires RecordInBounds(r)
    ensures ReadRecord(RecordBytes(r) + rest, r.index) == Ok((r, rest))
  {
    var input, n := RecordBytes(r) + rest, r.TextLength();
    assert input[..8] == BE(r.index, 8) && input[8] == Flag(r.isFinal) && input[9..13] == BE(n, 4);
    U64RoundTrip(r.index);
    U32RoundTrip(n);
    assert input[13..25] == r.nonce && input[25..25 + n + TAG_SIZE] == r.payload && input[25 + n + TAG_SIZE..] == rest;
  }

  lemma ReadsRecord(input: Bytes, index: nat, r: Record, rest: Bytes)
    requires ReadRecord(input, index) == Ok((r, rest))
    ensures RecordInBounds(r) && r.index == index
    ensures input == RecordBytes(r) + rest
  {
    hide BE, FromBE;
    U64Bound(input[..8]);
    U32Bound(input[9..13]);
    var n := FromBE(input[9..13]);
    assert input[..13] == input[..8] + [input[8]] + input[9..13];
    assert input == input[..13] + r.nonce + r.payload + rest;
  }

  lemma TrailerReads(t: Bytes, rest: Bytes)
    requires |t| < 0x1_0000_0000
    ensures ReadTrailer(TrailerBytes(t) + rest)
         == if |t| <= MAX_MANIFEST_LEN then Ok((t, rest)) else Err(InvalidContainer)
  {
    var input := TrailerBytes(t) + rest;
    assert input[..8] == TRAILER_MAGIC && input[8..12] == BE(|t|, 4) && input[12..12 + |t|] == t
      && input[12 + |t|..] == rest;
    U32RoundTrip(|t|);
  }

  lemma ReadsTrailer(input: Bytes, t: Bytes, rest: Bytes)
    requires ReadTrailer(input) == Ok((t, rest))
    ensures |t| <= MAX_MANIFEST_LEN
    ensures input == TrailerBytes(t) + rest
  {
    hide BE, FromBE;
    U32Bound(input[8..12]);
    var n := FromBE(input[8..12]);
    assert input == input[..8] + input[8..12] + input[12..12 + n] + input[12 + n..];
  }

  lemma OpenEnvelopeUnlocks(c: Crypto, password: Bytes, h: WraithHeader, e: Envelope, keys: MasterKeys)
    requires h.Shaped()
    ensures OpenEnvelope(c, password, h, e) == Ok(keys) <==> Unlocks(c, password, h, e, keys)
  {
    hide HeaderBytes;
  }

  /** Records numbered from `first` on, the last of which ends the stream, open to the texts. */
  predicate Run(c: Crypto, dek: Bytes, uuid: Bytes, rs: seq<Record>, texts: seq<Bytes>, first: nat) {
    && 0 < |rs| == |texts|
    && first + |rs| <= U64_LIMIT
    && forall i :: 0 <= i < |rs| ==> RecordOpens(c, dek, uuid, rs[i], first + i, first + |rs|, texts[i])
  }

  lemma RunTail(c: Crypto, dek: Bytes, uuid: Bytes, rs: seq<Record>, texts: seq<Bytes>, first: nat)
    requires Run(c, dek, uuid, rs, texts, first) && |rs| > 1
    ensures Run(c, dek, uuid, rs[1..], texts[1..], first + 1)
  {
    forall i | 0 <= i < |rs| - 1
      ensures RecordOpens(c, dek, uuid, rs[1..][i], first + 1 + i, first + |rs|, texts[1..][i])
    {
      assert RecordOpens(c, dek, uuid, rs[i + 1], first + (i + 1), first + |rs|, texts[i + 1]);
    }
  }

  lemma RunOfOne(c: Crypto, dek: Bytes, uuid: Bytes, r: Record, text: Bytes, first: nat)
    requires RecordInBounds(r) && r.index == first && r.isFinal && OpenRecord(c, dek, uuid, r) == Some(text)
    ensures Run(c, dek, uuid, [r], [text], first)
  {
  }

  lemma RunCons(c: Crypto, dek: Bytes, uuid: Bytes, r: Record, text: Bytes, rs: seq<Record>, texts: seq<Bytes>,
                first: nat)
    requires RecordInBounds(r) && r.index == first && !r.isFinal && OpenRecord(c, dek, uuid, r) == Some(text)
    requires Run(c, dek, uuid, rs, texts, first + 1)
    ensures Run(c, dek, uuid, [r] + rs, [text] + texts, first)
  {
    var all, alltexts, n := [r] + rs, [text] + texts, first + 1 + |rs|;
    forall i | 0 <= i < |all|
      ensures RecordOpens(c, dek, uuid, all[i], first + i, n, alltexts[i])
    {
      if i > 0 {
        assert RecordOpens(c, dek, uuid, rs[i - 1], first + 1 + (i - 1), n, texts[i - 1]);
      }
    }
  }

  lemma {:induction false} RunReads(c: Crypto, dek: Bytes, uuid: Bytes, rs: seq<Record>, texts: seq<Bytes>, first: nat,
                                    text: Bytes, rest: Bytes, room: Option<nat>)
    requires Run(c, dek, uuid, rs, texts, first)
    requires Fits(room, |text| + |Flatten(texts)|)
    ensures ReadChunks(c, dek, uuid, RecordsBytes(rs) + rest, first, text, room)
         == AllRead(first + |rs|, text + Flatten(texts), rest)
    decreases |rs|
  {
    hide ReadRecord, BE, RecordBytes;
    var r := rs[0];
    assert RecordOpens(c, dek, uuid, r, first + 0, first + |rs|, texts[0]);
    var later := RecordsBytes(rs[1..]) + rest;
    assert RecordsBytes(rs) + rest == RecordBytes(r) + later;
    RecordReads(r, later);
    assert Flatten(texts) == texts[0] + Flatten(texts[1..]);
    if |rs| == 1 {
      assert Flatten(texts) == texts[0] && later == rest;
    } else {
      RunTail(c, dek, uuid, rs, texts, first);
      RunReads(c, dek, uuid, rs[1..], texts[1..], first + 1, text + texts[0], rest, room);
      assert text + texts[0] + Flatten(texts[1..]) == text + Flatten(texts);
    }
  }

  /** When the sink is too small the run stops there, and what was released before is the beginning of the text. */
  lemma {:induction false} RunOverflows(c: Crypto, dek: Bytes, uuid: Bytes, rs: seq<Record>, texts: seq<Bytes>,
                                        first: nat, text: Bytes, rest: Bytes, room: Option<nat>)
    requires Run(c, dek, uuid, rs, texts, first)
    requires !Fits(room, |text| + |Flatten(texts)|)
    ensures var read := ReadChunks(c, dek, uuid, RecordsBytes(rs) + rest, first, text, room);
            read.Stopped? && read.error == WriteRefused && text <= read.text <= text + Flatten(texts)
    decreases |rs|
  {
    hide ReadRecord, BE, RecordBytes;
    var r := rs[0];
    assert RecordOpens(c, dek, uuid, r, first + 0, first + |rs|, texts[0]);
    var later := RecordsBytes(rs[1..]) + rest;
    assert RecordsBytes(rs) + rest == RecordBytes(r) + later;
    RecordReads(r, later);
    assert text + Flatten(texts) == text + texts[0] + Flatten(texts[1..]);
    if |rs| == 1 {
      assert Flatten(texts) == texts[0];
    } else if Fits(room, |text| + |texts[0]|) {
      RunTail(c, dek, uuid, rs, texts, first);
      RunOverflows(c, dek, uuid, rs[1..], texts[1..], first + 1, text + texts[0], rest, room);
    }
  }

  lemma {:induction false} ReadsRun(c: Crypto, dek: Bytes, uuid: Bytes, input: Bytes, first: nat, text: Bytes,
                                    room: Option<nat>)
    returns (rs: seq<Record>, texts: seq<Bytes>)
    requires ReadChunks(c, dek, uuid, input, first, text, room).AllRead?
    ensures Run(c, dek, uuid, rs, texts, first)
    ensures var read := ReadChunks(c, dek, uuid, input, first, text, room);
            && read.count == first + |rs|
            && read.text == text + Flatten(texts)
            && Fits(room, |read.text|)
            && input == RecordsBytes(rs) + read.rest
    decreases |input|
  {
    hide ReadRecord, Run, RecordBytes, OpenRecord;
    var read := ReadChunks(c, dek, uuid, input, first, text, room);
    var (r, later) := ReadRecord(input, first).value;
    ReadsRecord(input, first, r, later);
    var piece := OpenRecord(c, dek, uuid, r).value;
    if r.isFinal {
      rs, texts := [r], [piece];
      RunOfOne(c, dek, uuid, r, piece, first);
      assert RecordsBytes(rs) == RecordBytes(r) + RecordsBytes([]);
      assert Flatten(texts) == piece;
    } else {
      var rs', texts' := ReadsRun(c, dek, uuid, later, first + 1, text + piece, room);
      RunCons(c, dek, uuid, r, piece, rs', texts', first);
      rs, texts := [r] + rs', [piece] + texts';
      assert RecordsBytes(rs) == RecordBytes(r) + RecordsBytes(rs');
      assert Flatten(texts) == piece + Flatten(texts');
    }
  }

  /** What is left to decide once the header, the envelope and the chunks of a container are read. */
  lemma TrailerDecides(c: Crypto, password: Bytes, k: Container, keys: MasterKeys, texts: seq<Bytes>,
                       room: Option<nat>, extra: Bytes)
    requires password != [] && k.header.Valid() && |k.reserved| == 4
    requires EnvelopeInBounds(k.header.suite, k.envelope)
    requires Unlocks(c, password, k.header, k.envelope, keys)
    requires RecordsOpen(c, keys.dek, k.header.uuid, k.records, texts)
    requires Fits(room, |Flatten(texts)|)
    ensures Decode(c, password, Layout(k) + extra, room)
         == Decoded(Finish(c, k.header, keys, |k.records|, Flatten(texts), TrailerBytes(k.trailer) + extra),
                    Flatten(texts))
  {
    hide Fields, EnvelopeBytes, ReadChunks, Finish, ReadEnvelope, TrailerBytes, OpenEnvelope, ParseHeader, RecordsBytes;
    var body := ChunksFollow(c, password, k, keys, extra);
    assert Run(c, keys.dek, k.header.uuid, k.records, texts, 0);
    RunReads(c, keys.dek, k.header.uuid, k.records, texts, 0, [], TrailerBytes(k.trailer) + extra, room);
    assert [] + Flatten(texts) == Flatten(texts);
  }

  /** The same when the sink has too little room. */
  lemma RoomDecides(c: Crypto, password: Bytes, k: Container, keys: MasterKeys, texts: seq<Bytes>, room: Option<nat>)
    requires password != [] && k.header.Valid() && |k.reserved| == 4
    requires EnvelopeInBounds(k.header.suite, k.envelope)
    requires Unlocks(c, password, k.header, k.envelope, keys)
    requires RecordsOpen(c, keys.dek, k.header.uuid, k.records, texts)
    requires !Fits(room, |Flatten(texts)|)
    ensures var d := Decode(c, password, Layout(k), room);
            d.result == Err(WriteRefused) && d.text <= Flatten(texts)
  {
    hide Fields, EnvelopeBytes, ReadChunks, Finish, ReadEnvelope, TrailerBytes, OpenEnvelope, ParseHeader,
         RecordsBytes, Layout;
    var body := ChunksFollow(c, password, k, keys, []);
    assert Layout(k) + [] == Layout(k);
    assert Run(c, keys.dek, k.header.uuid, k.records, texts, 0);
    RunOverflows(c, keys.dek, k.header.uuid, k.records, texts, 0, [], TrailerBytes(k.trailer) + [], room);
    assert [] + Flatten(texts) == Flatten(texts);
  }

  /** The part of a run before the chunks: it derives the keys and leaves the records and the trailer to read. */
  lemma ChunksFollow(c: Crypto, password: Bytes, k: Container, keys: MasterKeys, extra: Bytes) returns (body: Bytes)
    requires password != [] && k.header.Valid() && |k.reserved| == 4
    requires EnvelopeInBounds(k.header.suite, k.envelope)
    requires Unlocks(c, password, k.header, k.envelope, keys)
    ensures ReadHeader(Layout(k) + extra) == Ok(k.header)
    ensures (Layout(k) + extra)[HEADER_SIZE..] == body
    ensures ReadEnvelope(k.header.suite, body)
            == Ok((k.envelope, RecordsBytes(k.records) + (TrailerBytes(k.trailer) + extra)))
    ensures OpenEnvelope(c, password, k.header, k.envelope) == Ok(keys)
  {
    hide Fields, EnvelopeBytes, ReadEnvelope, TrailerBytes, OpenEnvelope, ParseHeader, RecordsBytes;
    var front := Fields(k.header) + k.reserved;
    body := Body(k) + extra;
    assert Layout(k) + extra == front + body;
    ParseInvertsFields(k.header, k.reserved);
    var later := RecordsBytes(k.records) + (TrailerBytes(k.trailer) + extra);
    assert body == EnvelopeBytes(k.envelope) + later;
    EnvelopeReads(k.header.suite, k.envelope, later);
    OpenEnvelopeUnlocks(c, password, k.header, k.envelope, keys);
  }

  /** Completeness: a laid-out container that the password opens is accepted, and its text is released. */
  lemma OpenedIsAccepted(c: Crypto, password: Bytes, k: Container, keys: MasterKeys, texts: seq<Bytes>, m: Manifest,
                         room: Option<nat>)
    requires Opens(c, password, k, keys, texts, m)
    requires Fits(room, |Flatten(texts)|)
    ensures Decode(c, password, Layout(k), room) == Decoded(Ok(m), Flatten(texts))
  {
    hide Decode, Layout, TrailerBytes, ReadTrailer, RecordsOpen, Unlocks, OpenManifest;
    TrailerDecides(c, password, k, keys, texts, room, []);
    TrailerReads(k.trailer, []);
    assert Layout(k) + [] == Layout(k);
  }

  lemma AcceptedBody(c: Crypto, password: Bytes, h: WraithHeader, body: Bytes, room: Option<nat>)
    returns (envelope: Envelope, keys: MasterKeys, rs: seq<Record>, texts: seq<Bytes>, trailer: Bytes)
    requires h.Shaped() && DecodeBody(c, password, h, body, room).result.Ok?
    ensures body == EnvelopeBytes(envelope) + RecordsBytes(rs) + TrailerBytes(trailer)
    ensures EnvelopeInBounds(h.suite, envelope) && Unlocks(c, password, h, envelope, keys)
    ensures RecordsOpen(c, keys.dek, h.uuid, rs, texts)
    ensures var d := DecodeBody(c, password, h, body, room);
            && d.text == Flatten(texts) && Fits(room, |d.text|)
            && OpenManifest(c, keys.manifestKey, h.uuid, trailer) == d.result
            && d.result.value.totalChunks == |rs| && d.result.value.originalSize == |d.text|
            && d.result.value.sha256Hash == c.sha256(d.text)
    ensures |trailer| <= MAX_MANIFEST_LEN
  {
    hide EnvelopeBytes, ReadChunks, TrailerBytes, ReadEnvelope, ReadTrailer, OpenEnvelope, RecordsBytes, OpenManifest;
    envelope := ReadEnvelope(h.suite, body).value.0;
    var rest := ReadEnvelope(h.suite, body).value.1;
    ReadsEnvelope(h.suite, body, envelope, rest);
    keys := OpenEnvelope(c, password, h, envelope).value;
    OpenEnvelopeUnlocks(c, password, h, envelope, keys);
    rs, texts := ReadsRun(c, keys.dek, h.uuid, rest, 0, [], room);
    var read := ReadChunks(c, keys.dek, h.uuid, rest, 0, [], room);
    trailer := ReadTrailer(read.rest).value.0;
    ReadsTrailer(read.rest, trailer, ReadTrailer(read.rest).value.1);
    assert RecordsOpen(c, keys.dek, h.uuid, rs, texts);
  }

  /** Soundness: whatever is accepted is laid out from a container that the password opens, with nothing left over. */
  lemma AcceptedIsOpened(c: Crypto, password: Bytes, input: Bytes, room: Option<nat>)
    returns (k: Container, keys: MasterKeys, texts: seq<Bytes>)
    requires Decode(c, password, input, room).result.Ok?
    ensures k.header.Shaped() && Layout(k) == input
    ensures Opens(c, password, k, keys, texts, Decode(c, password, input, room).result.value)
    ensures Decode(c, password, input, room).text == Flatten(texts)
    ensures Fits(room, |Flatten(texts)|)
  {
    hide Fields, EnvelopeBytes, TrailerBytes, DecodeBody, ParseHeader, RecordsBytes, RecordsOpen, EnvelopeInBounds,
         Unlocks, OpenManifest;
    var h := ReadHeader(input).value;
    var front, body := input[..HEADER_SIZE], input[HEADER_SIZE..];
    FieldsInvertParse(front);
    var envelope, rs, trailer;
    envelope, keys, rs, texts, trailer := AcceptedBody(c, password, h, body, room);
    k := Container(h, front[MEANINGFUL_SIZE..], envelope, rs, trailer);
    assert Fields(h) + front[MEANINGFUL_SIZE..] == front;
    assert front + body == input;
  }

  /** Some container that the password opens is laid out as `input`, with this text and manifest. */
  ghost predicate Readable(c: Crypto, password: Bytes, input: Bytes, text: Bytes, m: Manifest) {
    exists k: Container, keys: MasterKeys, texts: seq<Bytes> ::
      Opens(c, password, k, keys, texts, m) && Layout(k) == input && Flatten(texts) == text
  }

  /** Acceptance is exact, for every input, password and ceiling. */
  lemma AcceptsExactly(c: Crypto, password: Bytes, input: Bytes, room: Option<nat>, text: Bytes, m: Manifest)
    ensures Decode(c, password, input, room) == Decoded(Ok(m), text)
            <==> Readable(c, password, input, text, m) && Fits(room, |text|)
  {
    hide Layout, Decode, RecordsOpen, Unlocks, OpenManifest;
    if Decode(c, password, input, room) == Decoded(Ok(m), text) {
      var k, keys, texts := AcceptedIsOpened(c, password, input, room);
    }
    if Readable(c, password, input, text, m) && Fits(room, |text|) {
      var k: Container, keys: MasterKeys, texts: seq<Bytes> :|
        Opens(c, password, k, keys, texts, m) && Layout(k) == input && Flatten(texts) == text;
      OpenedIsAccepted(c, password, k, keys, texts, m, room);
    }
  }

  /** A byte string reads in at most one way. */
  lemma ReadingIsUnique(c: Crypto, password: Bytes, input: Bytes, text: Bytes, m: Manifest, text': Bytes, m': Manifest)
    requires Readable(c, password, input, text, m) && Readable(c, password, input, text', m')
    ensures text == text' && m == m'
  {
    hide Readable, Decode;
    AcceptsExactly(c, password, input, None, text, m);
    AcceptsExactly(c, password, input, None, text', m');
  }

  /** Nothing may follow an accepted container: with any further bytes it is refused, though its text was released. */
  lemma TrailingBytesRefused(c: Crypto, password: Bytes, input: Bytes, extra: Bytes, room: Option<nat>)
    requires Decode(c, password, input, room).result.Ok? && extra != []
    ensures Decode(c, password, input + extra, room)
            == Decoded(Err(InvalidContainer), Decode(c, password, input, room).text)
  {
    hide Decode, Layout, TrailerBytes, ReadTrailer, RecordsOpen, Unlocks, OpenManifest;
    var k, keys, texts := AcceptedIsOpened(c, password, input, room);
    TrailerDecides(c, password, k, keys, texts, room, extra);
    TrailerReads(k.trailer, extra);
  }

  /** Hence the accepted byte strings of a password are prefix-free, and a truncated container is refused. */
  lemma PrefixFree(c: Crypto, password: Bytes, input: Bytes, input': Bytes, room: Option<nat>, room': Option<nat>)
    requires Decode(c, password, input, room).result.Ok? && Decode(c, password, input', room').result.Ok?
    requires input <= input'
    ensures input == input'
  {
    hide Decode;
    if input != input' {
      var extra := input'[|input|..];
      assert input + extra == input';
      UnboundedAccepts(c, password, input, room);
      UnboundedAccepts(c, password, input', room');
      TrailingBytesRefused(c, password, input, extra, None);
    }
  }

  lemma UnboundedAccepts(c: Crypto, password: Bytes, input: Bytes, room: Option<nat>)
    requires Decode(c, password, input, room).result.Ok?
    ensures Decode(c, password, input, None) == Decode(c, password, input, room)
  {
    hide Decode, Readable;
    var d := Decode(c, password, input, room);
    AcceptsExactly(c, password, input, room, d.text, d.result.value);
    AcceptsExactly(c, password, input, None, d.text, d.result.value);
  }

  /**
   Bytes 76 to 79 of a container have no effect at all: the reader does not look at them and they are not sealed,
   although the documentation says that altering any header byte is detected.
   */
  lemma ReservedBytesIgnored(c: Crypto, password: Bytes, input: Bytes, input': Bytes, room: Option<nat>)
    requires |input| >= HEADER_SIZE && |input'| >= HEADER_SIZE
    requires input[..MEANINGFUL_SIZE] == input'[..MEANINGFUL_SIZE] && input[HEADER_SIZE..] == input'[HEADER_SIZE..]
    ensures Decode(c, password, input, room) == Decode(c, password, input', room)
  {
    hide DecodeBody, ParseHeader;
    var b, b' := input[..HEADER_SIZE], input'[..HEADER_SIZE];
    assert b[..MEANINGFUL_SIZE] == input[..MEANINGFUL_SIZE] && b'[..MEANINGFUL_SIZE] == input'[..MEANINGFUL_SIZE];
    ParseLooksNoFurther(b, b');
  }
}
