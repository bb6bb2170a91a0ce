/** The 80-byte container header: src/wraith/header.rs. */
module Header {
  import opened BigEndian
  import opened Outcomes
  import opened Primitives
  import opened Streams
  import opened Wraith

  const HEADER_SIZE: nat := 80
  /** The bytes the parser looks at; the rest of the header is reserved. */
  const MEANINGFUL_SIZE: nat := 76

  const MIN_ARGON2_M_COST: nat := 8
  const MAX_ARGON2_M_COST: nat := 256 * 1024
  const MIN_ARGON2_T_COST: nat := 1
  const MAX_ARGON2_T_COST: nat := 10
  const MIN_ARGON2_P_COST: nat := 1
  const MAX_ARGON2_P_COST: nat := 8
  const MAX_ARGON2_WORK_FACTOR: nat := 256 * 1024 * 10

  datatype WraithHeader = WraithHeader(
    version: Byte,
    suite: Suite,
    salt: Bytes,
    uuid: Bytes,
    chunkSize: U32,
    argon2MCost: U32,
    argon2TCost: U32,
    argon2PCost: U32,
    flags: U32
  ) {
    /** The array lengths that the source's types fix. */
    predicate Shaped() {
      |salt| == SALT_SIZE && |uuid| == UUID_SIZE
    }

    predicate Valid() {
      && Shaped()
      && version == CURRENT_VERSION
      && MIN_CHUNK_SIZE <= chunkSize <= MAX_CHUNK_SIZE
      && Argon2InRange(argon2MCost, argon2TCost, argon2PCost)
    }
  }

  predicate Argon2InRange(m: nat, t: nat, p: nat) {
    && MIN_ARGON2_M_COST <= m <= MAX_ARGON2_M_COST
    && MIN_ARGON2_T_COST <= t <= MAX_ARGON2_T_COST
    && MIN_ARGON2_P_COST <= p <= MAX_ARGON2_P_COST
    && m * t <= MAX_ARGON2_WORK_FACTOR
  }

  /** The meaningful bytes of a header, in file order. */
  function Fields(h: WraithHeader): (b: Bytes)
    requires h.Shaped()
    ensures |b| == MEANINGFUL_SIZE
  {
    MAGIC + [h.version, h.suite.Id()] + h.salt + h.uuid + BE(h.chunkSize, 4)
    + BE(h.argon2MCost, 4) + BE(h.argon2TCost, 4) + BE(h.argon2PCost, 4) + BE(h.flags, 4)
  }

  function HeaderBytes(h: WraithHeader): (b: Bytes)
    requires h.Shaped()
    ensures |b| == HEADER_SIZE
  {
    Fields(h) + Zeros(4)
  }

  method CopyInto(buf: array<Byte>, at: nat, data: Bytes)
    requires at + |data| <= buf.Length
    modifies buf
    ensures buf[..] == old(buf[..at]) + data + old(buf[at + |data|..])
  {
    forall i | at <= i < at + |data| {
      buf[i] := data[i - at];
    }
  }

  /** Serialises a header by filling slices of a zeroed buffer. */
  method ToBytes(h: WraithHeader) returns (buf: array<Byte>)
    requires h.Shaped()
    ensures fresh(buf)
    ensures buf[..] == HeaderBytes(h)
  {
    buf := new Byte[HEADER_SIZE](_ => 0);
    assert buf[..] == Zeros(80);
    CopyInto(buf, 0, MAGIC);
    assert buf[..] == MAGIC + Zeros(74);
    buf[6] := h.version;
    buf[7] := h.suite.Id();
    ghost var lead := MAGIC + [h.version, h.suite.Id()];
    assert buf[..] == lead + Zeros(72);
    CopyInto(buf, 8, h.salt);
    lead := lead + h.salt;
    assert buf[..] == lead + Zeros(40);
    CopyInto(buf, 40, h.uuid);
    lead := lead + h.uuid;
    assert buf[..] == lead + Zeros(24);
    lead := PutU32(buf, 56, h.chunkSize, lead);
    lead := PutU32(buf, 60, h.argon2MCost, lead);
    lead := PutU32(buf, 64, h.argon2TCost, lead);
    lead := PutU32(buf, 68, h.argon2PCost, lead);
    lead := PutU32(buf, 72, h.flags, lead);
  }

  method PutU32(buf: array<Byte>, at: nat, n: U32, ghost lead: Bytes) returns (ghost lead': Bytes)
    requires at + 4 <= buf.Length
    requires |lead| == at && buf[..] == lead + Zeros(buf.Length - at)
    modifies buf
    ensures lead' == lead + BE(n, 4) && buf[..] == lead' + Zeros(buf.Length - at - 4)
  {
    CopyInto(buf, at, BE(n, 4));
    lead' := lead + BE(n, 4);
    assert buf[..] == lead' + Zeros(buf.Length - at - 4);
  }

  function U32At(b: Bytes, at: nat): (n: U32)
    requires at + 4 <= |b|
  {
    U32Bound(b[at..at + 4]);
    FromBE(b[at..at + 4])
  }

  function ParseHeader(b: Bytes): (r: Result<WraithHeader, WraithError>)
    requires |b| == HEADER_SIZE
  {
    if b[0..6] != MAGIC then Err(InvalidMagic)
    else if b[6] != CURRENT_VERSION then Err(UnsupportedVersion(b[6]))
    else match Suite.FromId(b[7])
      case None => Err(CryptoFailed(UnsupportedSuite(b[7])))
      case Some(suite) =>
        var chunkSize, m, t, p := U32At(b, 56), U32At(b, 60), U32At(b, 64), U32At(b, 68);
        if !(MIN_CHUNK_SIZE <= chunkSize <= MAX_CHUNK_SIZE) then Err(InvalidChunkSize(chunkSize))
        else if !(MIN_ARGON2_M_COST <= m <= MAX_ARGON2_M_COST)
             || !(MIN_ARGON2_T_COST <= t <= MAX_ARGON2_T_COST)
             || !(MIN_ARGON2_P_COST <= p <= MAX_ARGON2_P_COST)
             || m * t > MAX_ARGON2_WORK_FACTOR then Err(InvalidContainer)
        else Ok(WraithHeader(b[6], suite, b[8..40], b[40..56], chunkSize, m, t, p, U32At(b, 72)))
  }

  /** What reading a header from the front of some input yields. */
  function ReadHeader(input: Bytes): Result<WraithHeader, WraithError> {
    if |input| < HEADER_SIZE then Err(UnexpectedEof) else ParseHeader(input[..HEADER_SIZE])
  }

  method ReadFrom(reader: Reader) returns (r: Result<WraithHeader, WraithError>)
    modifies reader
    ensures r == ReadHeader(old(reader.rest))
    ensures r.Ok? ==> reader.rest == old(reader.rest)[HEADER_SIZE..]
  {
    var buf := reader.ReadExact(HEADER_SIZE);
    match buf
    case None => r := Err(UnexpectedEof);
    case Some(b) => r := ParseHeader(b);
  }

  /** Where the fields are. */
  lemma FieldsAt(h: WraithHeader, reserved: Bytes)
    requires h.Shaped()
    ensures var b := Fields(h) + reserved;
            && b[0..6] == MAGIC && b[6] == h.version && b[7] == h.suite.Id()
            && b[8..40] == h.salt && b[40..56] == h.uuid
            && b[56..60] == BE(h.chunkSize, 4) && b[60..64] == BE(h.argon2MCost, 4) && b[64..68] == BE(h.argon2TCost, 4)
            && b[68..72] == BE(h.argon2PCost, 4) && b[72..76] == BE(h.flags, 4)
  {
    hide BE, FromBE;
    var front := MAGIC + [h.version, h.suite.Id()] + h.salt + h.uuid + BE(h.chunkSize, 4);
    var back := BE(h.argon2MCost, 4) + BE(h.argon2TCost, 4) + BE(h.argon2PCost, 4) + BE(h.flags, 4) + reserved;
    var b := Fields(h) + reserved;
    assert b == front + back;
    assert b[..60] == front && b[60..] == back;
    assert front[0..6] == MAGIC && front[8..40] == h.salt && front[40..56] == h.uuid;
    assert front[56..60] == BE(h.chunkSize, 4);
    assert back[0..4] == BE(h.argon2MCost, 4) && back[4..8] == BE(h.argon2TCost, 4);
    assert back[8..12] == BE(h.argon2PCost, 4) && back[12..16] == BE(h.flags, 4);
    SliceAfter(b, 60, 0, 4);
    SliceAfter(b, 60, 4, 8);
    SliceAfter(b, 60, 8, 12);
    SliceAfter(b, 60, 12, 16);
  }

  /** Parsing undoes serialising, whatever the four reserved bytes hold. */
  lemma ParseInvertsFields(h: WraithHeader, reserved: Bytes)
    requires h.Shaped() && |reserved| == 4
    ensures ParseHeader(Fields(h) + reserved).Ok? <==> h.Valid()
    ensures h.Valid() ==> ParseHeader(Fields(h) + reserved) == Ok(h)
  {
    hide Fields, BE, FromBE;
    FieldsAt(h, reserved);
    U32RoundTrip(h.chunkSize);
    U32RoundTrip(h.argon2MCost);
    U32RoundTrip(h.argon2TCost);
    U32RoundTrip(h.argon2PCost);
    U32RoundTrip(h.flags);
  }

  /** Serialising undoes parsing on the meaningful bytes; the reserved ones come back as zeros. */
  lemma FieldsInvertParse(b: Bytes)
    requires |b| == HEADER_SIZE && ParseHeader(b).Ok?
    ensures ParseHeader(b).value.Valid()
    ensures Fields(ParseHeader(b).value) == b[..MEANINGFUL_SIZE]
    ensures HeaderBytes(ParseHeader(b).value) == b[..MEANINGFUL_SIZE] + [0, 0, 0, 0]
  {
    hide BE, FromBE;
    U32Bound(b[56..60]);
    U32Bound(b[60..64]);
    U32Bound(b[64..68]);
    U32Bound(b[68..72]);
    U32Bound(b[72..76]);
    assert b[0..6] + [b[6], b[7]] + b[8..40] + b[40..56] == b[..56];
    assert b[..56] + b[56..60] + b[60..64] + b[64..68] + b[68..72] + b[72..76] == b[..76];
    assert Zeros(4) == [0, 0, 0, 0];
  }

  lemma SameSlice(b: Bytes, b': Bytes, n: nat, from: nat, to: nat)
    requires from <= to <= n <= |b| && n <= |b'| && b[..n] == b'[..n]
    ensures b[from..to] == b'[from..to]
  {
    assert b[from..to] == b[..n][from..to] && b'[from..to] == b'[..n][from..to];
  }

  /** The parser looks at the first 76 bytes only. */
  lemma ParseLooksNoFurther(b: Bytes, b': Bytes)
    requires |b| == HEADER_SIZE == |b'| && b[..MEANINGFUL_SIZE] == b'[..MEANINGFUL_SIZE]
    ensures ParseHeader(b) == ParseHeader(b')
  {
    hide FromBE;
    SameSlice(b, b', MEANINGFUL_SIZE, 0, 6);
    SameSlice(b, b', MEANINGFUL_SIZE, 6, 8);
    assert b[6..8] == [b[6], b[7]] && b'[6..8] == [b'[6], b'[7]];
    SameSlice(b, b', MEANINGFUL_SIZE, 8, 40);
    SameSlice(b, b', MEANINGFUL_SIZE, 40, 56);
    SameSlice(b, b', MEANINGFUL_SIZE, 56, 60);
    SameSlice(b, b', MEANINGFUL_SIZE, 60, 64);
    SameSlice(b, b', MEANINGFUL_SIZE, 64, 68);
    SameSlice(b, b', MEANINGFUL_SIZE, 68, 72);
    SameSlice(b, b', MEANINGFUL_SIZE, 72, 76);
  }

  /**
   The associated data that seals a header tells two accepted headers apart exactly when they differ in the
   first 76 bytes. The documentation promises all 80; the last four are not covered.
   */
  lemma SealCoversMeaningfulBytes(b: Bytes, b': Bytes)
    requires |b| == HEADER_SIZE && ParseHeader(b).Ok?
    requires |b'| == HEADER_SIZE && ParseHeader(b').Ok?
    ensures HeaderBytes(ParseHeader(b).value) == HeaderBytes(ParseHeader(b').value)
            <==> b[..MEANINGFUL_SIZE] == b'[..MEANINGFUL_SIZE]
  {
    FieldsInvertParse(b);
    FieldsInvertParse(b');
    var s, s' := HeaderBytes(ParseHeader(b).value), HeaderBytes(ParseHeader(b').value);
    assert s[..76] == b[..76] && s'[..76] == b'[..76];
  }
}
