/** The second parser of the header, which needs no password: src/wraith/inspect.rs. */
module Inspect {
  import opened BigEndian
  import opened Outcomes
  import opened Primitives
  import opened Streams
  import opened Wraith
  import opened Header
  import opened Decryptor

  datatype Generation = WraithV4 | MirageV2 | MirageV1

  datatype Inspection = Inspection(
    generation: Generation,
    version: Byte,
    suiteId: Byte,
    salt: Bytes,
    uuid: Bytes,
    chunkSize: nat,
    argon2MCost: nat,
    argon2TCost: nat,
    argon2PCost: nat,
    flags: nat,
    pqcCiphertextSize: nat
  )

  const WRAI: Bytes := [0x57, 0x52, 0x41, 0x49]
  const MIRG: Bytes := [0x4D, 0x49, 0x52, 0x47]
  const MIRA: Bytes := [0x4D, 0x49, 0x52, 0x41]

  function Describe(h: WraithHeader, ciphertextSize: nat): Inspection {
    Inspection(WraithV4, h.version, h.suite.Id(), h.salt, h.uuid, h.chunkSize,
               h.argon2MCost, h.argon2TCost, h.argon2PCost, h.flags, ciphertextSize)
  }

  // Inspection on values, by the generation that the first four bytes announce.

  function InspectionOf(input: Bytes): Result<Inspection, WraithError> {
    if |input| < 4 then Err(UnexpectedEof)
    else if input[..4] == WRAI then WraithInspection(input)
    else if input[..4] == MIRG then MirageV2Inspection(input[4..])
    else if input[..4] == MIRA then MirageV1Inspection(input[4..])
    else Err(InvalidMagic)
  }

  function WraithInspection(input: Bytes): Result<Inspection, WraithError>
    requires |input| >= 4
  {
    if |input| < 6 then Err(UnexpectedEof)
    else if input[4..6] != MAGIC[4..] then Err(InvalidMagic)
    else match ReadHeader(input)
      case Err(error) => Err(error)
      case Ok(h) =>
        if |input| < HEADER_SIZE + 4 then Err(UnexpectedEof)
        else Ok(Describe(h, FromBE(input[HEADER_SIZE..HEADER_SIZE + 4])))
  }

  function MirageV2Inspection(x: Bytes): Result<Inspection, WraithError> {
    if |x| < 40 then Err(UnexpectedEof)
    else Ok(Inspection(MirageV2, x[0], x[5], x[8..40], [], 0, 0, 0, 0, x[2], 0))
  }

  function MirageV1Inspection(x: Bytes): Result<Inspection, WraithError> {
    if |x| < 20 then Err(UnexpectedEof)
    else Ok(Inspection(MirageV1, x[2], x[3], x[4..20], [], 0, 0, 0, 0, 0, 0))
  }

  /** Reads the magic in two steps, then the rest of the header, then the length field after it. */
  method InspectContainer(reader: Reader) returns (r: Result<Inspection, WraithError>)
    modifies reader
    ensures r == InspectionOf(old(reader.rest))
  {
    ghost var input := reader.rest;
    var initial := reader.ReadExact(4);
    if initial.None? {
      return Err(UnexpectedEof);
    }
    if initial.value == WRAI {
      r := InspectWraith(reader, input);
    } else if initial.value == MIRG {
      r := InspectMirageV2(reader);
    } else if initial.value == MIRA {
      r := InspectMirageV1(reader);
    } else {
      r := Err(InvalidMagic);
    }
  }

  method InspectWraith(reader: Reader, ghost input: Bytes) returns (r: Result<Inspection, WraithError>)
    requires |input| >= 4 && input[..4] == WRAI && reader.rest == input[4..]
    modifies reader
    ensures r == WraithInspection(input)
  {
    hide ParseHeader, FromBE;
    var restMagic := reader.ReadExact(2);
    if restMagic.None? {
      return Err(UnexpectedEof);
    }
    SliceAfter(input, 4, 0, 2);
    assert restMagic.value == input[4..6] && reader.rest == input[6..];
    if restMagic.value != MAGIC[4..] {
      return Err(InvalidMagic);
    }
    var rest := reader.ReadExact(74);
    if rest.None? {
      return Err(UnexpectedEof);
    }
    SliceAfter(input, 6, 0, 74);
    assert rest.value == input[6..80] && reader.rest == input[80..];
    var full := new Byte[HEADER_SIZE](_ => 0);
    CopyInto(full, 0, WRAI);
    assert full[..4] == WRAI;
    CopyInto(full, 4, restMagic.value);
    assert full[..6] == input[..6];
    CopyInto(full, 6, rest.value);
    assert full[..] == input[..HEADER_SIZE];
    var header := ParseHeader(full[..]);
    if header.Err? {
      return Err(header.error);
    }
    var n := ReadU32(reader);
    if n.None? {
      return Err(UnexpectedEof);
    }
    SliceAfter(input, 80, 0, 4);
    r := Ok(Describe(header.value, n.value));
  }

  method InspectMirageV2(reader: Reader) returns (r: Result<Inspection, WraithError>)
    modifies reader
    ensures r == MirageV2Inspection(old(reader.rest))
  {
    ghost var input := reader.rest;
    var tail := reader.ReadExact(8);
    if tail.None? {
      return Err(UnexpectedEof);
    }
    var salt := reader.ReadExact(32);
    if salt.None? {
      return Err(UnexpectedEof);
    }
    SliceAfter(input, 8, 0, 32);
    r := Ok(Inspection(MirageV2, tail.value[0], tail.value[5], salt.value, [], 0, 0, 0, 0, tail.value[2], 0));
  }

  method InspectMirageV1(reader: Reader) returns (r: Result<Inspection, WraithError>)
    modifies reader
    ensures r == MirageV1Inspection(old(reader.rest))
  {
    ghost var input := reader.rest;
    var magic := reader.ReadExact(4);
    if magic.None? {
      return Err(UnexpectedEof);
    }
    var salt := reader.ReadExact(16);
    if salt.None? {
      return Err(UnexpectedEof);
    }
    SliceAfter(input, 4, 0, 16);
    r := Ok(Inspection(MirageV1, magic.value[2], magic.value[3], salt.value, [], 0, 0, 0, 0, 0, 0));
  }

  lemma MagicLeads(input: Bytes)
    ensures ReadHeader(input).Ok? ==> |input| >= HEADER_SIZE && input[..4] == WRAI && input[4..6] == MAGIC[4..]
  {
    if ReadHeader(input).Ok? {
      var b := input[..HEADER_SIZE];
      assert input[..4] == b[0..6][..4] && input[4..6] == b[0..6][4..];
    }
  }

  /**
   A header is reported exactly when the codec accepts it and a length field follows, and then as the codec reads it.
   */
  lemma InspectionIsTheCodecs(input: Bytes)
    ensures var i := InspectionOf(input);
            && (i.Ok? && i.value.generation == WraithV4 <==> ReadHeader(input).Ok? && |input| >= HEADER_SIZE + 4)
            && (i.Ok? && i.value.generation == WraithV4 ==>
                  i.value == Describe(ReadHeader(input).value, FromBE(input[HEADER_SIZE..HEADER_SIZE + 4])))
  {
    hide ParseHeader, FromBE;
    MagicLeads(input);
  }

  /** What is shown of a header, field by field. */
  lemma Shown(h: WraithHeader, announced: nat)
    ensures var i := Describe(h, announced);
            && i.generation == WraithV4 && i.version == h.version && i.suiteId == (if h.suite == MlKem768 then 1 else 2)
            && i.salt == h.salt && i.uuid == h.uuid && i.chunkSize == h.chunkSize
            && i.argon2MCost == h.argon2MCost && i.argon2TCost == h.argon2TCost && i.argon2PCost == h.argon2PCost
            && i.flags == h.flags && i.pqcCiphertextSize == announced
  {
  }

  /** The older format that begins with MIRG: eight bytes of header and 32 of salt follow. */
  lemma MirgIsShown(head: Bytes, salt: Bytes, rest: Bytes)
    requires |head| == 8 && |salt| == 32
    ensures InspectionOf([0x4D, 0x49, 0x52, 0x47] + head + salt + rest)
         == Ok(Inspection(MirageV2, head[0], head[5], salt, [], 0, 0, 0, 0, head[2], 0))
  {
    var input := [0x4D, 0x49, 0x52, 0x47] + head + salt + rest;
    assert input[..4] == MIRG && input[4..] == head + salt + rest;
    assert (head + salt + rest)[8..40] == salt;
  }

  /** And the one that begins with MIRA: four bytes and 16 of salt follow. */
  lemma MiraIsShown(head: Bytes, salt: Bytes, rest: Bytes)
    requires |head| == 4 && |salt| == 16
    ensures InspectionOf([0x4D, 0x49, 0x52, 0x41] + head + salt + rest)
         == Ok(Inspection(MirageV1, head[2], head[3], salt, [], 0, 0, 0, 0, 0, 0))
  {
    var input := [0x4D, 0x49, 0x52, 0x41] + head + salt + rest;
    assert input[..4] == MIRA && input[4..] == head + salt + rest;
    assert (head + salt + rest)[4..20] == salt;
  }

  /** What is not shown, and why: other letters in front, */
  lemma OtherLetters(input: Bytes)
    ensures |input| < 4 ==> InspectionOf(input) == Err(UnexpectedEof)
    ensures |input| >= 4
            && input[..4] !in [[0x57, 0x52, 0x41, 0x49], [0x4D, 0x49, 0x52, 0x47], [0x4D, 0x49, 0x52, 0x41]]
            ==> InspectionOf(input) == Err(InvalidMagic)
  {
    hide WraithInspection, MirageV2Inspection, MirageV1Inspection;
  }

  /** too little of an older format, */
  lemma CutShort(head: Bytes)
    ensures |head| < 40 ==> InspectionOf([0x4D, 0x49, 0x52, 0x47] + head) == Err(UnexpectedEof)
    ensures |head| < 20 ==> InspectionOf([0x4D, 0x49, 0x52, 0x41] + head) == Err(UnexpectedEof)
  {
    assert ([0x4D, 0x49, 0x52, 0x47] + head)[..4] == MIRG && ([0x4D, 0x49, 0x52, 0x47] + head)[4..] == head;
    assert ([0x4D, 0x49, 0x52, 0x41] + head)[..4] == MIRA && ([0x4D, 0x49, 0x52, 0x41] + head)[4..] == head;
  }

  /** and a header that the codec refuses, or that nothing follows. */
  lemma BadHeader(rest: Bytes)
    ensures var input := [0x57, 0x52, 0x41, 0x49] + rest;
            && (|rest| < 2 ==> InspectionOf(input) == Err(UnexpectedEof))
            && (|rest| >= 2 && rest[..2] != [0x54, 0x48] ==> InspectionOf(input) == Err(InvalidMagic))
            && (|rest| >= 2 && rest[..2] == [0x54, 0x48] ==>
                  match ReadHeader(input)
                  case Err(error) => InspectionOf(input) == Err(error)
                  case Ok(_) => |rest| < 80 ==> InspectionOf(input) == Err(UnexpectedEof))
  {
    hide ParseHeader, FromBE;
    var input := [0x57, 0x52, 0x41, 0x49] + rest;
    assert MAGIC[4..] == [0x54, 0x48] && input[..4] == WRAI;
    if |rest| >= 2 {
      assert input[4..6] == rest[..2];
    }
  }

  /** On whatever the decryptor accepts, inspection succeeds and describes the header that opening uses. */
  lemma InspectionAgrees(c: Crypto, password: Bytes, input: Bytes, room: Option<nat>)
    requires Decode(c, password, input, room).result.Ok?
    ensures ReadHeader(input).Ok?
    ensures var h := ReadHeader(input).value; InspectionOf(input) == Ok(Describe(h, h.suite.CiphertextSize()))
  {
    hide ParseHeader, ReadChunks, Finish, OpenEnvelope, FromBE, InspectionOf, ReadWrapped;
    var h := ReadHeader(input).value;
    var body := input[HEADER_SIZE..];
    assert ReadEnvelope(h.suite, body).Ok?;
    SliceAfter(input, HEADER_SIZE, 0, 4);
    InspectionIsTheCodecs(input);
  }
}
