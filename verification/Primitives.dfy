/**
 The library code a container relies on, as uninterpreted functions, with the laws the proofs use.
 Every theorem about containers holds for all primitives that obey the laws; `ToyIsLawful` shows that some do.
 */
module Primitives {
  import opened BigEndian
  import opened Outcomes

  const NONCE_SIZE := 12
  const TAG_SIZE := 16
  const KEY_SIZE := 32
  const SALT_SIZE := 32
  const UUID_SIZE := 16
  const HASH_SIZE := 32

  /** The two parameter sets of FIPS 203 that a container may name. */
  datatype Suite = MlKem768 | MlKem1024 {

    function Id(): (id: Byte) {
      match this
      case MlKem768 => 1
      case MlKem1024 => 2
    }

    static function FromId(id: Byte): (s: Option<Suite>)
      ensures s.Some? <==> exists t: Suite :: t.Id() == id
      ensures s.Some? ==> s.value.Id() == id
    {
      assert MlKem768.Id() == 1 && MlKem1024.Id() == 2;
      if id == 1 then Some(MlKem768) else if id == 2 then Some(MlKem1024) else None
    }

    /** Ciphertext length, section 8 of FIPS 203. */
    function CiphertextSize(): nat {
      match this
      case MlKem768 => 1088
      case MlKem1024 => 1568
    }

    /** Decapsulation key length, section 8 of FIPS 203. */
    function DecapsulationKeySize(): nat {
      match this
      case MlKem768 => 2400
      case MlKem1024 => 3168
    }
  }

  datatype Encapsulation = Encapsulation(ciphertext: Bytes, sharedSecret: Bytes, decapsulationKey: Bytes)

  /** The sealed trailer of a container. */
  datatype Manifest = Manifest(originalFilename: string, originalSize: nat, sha256Hash: Bytes, createdAt: nat,
                               totalChunks: nat)

  /** A serialiser and its parser. */
  datatype Json<!T> = Json(write: T -> Bytes, read: Bytes -> Option<T>)

  ghost predicate LawfulJson<T(!new)>(json: Json<T>) {
    forall t: T :: json.read(json.write(t)) == Some(t)
  }

  datatype Crypto = Crypto(
    // AES-256-GCM: key, nonce, text, associated data
    seal: (Bytes, Bytes, Bytes, Bytes) -> Bytes,
    open: (Bytes, Bytes, Bytes, Bytes) -> Option<Bytes>,
    // Argon2id: password, salt, memory, time, lanes; None when it rejects its parameters
    argon2: (Bytes, Bytes, U32, U32, U32) -> Option<Bytes>,
    // HKDF-SHA512: salt, input key material, label
    hkdf: (Bytes, Bytes, string) -> Bytes,
    // ML-KEM: suite and random seed; suite, decapsulation key and ciphertext
    encapsulate: (Suite, Bytes) -> Encapsulation,
    decapsulate: (Suite, Bytes, Bytes) -> Option<Bytes>,
    sha256: Bytes -> Bytes,
    utf8: string -> Bytes,
    manifestJson: Json<Manifest>
  ) {

    ghost predicate LawfulAead() {
      && (forall k, n, t, a :: |seal(k, n, t, a)| == |t| + TAG_SIZE)
      && (forall k, n, t, a :: open(k, n, seal(k, n, t, a), a) == Some(t))
    }

    ghost predicate LawfulKem() {
      forall s, seed ::
        var e := encapsulate(s, seed);
        && |e.ciphertext| == s.CiphertextSize()
        && |e.decapsulationKey| == s.DecapsulationKeySize()
        && decapsulate(s, e.decapsulationKey, e.ciphertext) == Some(e.sharedSecret)
    }

    ghost predicate Lawful() {
      LawfulAead() && LawfulKem() && LawfulJson(manifestJson)
    }
  }

  /** The key that wraps the decapsulation key. */
  function WrapKey(c: Crypto, passwordKey: Bytes, salt: Bytes, uuid: Bytes): Bytes {
    c.hkdf(salt + uuid, passwordKey, "miragex-v4-pqc-wrap-key")
  }

  datatype MasterKeys = MasterKeys(dek: Bytes, manifestKey: Bytes)

  function DeriveMasterKeys(c: Crypto, passwordKey: Bytes, sharedSecret: Bytes, uuid: Bytes, salt: Bytes): MasterKeys {
    MasterKeys(c.hkdf(salt + uuid, passwordKey + sharedSecret, "miragex-v4-aes256-gcm-dek"),
               c.hkdf(salt + uuid, passwordKey + sharedSecret, "miragex-v4-manifest-key"))
  }

  // A model of the laws: no secrecy, but every law holds.

  function Zeros(n: nat): (z: Bytes)
    ensures |z| == n
  {
    seq(n, i => 0)
  }

  /** A number as that many ones and a zero. */
  function Unary(n: nat): Bytes {
    if n == 0 then [0] else [1] + Unary(n - 1)
  }

  function ReadUnary(s: Bytes): (r: Option<(nat, Bytes)>)
    ensures r.Some? ==> |r.value.1| < |s|
  {
    if s == [] then None
    else if s[0] == 0 then Some((0, s[1..]))
    else match ReadUnary(s[1..])
      case None => None
      case Some(r) => Some((r.0 + 1, r.1))
  }

  lemma {:induction false} UnaryReads(n: nat, rest: Bytes)
    ensures ReadUnary(Unary(n) + rest) == Some((n, rest))
  {
    if n == 0 {
      assert ([0] + rest)[1..] == rest;
    } else {
      UnaryReads(n - 1, rest);
      assert (Unary(n) + rest)[1..] == Unary(n - 1) + rest;
    }
  }

  function WriteNats(ns: seq<nat>): Bytes {
    if ns == [] then [] else Unary(ns[0]) + WriteNats(ns[1..])
  }

  function ReadNats(s: Bytes): seq<nat>
    decreases |s|
  {
    match ReadUnary(s)
    case None => []
    case Some(r) => [r.0] + ReadNats(r.1)
  }

  lemma {:induction false} NatsRead(ns: seq<nat>)
    ensures ReadNats(WriteNats(ns)) == ns
  {
    if ns != [] {
      UnaryReads(ns[0], WriteNats(ns[1..]));
      NatsRead(ns[1..]);
    }
  }

  function CodeOf(s: string): (ns: seq<nat>)
    ensures |ns| == |s| && forall i :: 0 <= i < |s| ==> ns[i] == s[i] as nat
  {
    if s == [] then [] else [s[0] as nat] + CodeOf(s[1..])
  }

  function TextOf(ns: seq<nat>): (s: string)
    ensures |s| == |ns|
    ensures forall i :: 0 <= i < |ns| && (ns[i] < 0xD800 || 0xE000 <= ns[i] < 0x11_0000) ==> s[i] == ns[i] as char
  {
    if ns == [] then []
    else [if ns[0] < 0xD800 || 0xE000 <= ns[0] < 0x11_0000 then ns[0] as char else 'x'] + TextOf(ns[1..])
  }

  function BytesOf(ns: seq<nat>): (s: Bytes)
    ensures |s| == |ns|
    ensures forall i :: 0 <= i < |ns| && ns[i] < 0x100 ==> s[i] == ns[i]
  {
    if ns == [] then [] else [if ns[0] < 0x100 then ns[0] else 0] + BytesOf(ns[1..])
  }

  function ToyFields(m: Manifest): seq<nat> {
    [|m.originalFilename|, m.originalSize, m.createdAt, m.totalChunks] + CodeOf(m.originalFilename) + m.sha256Hash
  }

  function ToyWrite(m: Manifest): Bytes {
    WriteNats(ToyFields(m))
  }

  function ToyRead(s: Bytes): Option<Manifest> {
    var ns := ReadNats(s);
    if |ns| < 4 || |ns| < ns[0] + 4 then None
    else Some(Manifest(TextOf(ns[4..4 + ns[0]]), ns[1], BytesOf(ns[4 + ns[0]..]), ns[2], ns[3]))
  }

  lemma ToyJsonReads(m: Manifest)
    ensures ToyRead(ToyWrite(m)) == Some(m)
  {
    var ns := ToyFields(m);
    NatsRead(ns);
    assert ns[4..4 + ns[0]] == CodeOf(m.originalFilename);
    assert TextOf(CodeOf(m.originalFilename)) == m.originalFilename;
    assert ns[4 + ns[0]..] == m.sha256Hash;
    assert BytesOf(m.sha256Hash) == m.sha256Hash;
  }

  function Toy(): Crypto {
    Crypto(
      (k, n, t, a) => t + Zeros(TAG_SIZE),
      (k, n, x, a) => if |x| < TAG_SIZE then None else Some(x[..|x| - TAG_SIZE]),
      (p, s, m, t, l) => Some(Zeros(KEY_SIZE)),
      (s, k, l) => Zeros(KEY_SIZE),
      (s: Suite, seed) => Encapsulation(Zeros(s.CiphertextSize()), Zeros(KEY_SIZE), Zeros(s.DecapsulationKeySize())),
      (s, dk, ct) => Some(Zeros(KEY_SIZE)),
      b => Zeros(HASH_SIZE),
      s => [],
      Json(ToyWrite, ToyRead))
  }

  lemma ToyIsLawful()
    ensures Toy().Lawful()
  {
    var c := Toy();
    forall k, n, t, a
      ensures c.open(k, n, c.seal(k, n, t, a), a) == Some(t)
    {
      assert (t + Zeros(TAG_SIZE))[..|t|] == t;
    }
    forall m: Manifest
      ensures c.manifestJson.read(c.manifestJson.write(m)) == Some(m)
    {
      ToyJsonReads(m);
    }
  }
}
