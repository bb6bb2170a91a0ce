/** Which keys a container is sealed under: src/crypto/kdf.rs, as the writer and the reader use it. */
module KeySchedule {
  import opened BigEndian
  import opened Outcomes
  import opened Primitives
  import opened Wraith
  import opened Header
  import opened Container
  import opened Encryptor
  import opened Decryptor

  // The labels under which keys are derived.

  function DataPurpose(): string {
    "miragex-v4-aes256-gcm-dek"
  }

  function ManifestPurpose(): string {
    "miragex-v4-manifest-key"
  }

  function WrapPurpose(): string {
    "miragex-v4-pqc-wrap-key"
  }

  // What the writer and the reader compute.

  /** A session in full: its header, what goes into the envelope, and the two keys. */
  lemma SessionIs(c: Crypto, password: Bytes, o: EncryptOptions, e: Entropy)
    requires e.Shaped()
    ensures var stretched := c.argon2(password, e.salt, o.argon2MCost, o.argon2TCost, o.argon2PCost);
            var session := StartSession(c, password, o, e);
            if stretched.None? then session == Err(CryptoFailed(KdfError))
            else
              && session.Ok?
              && var s, kem, context := session.value, c.encapsulate(o.suite, e.kemSeed), e.salt + e.uuid;
              && s.header == WraithHeader(4, o.suite, e.salt, e.uuid, o.chunkSize,
                                          o.argon2MCost, o.argon2TCost, o.argon2PCost, 0)
              && s.envelope.kemCiphertext == kem.ciphertext && s.envelope.wrapNonce == e.wrapNonce
              && s.envelope.wrappedKey
                 == c.seal(c.hkdf(context, stretched.value, WrapPurpose()), e.wrapNonce,
                           kem.decapsulationKey, HeaderBytes(s.header))
              && s.keys.dek == c.hkdf(context, stretched.value + kem.sharedSecret, DataPurpose())
              && s.keys.manifestKey == c.hkdf(context, stretched.value + kem.sharedSecret, ManifestPurpose())
  {
    hide HeaderBytes;
  }

  /** The keys that opening an envelope yields, or the error, by the step that fails. */
  lemma OpeningIs(c: Crypto, password: Bytes, h: WraithHeader, e: Envelope)
    requires h.Shaped()
    ensures var stretched := c.argon2(password, h.salt, h.argon2MCost, h.argon2TCost, h.argon2PCost);
            var r, context := OpenEnvelope(c, password, h, e), h.salt + h.uuid;
            if stretched.None? then r == Err(CryptoFailed(KdfError))
            else
              var wrapKey := c.hkdf(context, stretched.value, WrapPurpose());
              var unwrapped := c.open(wrapKey, e.wrapNonce, e.wrappedKey, HeaderBytes(h));
              if unwrapped.None? then r == Err(ManifestAuthFailed)
              else
                var secret := c.decapsulate(h.suite, unwrapped.value, e.kemCiphertext);
                if secret.None? then r == Err(CryptoFailed(KemError))
                else
                  && r.Ok?
                  && r.value.dek == c.hkdf(context, stretched.value + secret.value, DataPurpose())
                  && r.value.manifestKey == c.hkdf(context, stretched.value + secret.value, ManifestPurpose())
  {
    hide HeaderBytes;
  }

  // What the keys depend on.

  /** Different salts, key material or labels give different keys. */
  ghost predicate TellsApart(c: Crypto) {
    forall salt, ikm, info, salt', ikm', info' ::
      c.hkdf(salt, ikm, info) == c.hkdf(salt', ikm', info') ==> salt == salt' && ikm == ikm' && info == info'
  }

  lemma SameHalves(a: Bytes, b: Bytes, a': Bytes, b': Bytes)
    requires |a| == |a'| && a + b == a' + b'
    ensures a == a' && b == b'
  {
    assert a == (a + b)[..|a|] && a' == (a' + b')[..|a|];
    assert b == (a + b)[|a|..] && b' == (a' + b')[|a|..];
  }

  lemma DerivedApart(c: Crypto, pk: Bytes, secret: Bytes, uuid: Bytes, salt: Bytes,
                     pk': Bytes, secret': Bytes, uuid': Bytes, salt': Bytes, info: string)
    requires TellsApart(c) && |pk| == |pk'| && |salt| == |salt'|
    requires c.hkdf(salt + uuid, pk + secret, info) == c.hkdf(salt' + uuid', pk' + secret', info)
    ensures pk == pk' && secret == secret' && uuid == uuid' && salt == salt'
  {
    SameHalves(pk, secret, pk', secret');
    SameHalves(salt, uuid, salt', uuid');
  }

  /**
   The keys of two runs of the writer, with stretched passwords of one length, are equal if and only if the stretched
   passwords, the shared secrets, the identifiers and the salts all are; and either key alone tells as much.
   */
  lemma SessionKeysDetermined(c: Crypto, password: Bytes, o: EncryptOptions, e: Entropy,
                              password': Bytes, o': EncryptOptions, e': Entropy)
    requires TellsApart(c) && e.Shaped() && e'.Shaped()
    requires StartSession(c, password, o, e).Ok? && StartSession(c, password', o', e').Ok?
    requires |Stretched(c, password, o, e)| == |Stretched(c, password', o', e')|
    ensures var keys := StartSession(c, password, o, e).value.keys;
            var keys' := StartSession(c, password', o', e').value.keys;
            var secret := c.encapsulate(o.suite, e.kemSeed).sharedSecret;
            var secret' := c.encapsulate(o'.suite, e'.kemSeed).sharedSecret;
            var same := Stretched(c, password, o, e) == Stretched(c, password', o', e') && secret == secret'
                        && e.uuid == e'.uuid && e.salt == e'.salt;
            && (keys == keys' <==> same)
            && (keys.dek == keys'.dek <==> same)
            && (keys.manifestKey == keys'.manifestKey <==> same)
  {
    hide StartSession;
    SessionIs(c, password, o, e);
    SessionIs(c, password', o', e');
    var keys, keys' := StartSession(c, password, o, e).value.keys, StartSession(c, password', o', e').value.keys;
    var pk, pk' := Stretched(c, password, o, e), Stretched(c, password', o', e');
    var ss, ss' := c.encapsulate(o.suite, e.kemSeed).sharedSecret, c.encapsulate(o'.suite, e'.kemSeed).sharedSecret;
    if keys.dek == keys'.dek {
      DerivedApart(c, pk, ss, e.uuid, e.salt, pk', ss', e'.uuid, e'.salt, DataPurpose());
    }
    if keys.manifestKey == keys'.manifestKey {
      DerivedApart(c, pk, ss, e.uuid, e.salt, pk', ss', e'.uuid, e'.salt, ManifestPurpose());
    }
  }

  /** The stretched password of a run. */
  function Stretched(c: Crypto, password: Bytes, o: EncryptOptions, e: Entropy): Bytes {
    match c.argon2(password, e.salt, o.argon2MCost, o.argon2TCost, o.argon2PCost)
    case None => []
    case Some(key) => key
  }

  /** The same for what the reader derives, from the secrets that two envelopes hold. */
  lemma OpenedKeysDetermined(c: Crypto, password: Bytes, h: WraithHeader, e: Envelope, secret: Bytes,
                             password': Bytes, h': WraithHeader, e': Envelope, secret': Bytes)
    requires TellsApart(c) && h.Shaped() && h'.Shaped()
    requires OpenEnvelope(c, password, h, e).Ok? && OpenEnvelope(c, password', h', e').Ok?
    requires Held(c, password, h, e) == Some(secret) && Held(c, password', h', e') == Some(secret')
    requires |StretchedFor(c, password, h)| == |StretchedFor(c, password', h')|
    ensures OpenEnvelope(c, password, h, e).value == OpenEnvelope(c, password', h', e').value
            <==> StretchedFor(c, password, h) == StretchedFor(c, password', h') && secret == secret'
                 && h.uuid == h'.uuid && h.salt == h'.salt
  {
    hide OpenEnvelope, HeaderBytes;
    OpeningIs(c, password, h, e);
    OpeningIs(c, password', h', e');
    if OpenEnvelope(c, password, h, e).value == OpenEnvelope(c, password', h', e').value {
      DerivedApart(c, StretchedFor(c, password, h), secret, h.uuid, h.salt,
                   StretchedFor(c, password', h'), secret', h'.uuid, h'.salt, DataPurpose());
    }
  }

  function StretchedFor(c: Crypto, password: Bytes, h: WraithHeader): Bytes {
    match c.argon2(password, h.salt, h.argon2MCost, h.argon2TCost, h.argon2PCost)
    case None => []
    case Some(key) => key
  }

  /** The shared secret that a password finds in an envelope. */
  function Held(c: Crypto, password: Bytes, h: WraithHeader, e: Envelope): Option<Bytes>
    requires h.Shaped()
  {
    var wrapKey := c.hkdf(h.salt + h.uuid, StretchedFor(c, password, h), WrapPurpose());
    match c.open(wrapKey, e.wrapNonce, e.wrappedKey, HeaderBytes(h))
    case None => None
    case Some(decapsulationKey) => c.decapsulate(h.suite, decapsulationKey, e.kemCiphertext)
  }

  /** No two of the three keys of a run are the same. */
  lemma RunKeysDiffer(c: Crypto, password: Bytes, o: EncryptOptions, e: Entropy)
    requires TellsApart(c) && e.Shaped() && StartSession(c, password, o, e).Ok?
    ensures var keys := StartSession(c, password, o, e).value.keys;
            var wrapKey := c.hkdf(e.salt + e.uuid, Stretched(c, password, o, e), WrapPurpose());
            keys.dek != keys.manifestKey && keys.dek != wrapKey && keys.manifestKey != wrapKey
  {
    hide StartSession, DataPurpose, ManifestPurpose, WrapPurpose;
    SessionIs(c, password, o, e);
    PurposesDiffer();
  }

  lemma PurposesDiffer()
    ensures DataPurpose() != ManifestPurpose() && DataPurpose() != WrapPurpose() && ManifestPurpose() != WrapPurpose()
  {
    assert |DataPurpose()| == 25 && |ManifestPurpose()| == 23 == |WrapPurpose()|;
    assert ManifestPurpose()[11] == 'm' && WrapPurpose()[11] == 'p';
  }

  // Such a derivation is possible together with all the other laws.

  function Marked(salt: Bytes, ikm: Bytes, info: string): seq<nat> {
    [|salt|, |ikm|] + salt + ikm + CodeOf(info)
  }

  lemma MarkedApart(salt: Bytes, ikm: Bytes, info: string, salt': Bytes, ikm': Bytes, info': string)
    requires Marked(salt, ikm, info) == Marked(salt', ikm', info')
    ensures salt == salt' && ikm == ikm' && info == info'
  {
    var x, y, n, m := Marked(salt, ikm, info), Marked(salt', ikm', info'), |salt|, |ikm|;
    assert x[0] == y[0] && x[1] == y[1];
    assert x[2..2 + n] == salt && y[2..2 + n] == salt';
    assert x[2 + n..2 + n + m] == ikm && y[2 + n..2 + n + m] == ikm';
    assert x[2 + n + m..] == CodeOf(info) && y[2 + n + m..] == CodeOf(info');
    assert TextOf(CodeOf(info)) == info && TextOf(CodeOf(info')) == info';
  }

  function ToyApart(): Crypto {
    Toy().(hkdf := (salt, ikm, info) => WriteNats(Marked(salt, ikm, info)))
  }

  lemma ToyTellsApart()
    ensures ToyApart().Lawful() && TellsApart(ToyApart())
  {
    hide Marked, WriteNats, ReadNats;
    ToyIsLawful();
    var c := ToyApart();
    assert c.Lawful() by {
      assert c.seal == Toy().seal && c.open == Toy().open && c.encapsulate == Toy().encapsulate;
      assert c.decapsulate == Toy().decapsulate && c.manifestJson == Toy().manifestJson;
    }
    forall salt, ikm, info, salt', ikm', info' | c.hkdf(salt, ikm, info) == c.hkdf(salt', ikm', info')
      ensures salt == salt' && ikm == ikm' && info == info'
    {
      NatsRead(Marked(salt, ikm, info));
      NatsRead(Marked(salt', ikm', info'));
      MarkedApart(salt, ikm, info, salt', ikm', info');
    }
  }
}
