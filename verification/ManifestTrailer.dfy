/** The sealed manifest: src/wraith/manifest.rs. */
module ManifestTrailer {
  import opened BigEndian
  import opened Outcomes
  import opened Primitives
  import opened Wraith

  /** Unseals a manifest: a nonce, then the sealed JSON. */
  function OpenManifest(c: Crypto, manifestKey: Bytes, uuid: Bytes, trailer: Bytes): Result<Manifest, WraithError> {
    if |trailer| < NONCE_SIZE + TAG_SIZE then Err(ManifestAuthFailed)
    else match c.open(manifestKey, trailer[..NONCE_SIZE], trailer[NONCE_SIZE..], uuid)
      case None => Err(ManifestAuthFailed)
      case Some(text) =>
        match c.manifestJson.read(text)
        case None => Err(ManifestAuthFailed)
        case Some(m) => Ok(m)
  }

  /** Seals a manifest: the nonce, then the JSON sealed with the container's identifier as associated data. */
  function SealManifest(c: Crypto, m: Manifest, manifestKey: Bytes, uuid: Bytes, nonce: Bytes): Bytes {
    nonce + c.seal(manifestKey, nonce, c.manifestJson.write(m), uuid)
  }

  lemma OpenInvertsSeal(c: Crypto, m: Manifest, manifestKey: Bytes, uuid: Bytes, nonce: Bytes)
    requires c.LawfulAead() && LawfulJson(c.manifestJson)
    requires |nonce| == NONCE_SIZE
    ensures OpenManifest(c, manifestKey, uuid, SealManifest(c, m, manifestKey, uuid, nonce)) == Ok(m)
    ensures |SealManifest(c, m, manifestKey, uuid, nonce)| == |c.manifestJson.write(m)| + NONCE_SIZE + TAG_SIZE
  {
    var text := c.manifestJson.write(m);
    var sealed := c.seal(manifestKey, nonce, text, uuid);
    var trailer := nonce + sealed;
    assert trailer[..NONCE_SIZE] == nonce && trailer[NONCE_SIZE..] == sealed;
    assert |sealed| == |text| + TAG_SIZE;
    assert c.open(manifestKey, nonce, sealed, uuid) == Some(text);
    assert c.manifestJson.read(text) == Some(m);
  }
}
