/** Constants and errors shared by the writer and the readers of a container. */
module Wraith {
  import opened BigEndian

  const MAGIC: Bytes := [0x57, 0x52, 0x41, 0x49, 0x54, 0x48]                     // WRAITH
  const TRAILER_MAGIC: Bytes := [0x57, 0x52, 0x41, 0x49, 0x54, 0x48, 0x4D, 0x46] // WRAITHMF
  const CURRENT_VERSION: Byte := 4
  const MIN_CHUNK_SIZE: nat := 64 * 1024
  const DEFAULT_CHUNK_SIZE: nat := 16 * 1024 * 1024
  const MAX_CHUNK_SIZE: nat := 256 * 1024 * 1024

  const MAX_WRAPPED_KEY_LEN: nat := 8 * 1024
  const MAX_CHUNK_PAYLOAD_LEN: nat := 256 * 1024 * 1024
  const MAX_MANIFEST_LEN: nat := 64 * 1024

  datatype CryptoError =
    | KdfError
    | KemError
    | UnsupportedSuite(id: Byte)

  datatype WraithError =
    | EndOfStream                  // an I/O error: the source ended inside a fixed-size read
    | WriteRefused                 // an I/O error: the sink refused the data
    | UnexpectedEof
    | InvalidMagic
    | UnsupportedVersion(version: Byte)
    | InvalidChunkSize(size: U32)
    | ChunkTampered(index: nat)
    | IntegrityHashMismatch
    | ManifestAuthFailed
    | InvalidPassword
    | InvalidContainer
    | CryptoFailed(cause: CryptoError)
}
