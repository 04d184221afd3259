/** Integer widths, field sizes and result codes shared by every part of the trusted application. */
module Basics {

  const WORD: int := 0x1_0000_0000

  /** The C type `uint32_t`. Arithmetic on it wraps, and every wrap is written out. */
  type uint32 = x: int | 0 <= x < WORD

  type byte = x: int | 0 <= x < 256

  type bytes = seq<byte>

  const MAX_KEY_LENGTH: nat := 512
  const MAX_HASH_LENGTH: nat := 64
  const MAX_SIGNATURE_LENGTH: nat := 512
  const DIGEST_SIZE: nat := 32
  const TEE_SIGNATURE_SIZE_BYTES: nat := 256
  const MAX_REPO_ID: nat := 1000

  /** Text in one of the fixed `char` arrays; the place of the terminating NUL is not modelled. */
  type KeyText = s: string | |s| <= MAX_KEY_LENGTH
  type HashText = s: string | |s| <= MAX_HASH_LENGTH
  type SignatureText = s: string | |s| <= MAX_SIGNATURE_LENGTH

  /** A SHA-256 digest and an RSA-2048 signature. */
  type Digest = d: bytes | |d| == DIGEST_SIZE witness seq(DIGEST_SIZE, _ => 0)
  type RsaSignature = d: bytes | |d| == TEE_SIGNATURE_SIZE_BYTES witness seq(TEE_SIGNATURE_SIZE_BYTES, _ => 0)

  const OP_ADD: uint32 := 0
  const OP_DELETE: uint32 := 1
  const OP_PUSH: uint32 := 2
  const OP_PR: uint32 := 3

  const ROLE_ADMIN: uint32 := 1
  const ROLE_WRITER: uint32 := 2

  datatype TeeResult =
    | Success
    | BadParameters
    | BadFormat
    | Generic
    | OutOfMemory
    | ItemNotFound
    | AccessDenied
    | Security
    | ShortBuffer
    | SignatureInvalid
    | Other(code: uint32)

  datatype Option<+T> = None | Some(value: T)

  /** A value, or the (unsuccessful) code returned in its place. */
  datatype Result<+T> = Ok(value: T) | Err(error: TeeResult)
}
