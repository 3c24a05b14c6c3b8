/**
 * The cryptographic collaborators of the credential core, injected as
 * functions: SHA-256, `pem.Decode`, the two `x509` public-key parsers and
 * bcrypt. Only what the source relies on is assumed of them: a digest is 32
 * bytes, and everything is deterministic in its arguments (bcrypt's salt is
 * an explicit argument).
 */
module Crypto {
  import opened Wrappers
  import opened Hex

  type Digest = s: seq<byte> | |s| == 32
    witness [0, 0, 0, 0, 0, 0, 0, 0, 0, 0, 0, 0, 0, 0, 0, 0, 0, 0, 0, 0, 0, 0, 0, 0, 0, 0, 0, 0, 0, 0, 0, 0]

  /** A decoded PEM block: its type line and its DER body. */
  datatype PemBlock = PemBlock(blockType: string, bytes: seq<byte>)

  datatype Primitives = Primitives(
    sha256: seq<byte> -> Digest,
    /** `pem.Decode`: the first PEM block of the text, or `None` when there is none. */
    pemDecode: string -> Option<PemBlock>,
    /** `x509.ParsePKIXPublicKey` succeeds on these DER bytes. */
    parsePkix: seq<byte> -> bool,
    /** `x509.ParsePKCS1PublicKey` succeeds on these DER bytes. */
    parsePkcs1: seq<byte> -> bool,
    /** `bcrypt.GenerateFromPassword` with the given salt; `None` is its error return. */
    bcryptHash: (string, seq<byte>) -> Option<string>,
    /** `bcrypt.CompareHashAndPassword(hash, password) == nil`. */
    bcryptMatches: (string, string) -> bool
  )

  /** A password always matches a hash bcrypt produced from it. */
  ghost predicate BcryptSound(c: Primitives) {
    forall password, salt :: c.bcryptHash(password, salt).Some? ==> c.bcryptMatches(c.bcryptHash(password, salt).value, password)
  }
}
