/**
  The cryptographic primitives the program takes from its platform library:
  PBKDF2 (section 5.2 of RFC 8018) and AES-256 in CBC mode (section 6.2 of NIST
  SP 800-38A) with PKCS #7 padding (section 6.3 of RFC 5652). They are
  parameters of the model; what the model relies on about them is stated as
  predicates that the lemmas take as hypotheses.
 */
module Crypto {
  import opened Wrappers
  import opened Format

  datatype HashAlgorithm = Sha1 | Sha256 | Sha384 | Sha512

  /** The arguments of one PBKDF2 derivation. */
  datatype KdfRequest = KdfRequest(password: string, salt: seq<byte>, iterations: nat, hash: HashAlgorithm, length: nat)

  const Iterations: nat := 100_000
  const KeyLength: nat := 32
  const BlockSize: nat := 16

  /**
    kdf: PBKDF2 as Rfc2898DeriveBytes computes it; encrypt and decrypt: the
    AES encryptor and decryptor for a (key, iv) pair, applied to a whole stream.
    decrypt gives None where the decryptor throws.
   */
  datatype Primitives = Primitives(
    kdf: KdfRequest -> seq<byte>,
    encrypt: (seq<byte>, seq<byte>, seq<byte>) -> seq<byte>,
    decrypt: (seq<byte>, seq<byte>, seq<byte>) -> Option<seq<byte>>)

  /**
    The derivation both operations ask for. Only the password and the salt
    vary; the round count, hash and output length are fixed by the format.
   */
  function KeyRequest(password: string, salt: seq<byte>): (r: KdfRequest)
    ensures r.password == password && r.salt == salt
    ensures r.iterations == 100_000 && r.hash == Sha256 && r.length == 32
  {
    KdfRequest(password, salt, Iterations, Sha256, KeyLength)
  }

  /** The AES key for a password and salt: 32 bytes, as AES-256 needs, when PBKDF2 keeps its length promise. */
  function DeriveKey(suite: Primitives, password: string, salt: seq<byte>): (key: seq<byte>)
    ensures KdfLengthLaw(suite) ==> |key| == KeyLength
  {
    var request := KeyRequest(password, salt);
    assert KdfLengthLaw(suite) ==> |suite.kdf(request)| == request.length;
    suite.kdf(request)
  }

  /** Length of a PKCS #7 padded plaintext: the next multiple of the block size strictly above n. */
  function PaddedLength(n: nat): (m: nat)
    ensures m % BlockSize == 0
    ensures n < m <= n + BlockSize
  {
    BlockSize * (n / BlockSize + 1)
  }

  /** PBKDF2 returns as many bytes as requested. */
  ghost predicate KdfLengthLaw(suite: Primitives)
  {
    forall r: KdfRequest :: |suite.kdf(r)| == r.length
  }

  /** Decrypting with the key and IV used to encrypt gives the plaintext back. */
  ghost predicate InverseLaw(suite: Primitives)
  {
    forall key: seq<byte>, iv: seq<byte>, plain: seq<byte>
      | |key| == KeyLength && |iv| == IvLength
      :: suite.decrypt(key, iv, suite.encrypt(key, iv, plain)) == Some(plain)
  }

  /** CBC keeps the length of the PKCS #7 padded plaintext. */
  ghost predicate PaddingLaw(suite: Primitives)
  {
    forall key: seq<byte>, iv: seq<byte>, plain: seq<byte>
      | |key| == KeyLength && |iv| == IvLength
      :: |suite.encrypt(key, iv, plain)| == PaddedLength(|plain|)
  }

  /** What the model assumes of the library's PBKDF2 and AES-256-CBC-PKCS7. */
  ghost predicate Aes256CbcPkcs7(suite: Primitives)
  {
    KdfLengthLaw(suite) && InverseLaw(suite) && PaddingLaw(suite)
  }
}
