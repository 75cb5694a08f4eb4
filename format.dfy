/**
  The Vault container: a 16-byte salt, a 16-byte initialisation vector and the
  ciphertext, concatenated in that order with no framing of their own.
 */
module Format {
  import opened Wrappers

  newtype byte = b: int | 0 <= b < 256

  const SaltLength: nat := 16
  const IvLength: nat := 16
  const HeaderLength: nat := SaltLength + IvLength

  /** The exceptions that end an operation in the error handler. */
  datatype Error =
    | EndOfStream           // ReadExactly met the end of the file before filling its buffer
    | CryptographicFailure  // the decryptor rejected the ciphertext (bad padding, partial block)

  /** The three fields of a container. */
  datatype Fields = Fields(salt: seq<byte>, iv: seq<byte>, ciphertext: seq<byte>)

  /** The bytes the encryptor leaves in its output file. */
  function Container(salt: seq<byte>, iv: seq<byte>, ciphertext: seq<byte>): (file: seq<byte>)
    requires |salt| == SaltLength && |iv| == IvLength
    ensures |file| == HeaderLength + |ciphertext|
    ensures file[..SaltLength] == salt
    ensures file[SaltLength..HeaderLength] == iv
    ensures file[HeaderLength..] == ciphertext
  {
    salt + iv + ciphertext
  }

  /**
    How the decryptor splits a file: the first 16 bytes are the salt, the next 16
    the IV, and whatever follows is ciphertext. A file too short for the header
    fails with EndOfStream.
   */
  function Parse(file: seq<byte>): (r: Result<Fields, Error>)
    ensures r.Failure? <==> |file| < HeaderLength
    ensures r.Failure? ==> r.error == EndOfStream
    ensures r.Success? ==>
      |r.value.salt| == SaltLength && |r.value.iv| == IvLength &&
      Container(r.value.salt, r.value.iv, r.value.ciphertext) == file
  {
    if |file| < HeaderLength then
      Failure(EndOfStream)
    else
      var f := Fields(file[..SaltLength], file[SaltLength..HeaderLength], file[HeaderLength..]);
      assert f.salt + f.iv + f.ciphertext == file;
      Success(f)
  }

  /** Parsing a container gives back exactly the fields it was built from. */
  lemma ParseContainer(salt: seq<byte>, iv: seq<byte>, ciphertext: seq<byte>)
    requires |salt| == SaltLength && |iv| == IvLength
    ensures Parse(Container(salt, iv, ciphertext)) == Success(Fields(salt, iv, ciphertext))
  {
  }
}
