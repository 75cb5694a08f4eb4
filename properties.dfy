/**
  What holds between the encryptor and the decryptor, given the library laws
  of Crypto.Aes256CbcPkcs7 as hypotheses, and what the effect logs of the two
  operations say about the order of events.
 */
module Properties {
  import opened Wrappers
  import opened Format
  import opened Crypto
  import opened Streams
  import opened Vault

  /** The encrypted file starts with the reported salt and IV, and parses back into them. */
  lemma {:induction false} ImageLayout(suite: Primitives, password: string, salt: seq<byte>, iv: seq<byte>, plain: seq<byte>)
    requires |salt| == SaltLength && |iv| == IvLength
    ensures var image := EncryptedImage(suite, password, salt, iv, plain);
      image[..SaltLength] == salt && image[SaltLength..HeaderLength] == iv &&
      Parse(image) == Success(Fields(salt, iv, suite.encrypt(DeriveKey(suite, password, salt), iv, plain)))
  {
    ParseContainer(salt, iv, suite.encrypt(DeriveKey(suite, password, salt), iv, plain));
  }

  /** The container is 32 header bytes plus the plaintext padded to the next block boundary. */
  lemma {:induction false} ImageLength(suite: Primitives, password: string, salt: seq<byte>, iv: seq<byte>, plain: seq<byte>)
    requires KdfLengthLaw(suite) && PaddingLaw(suite)
    requires |salt| == SaltLength && |iv| == IvLength
    ensures |EncryptedImage(suite, password, salt, iv, plain)| == HeaderLength + PaddedLength(|plain|)
    ensures |EncryptedImage(suite, password, salt, iv, plain)| % BlockSize == 0
    ensures |EncryptedImage(suite, password, salt, iv, plain)| > HeaderLength + |plain|
  {
  }

  /**
    The decryptor reads back the salt the encryptor stored, so both derive the
    key from the same request: same password, same salt, 100,000 rounds of
    HMAC-SHA-256, 32 bytes. It holds whatever the reads and the outcome were.
   */
  lemma {:induction false} SameKeyRequest(suite: Primitives, codec: TextCodec, source: Source, password: string,
                                          salt: seq<byte>, iv: seq<byte>, writes: seq<seq<byte>>,
                                          headerReads: seq<seq<byte>>, outcome: DecryptOutcome)
    requires |salt| == SaltLength && |iv| == IvLength
    ensures var image := EncryptedImage(suite, password, salt, iv, source.bytes);
      var request := KdfRequest(password, salt, 100_000, Sha256, 32);
      KeyDerived(request) in EncryptLog(suite, source, password, salt, iv, writes) &&
      KeyDerived(request) in DecryptLog(codec, password, image, headerReads, outcome)
  {
    var image := EncryptedImage(suite, password, salt, iv, source.bytes);
    ImageLayout(suite, password, salt, iv, source.bytes);
    ReadEventsAt(headerReads);
    var log := DecryptLog(codec, password, image, headerReads, outcome);
    assert log[|headerReads| + 1] == KeyDerived(KeyRequest(password, salt));
    var encryptLog := EncryptLog(suite, source, password, salt, iv, writes);
    var k := if source.Console? then 3 else 2;
    assert encryptLog[k] == KeyDerived(KeyRequest(password, salt));
  }

  /** Decrypting with the password used to encrypt gives the plaintext back. */
  lemma {:induction false} DecryptInvertsEncrypt(suite: Primitives, password: string, salt: seq<byte>, iv: seq<byte>, plain: seq<byte>)
    requires Aes256CbcPkcs7(suite)
    requires |salt| == SaltLength && |iv| == IvLength
    ensures DecryptBytes(suite, password, EncryptedImage(suite, password, salt, iv, plain)) == Success(plain)
  {
    ImageLayout(suite, password, salt, iv, plain);
  }

  /** At text level: a text encoded, encrypted and decrypted comes back unchanged when the codec round-trips it. */
  lemma {:induction false} TextRoundTrip(suite: Primitives, codec: TextCodec, password: string, salt: seq<byte>, iv: seq<byte>, text: string)
    requires Aes256CbcPkcs7(suite)
    requires |salt| == SaltLength && |iv| == IvLength
    requires codec.decode(codec.encode(text)) == text
    ensures DecryptText(suite, codec, password, EncryptedImage(suite, password, salt, iv, codec.encode(text))) == Success(text)
  {
    DecryptInvertsEncrypt(suite, password, salt, iv, codec.encode(text));
  }

  /**
    The file the decryptor saves is the original plaintext exactly when
    decoding then encoding leaves those bytes alone: arbitrary binary input
    does not survive the text step.
   */
  lemma {:induction false} SavedFileRoundTrip(suite: Primitives, codec: TextCodec, password: string, salt: seq<byte>, iv: seq<byte>, plain: seq<byte>)
    requires Aes256CbcPkcs7(suite)
    requires |salt| == SaltLength && |iv| == IvLength
    ensures var r := DecryptText(suite, codec, password, EncryptedImage(suite, password, salt, iv, plain));
      r.Success? && (codec.encode(r.value) == plain <==> codec.encode(codec.decode(plain)) == plain)
  {
    DecryptInvertsEncrypt(suite, password, salt, iv, plain);
  }

  /**
    A file shorter than the header fails with EndOfStream: after its reads the
    log holds only the error report, with no prompt and no key derivation.
   */
  lemma {:induction false} ShortFileFailsBeforePrompt(suite: Primitives, codec: TextCodec, password: string, file: seq<byte>,
                                                      headerReads: seq<seq<byte>>, outcome: DecryptOutcome)
    requires |file| < HeaderLength
    ensures DecryptText(suite, codec, password, file) == Failure(EndOfStream)
    ensures var log := DecryptLog(codec, password, file, headerReads, outcome);
      log[|log| - 1] == ErrorReported(EndOfStream) &&
      forall i :: 0 <= i < |log| - 1 ==> log[i].InputRead?
  {
    ReadEventsAt(headerReads);
  }

  /**
    Encryption creates the output before anything else. Console input is read,
    whole, before the password prompt; file input is read only after it.
   */
  lemma {:induction false} EncryptOrder(suite: Primitives, source: Source, password: string, salt: seq<byte>, iv: seq<byte>,
                                        writes: seq<seq<byte>>)
    ensures var log := EncryptLog(suite, source, password, salt, iv, writes);
      log[0] == OutputCreated &&
      (exists j :: 0 <= j < |log| && log[j] == PasswordPrompted) &&
      forall i, j :: 0 <= i < |log| && 0 <= j < |log| && log[i].InputRead? && log[j] == PasswordPrompted ==>
        (i < j <==> source.Console?)
  {
    var log := EncryptLog(suite, source, password, salt, iv, writes);
    ReadEventsAt(writes);
    var p := if source.Console? then 2 else 1;
    assert log[p] == PasswordPrompted;
    forall j | 0 <= j < |log| && log[j] == PasswordPrompted
      ensures j == p
    {
    }
    forall i | 0 <= i < |log| && log[i].InputRead?
      ensures i < p <==> source.Console?
    {
    }
  }

  /**
    Console text encrypted into a file and that file decrypted to the screen
    with the same password: the text shown is the text typed.
   */
  method EncryptThenDecrypt(session: Session, suite: Primitives, codec: TextCodec, output: OutputFile,
                            salt: seq<byte>, iv: seq<byte>, text: string)
    returns (outcome: DecryptOutcome)
    requires Aes256CbcPkcs7(suite)
    requires |salt| == SaltLength && |iv| == IvLength
    requires codec.decode(codec.encode(text)) == text
    requires output.session == session
    modifies output, session`log
    ensures outcome == Shown(text)
    ensures |output.contents| >= HeaderLength && output.contents[..SaltLength] == salt
  {
    var report, writes := EncryptFile(session, suite, output, Console(codec.encode(text)), salt, iv);
    TextRoundTrip(suite, codec, session.answer, salt, iv, text);
    ghost var headerReads;
    outcome, headerReads := DecryptFile(session, suite, codec, output.contents, null);
  }
}
