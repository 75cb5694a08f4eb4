/**
  The encrypt and decrypt operations of the Vault program. The random salt and
  IV and the contents of the files are inputs; the password comes from the
  session's prompt, and every effect lands in the session's log.
 */
module Vault {
  import opened Wrappers
  import opened Format
  import opened Crypto
  import opened Streams

  /** Where the plaintext comes from: a named file, or the console when no file is named. */
  datatype Source = File(bytes: seq<byte>) | Console(bytes: seq<byte>)

  /** Decoding of the decrypted bytes (StreamReader) and encoding for File.WriteAllText. */
  datatype TextCodec = TextCodec(decode: seq<byte> -> string, encode: string -> seq<byte>)

  /** The salt and IV the encryptor displays. */
  datatype Report = Report(salt: seq<byte>, iv: seq<byte>)

  datatype DecryptOutcome = Saved(text: string) | Shown(text: string) | Failed(error: Error)

  /** The file the encryptor writes for a password, salt, IV and plaintext. */
  function EncryptedImage(suite: Primitives, password: string, salt: seq<byte>, iv: seq<byte>, plain: seq<byte>): (image: seq<byte>)
    requires |salt| == SaltLength && |iv| == IvLength
    ensures |image| >= HeaderLength && image[..SaltLength] == salt && image[SaltLength..HeaderLength] == iv
    ensures Parse(image) == Success(Fields(salt, iv, suite.encrypt(DeriveKey(suite, password, salt), iv, plain)))
  {
    var ciphertext := suite.encrypt(DeriveKey(suite, password, salt), iv, plain);
    ParseContainer(salt, iv, ciphertext);
    Container(salt, iv, ciphertext)
  }

  /** What the decryptor recovers from a file: a header failure, a decryptor failure, or plaintext. */
  function DecryptBytes(suite: Primitives, password: string, file: seq<byte>): (r: Result<seq<byte>, Error>)
    ensures r == Failure(EndOfStream) <==> |file| < HeaderLength
    ensures r.Failure? && |file| >= HeaderLength ==> r.error == CryptographicFailure
  {
    match Parse(file)
    case Failure(e) => Failure(e)
    case Success(f) =>
      match suite.decrypt(DeriveKey(suite, password, f.salt), f.iv, f.ciphertext)
      case None => Failure(CryptographicFailure)
      case Some(plain) => Success(plain)
  }

  /** The text StreamReader produces: the decrypted bytes decoded, or the same failure. */
  function DecryptText(suite: Primitives, codec: TextCodec, password: string, file: seq<byte>): (r: Result<string, Error>)
    ensures r.Failure? <==> DecryptBytes(suite, password, file).Failure?
    ensures r.Failure? ==> r.error == DecryptBytes(suite, password, file).error
    ensures r.Success? ==> r.value == codec.decode(DecryptBytes(suite, password, file).value)
  {
    match DecryptBytes(suite, password, file)
    case Failure(e) => Failure(e)
    case Success(plain) => Success(codec.decode(plain))
  }

  /**
    The log of an encryption: the output is created, console input is read
    whole, the password is asked for and the key derived, the salt and IV are
    written, file input is read chunk by chunk up to the empty read, and the
    ciphertext is written when the CryptoStream is disposed.
   */
  function EncryptLog(suite: Primitives, source: Source, password: string, salt: seq<byte>, iv: seq<byte>,
                      writes: seq<seq<byte>>): (log: seq<Step>)
    ensures |log| == if source.Console? then 7 else 7 + |writes|
    ensures log[0] == OutputCreated
    ensures log[|log| - 1] == OutputWritten(suite.encrypt(DeriveKey(suite, password, salt), iv, source.bytes))
  {
    ReadEventsAt(writes);
    [OutputCreated]
    + (if source.Console? then [InputRead(source.bytes)] else [])
    + [PasswordPrompted, KeyDerived(KeyRequest(password, salt)), OutputWritten(salt), OutputWritten(iv)]
    + (if source.File? then ReadEvents(writes) + [InputRead([])] else [])
    + [OutputWritten(suite.encrypt(DeriveKey(suite, password, salt), iv, source.bytes))]
  }

  /** The last effect of a decryption. */
  function Conclusion(codec: TextCodec, outcome: DecryptOutcome): Step
  {
    match outcome
    case Failed(e) => ErrorReported(e)
    case Saved(text) => FileReplaced(codec.encode(text))
    case Shown(text) => TextShown(text)
  }

  /**
    The log of a decryption: the header reads; then either the EndOfStream
    report, or the prompt, the key derivation from the stored salt, the read
    of the ciphertext and the conclusion.
   */
  function DecryptLog(codec: TextCodec, password: string, file: seq<byte>, headerReads: seq<seq<byte>>,
                      outcome: DecryptOutcome): (log: seq<Step>)
    ensures |log| == |headerReads| + if |file| < HeaderLength then 1 else 4
    ensures |file| >= HeaderLength ==> log[|headerReads|] == PasswordPrompted
    ensures log[|log| - 1] == if |file| < HeaderLength then ErrorReported(EndOfStream) else Conclusion(codec, outcome)
  {
    ReadEventsAt(headerReads);
    ReadEvents(headerReads)
    + if |file| < HeaderLength then
        [ErrorReported(EndOfStream)]
      else
        [PasswordPrompted, KeyDerived(KeyRequest(password, file[..SaltLength])),
         InputRead(file[HeaderLength..]), Conclusion(codec, outcome)]
  }

  /** A slice of a sequence is its two halves around any point in between. */
  lemma SliceSplit(data: seq<byte>, i: nat, j: nat, k: nat)
    requires i <= j <= k <= |data|
    ensures data[i..k] == data[i..j] + data[j..k]
  {
  }

  /**
    The copy loop of the file-source body: a 1024-byte buffer is refilled
    from the input until a read returns 0, and each read's bytes are written
    to the CryptoStream.
   */
  method CopyChunks(input: InputStream, cryptoStream: EncryptingStream) returns (writes: seq<seq<byte>>)
    requires input.Valid() && !cryptoStream.finished && cryptoStream.writes == []
    modifies input, input.session`log, cryptoStream`writes
    ensures input.Valid() && input.position == |input.data|
    ensures cryptoStream.writes == writes
    ensures Concat(writes) == old(input.Remaining())
    ensures forall i :: 0 <= i < |writes| ==> 0 < |writes[i]| <= BufferSize
    ensures input.session.log == old(input.session.log) + ReadEvents(writes) + [InputRead([])]
  {
    var session := input.session;
    ghost var start := input.position;
    var buffer := new byte[BufferSize];
    var bytesRead: nat := input.Read(buffer, 0, buffer.Length);
    var chunk := buffer[..bytesRead];
    writes := [];
    while bytesRead > 0
      invariant input.Valid() && buffer.Length == BufferSize
      invariant |chunk| == bytesRead <= BufferSize && start + bytesRead <= input.position
      invariant cryptoStream.writes == writes
      invariant Concat(writes) + chunk == input.data[start..input.position]
      invariant bytesRead == 0 ==> input.position == |input.data|
      invariant forall i :: 0 <= i < |writes| ==> 0 < |writes[i]| <= BufferSize
      invariant session.log == old(session.log) + ReadEvents(writes) + [InputRead(chunk)]
      decreases |input.data| - input.position + bytesRead
    {
      AppendOne(writes, chunk);
      cryptoStream.Write(chunk);
      writes := writes + [chunk];
      ghost var before := input.position;
      bytesRead := input.Read(buffer, 0, buffer.Length);
      chunk := buffer[..bytesRead];
      SliceSplit(input.data, start, before, input.position);
    }
  }

  /**
    The file-source body: a CryptoStream over the output receives the input
    chunk by chunk and is then disposed.
   */
  method EncryptFromFile(input: InputStream, output: OutputFile, suite: Primitives, key: seq<byte>, iv: seq<byte>)
    returns (writes: seq<seq<byte>>)
    requires input.Valid() && input.session == output.session
    modifies input, output, input.session`log
    ensures input.Valid() && input.position == |input.data|
    ensures Concat(writes) == old(input.Remaining())
    ensures forall i :: 0 <= i < |writes| ==> 0 < |writes[i]| <= BufferSize
    ensures output.contents == old(output.contents) + suite.encrypt(key, iv, old(input.Remaining()))
    ensures input.session.log == old(input.session.log) + ReadEvents(writes)
      + [InputRead([]), OutputWritten(suite.encrypt(key, iv, old(input.Remaining())))]
  {
    var cryptoStream := new EncryptingStream(output, suite, key, iv);
    writes := CopyChunks(input, cryptoStream);
    cryptoStream.FlushFinalBlock();
  }

  /** The console-source body: the buffered input goes to the CryptoStream in one Write. */
  method EncryptBuffer(plainBytes: seq<byte>, output: OutputFile, suite: Primitives, key: seq<byte>, iv: seq<byte>)
    returns (writes: seq<seq<byte>>)
    modifies output, output.session`log
    ensures writes == [plainBytes]
    ensures output.contents == old(output.contents) + suite.encrypt(key, iv, plainBytes)
    ensures output.session.log == old(output.session.log) + [OutputWritten(suite.encrypt(key, iv, plainBytes))]
  {
    var cryptoStream := new EncryptingStream(output, suite, key, iv);
    cryptoStream.Write(plainBytes);
    assert cryptoStream.Plaintext() == plainBytes;
    cryptoStream.FlushFinalBlock();
    writes := cryptoStream.writes;
  }

  /**
    The input of an encryption: a file is opened at its start; console input
    is read whole into memory before anything else happens.
   */
  method OpenInput(session: Session, source: Source) returns (inStream: InputStream, plainBytes: seq<byte>)
    modifies session`log
    ensures fresh(inStream) && inStream.session == session && inStream.data == source.bytes && inStream.Valid()
    ensures source.Console? ==> plainBytes == source.bytes
    ensures source.File? ==> inStream.Remaining() == source.bytes
    ensures session.log == old(session.log) + if source.Console? then [InputRead(source.bytes)] else []
  {
    inStream := new InputStream(session, source.bytes);
    plainBytes := [];
    if source.Console? {
      plainBytes := inStream.ReadToEnd();
    }
  }

  /** The header: the salt, then the IV, each in one write to the output. */
  method WriteHeader(output: OutputFile, salt: seq<byte>, iv: seq<byte>)
    modifies output, output.session`log
    ensures output.contents == old(output.contents) + salt + iv
    ensures output.session.log == old(output.session.log) + [OutputWritten(salt), OutputWritten(iv)]
  {
    output.Write(salt);
    output.Write(iv);
  }

  /**
    The encryption of the input behind the header: buffered console input in
    one write, file input chunk by chunk.
   */
  method EncryptInput(source: Source, plainBytes: seq<byte>, inStream: InputStream, output: OutputFile,
                      suite: Primitives, key: seq<byte>, iv: seq<byte>)
    returns (writes: seq<seq<byte>>)
    requires inStream.Valid() && inStream.session == output.session
    requires source.Console? ==> plainBytes == source.bytes
    requires source.File? ==> inStream.Remaining() == source.bytes
    modifies inStream, output, output.session`log
    ensures Concat(writes) == source.bytes
    ensures source.Console? ==> writes == [source.bytes]
    ensures source.File? ==> forall i :: 0 <= i < |writes| ==> 0 < |writes[i]| <= BufferSize
    ensures output.contents == old(output.contents) + suite.encrypt(key, iv, source.bytes)
    ensures output.session.log == old(output.session.log)
      + (if source.File? then ReadEvents(writes) + [InputRead([])] else [])
      + [OutputWritten(suite.encrypt(key, iv, source.bytes))]
  {
    if source.Console? {
      writes := EncryptBuffer(plainBytes, output, suite, key, iv);
      assert Concat(writes) == plainBytes + Concat([]);
    } else {
      writes := EncryptFromFile(inStream, output, suite, key, iv);
    }
  }

  /** Appending to a log in two steps is appending the two parts at once. */
  lemma AppendAssoc(a: seq<Step>, b: seq<Step>, c: seq<Step>)
    ensures (a + b) + c == a + (b + c)
  {
  }

  /**
    EncryptFile: create the output, buffer console input, take the password,
    derive the key from the salt, write salt then IV, then encrypt the whole
    input behind them. salt and iv are the random generator's output.
   */
  method EncryptFile(session: Session, suite: Primitives, output: OutputFile, source: Source, salt: seq<byte>, iv: seq<byte>)
    returns (report: Report, writes: seq<seq<byte>>)
    requires |salt| == SaltLength && |iv| == IvLength
    requires output.session == session
    modifies output, session`log
    ensures output.contents == EncryptedImage(suite, session.answer, salt, iv, source.bytes)
    ensures report == Report(salt, iv)
    ensures Concat(writes) == source.bytes
    ensures source.Console? ==> writes == [source.bytes]
    ensures source.File? ==> forall i :: 0 <= i < |writes| ==> 0 < |writes[i]| <= BufferSize
    ensures source.File? ==> |writes| <= |source.bytes| <= BufferSize * |writes|
    ensures session.log == old(session.log) + EncryptLog(suite, source, session.answer, salt, iv, writes)
  {
    ghost var start := session.log;
    output.Truncate();
    var inStream, plainBytes := OpenInput(session, source);
    ghost var consoleRead := if source.Console? then [InputRead(source.bytes)] else [];
    AppendAssoc(start, [OutputCreated], consoleRead);
    var password := session.Prompt();
    var key := session.Derive(suite, password, salt);
    WriteHeader(output, salt, iv);
    ghost var created := [OutputCreated] + consoleRead;
    ghost var header := [PasswordPrompted, KeyDerived(KeyRequest(password, salt)), OutputWritten(salt), OutputWritten(iv)];
    assert session.log == (start + created) + header;
    AppendAssoc(start, created, header);
    writes := EncryptInput(source, plainBytes, inStream, output, suite, key, iv);
    if source.File? {
      WriteCount(writes);
      assert |Concat(writes)| == |source.bytes|;
    }
    ghost var fileReads := if source.File? then ReadEvents(writes) + [InputRead([])] else [];
    ghost var last := [OutputWritten(suite.encrypt(key, iv, source.bytes))];
    AppendAssoc(start, created + header, fileReads);
    AppendAssoc(start, created + header + fileReads, last);
    assert EncryptedImage(suite, session.answer, salt, iv, source.bytes) == salt + iv + suite.encrypt(key, iv, source.bytes);
    report := Report(salt, iv);
  }

  /**
    The header read: ReadExactly into a new 16-byte salt array, then into a new
    16-byte IV array. pieces are the underlying reads of both calls.
   */
  method ReadHeader(inFs: InputStream) returns (ok: bool, salt: seq<byte>, iv: seq<byte>, ghost pieces: seq<seq<byte>>)
    requires inFs.Valid() && inFs.position == 0
    modifies inFs, inFs.session`log
    ensures inFs.Valid()
    ensures ok <==> |inFs.data| >= HeaderLength
    ensures ok ==> inFs.position == HeaderLength && salt == inFs.data[..SaltLength] && iv == inFs.data[SaltLength..HeaderLength]
    ensures !ok ==> inFs.position == |inFs.data|
    ensures Concat(pieces) == inFs.data[..inFs.position]
    ensures inFs.session.log == old(inFs.session.log) + ReadEvents(pieces)
  {
    var saltBuffer := new byte[SaltLength];
    ok, pieces := inFs.ReadExactly(saltBuffer);
    salt, iv := saltBuffer[..], [];
    if !ok {
      return;
    }
    var ivBuffer := new byte[IvLength];
    ghost var ivReads;
    ok, ivReads := inFs.ReadExactly(ivBuffer);
    ConcatJoin(pieces, ivReads);
    ReadEventsJoin(pieces, ivReads);
    assert inFs.data[..inFs.position] == inFs.data[..SaltLength] + inFs.data[SaltLength..inFs.position];
    pieces := pieces + ivReads;
    iv := ivBuffer[..];
  }

  /**
    DecryptFile: read the header, take the password, derive the key from the
    stored salt, decrypt the rest of the file and decode it as text; then save
    it (File.WriteAllText) or show it. A short header or a rejected ciphertext
    goes to the error handler. headerReads are the reads of the header.
   */
  method DecryptFile(session: Session, suite: Primitives, codec: TextCodec, file: seq<byte>, saveTo: OutputFile?)
    returns (outcome: DecryptOutcome, ghost headerReads: seq<seq<byte>>)
    requires saveTo != null ==> saveTo.session == session
    modifies session`log, saveTo
    ensures outcome.Failed? <==> DecryptText(suite, codec, session.answer, file).Failure?
    ensures outcome.Failed? ==> outcome.error == DecryptText(suite, codec, session.answer, file).error
    ensures !outcome.Failed? ==> outcome.text == DecryptText(suite, codec, session.answer, file).value
    ensures !outcome.Failed? ==> (outcome.Saved? <==> saveTo != null)
    ensures saveTo != null ==> saveTo.contents == if outcome.Saved? then codec.encode(outcome.text) else old(saveTo.contents)
    ensures Concat(headerReads) == file[..if |file| < HeaderLength then |file| else HeaderLength]
    ensures session.log == old(session.log) + DecryptLog(codec, session.answer, file, headerReads, outcome)
  {
    ghost var start := session.log;
    var inFs := new InputStream(session, file);
    var ok, salt, iv;
    ok, salt, iv, headerReads := ReadHeader(inFs);
    ghost var afterHeader := session.log;
    if !ok {
      session.Report(EndOfStream);
      outcome := Failed(EndOfStream);
      AppendAssoc(start, ReadEvents(headerReads), [ErrorReported(EndOfStream)]);
      return;
    }
    var password := session.Prompt();
    var key := session.Derive(suite, password, salt);
    var ciphertext := inFs.ReadToEnd();
    assert Parse(file) == Success(Fields(salt, iv, ciphertext));
    ghost var steps := [PasswordPrompted, KeyDerived(KeyRequest(password, salt)), InputRead(ciphertext)];
    assert session.log == afterHeader + steps;
    var decrypted := suite.decrypt(key, iv, ciphertext);
    if decrypted.None? {
      session.Report(CryptographicFailure);
      outcome := Failed(CryptographicFailure);
    } else {
      var decryptedText := codec.decode(decrypted.value);
      if saveTo != null {
        saveTo.WriteAll(codec.encode(decryptedText));
        outcome := Saved(decryptedText);
      } else {
        session.Show(decryptedText);
        outcome := Shown(decryptedText);
      }
    }
    assert session.log == (afterHeader + steps) + [Conclusion(codec, outcome)];
    AppendAssoc(afterHeader, steps, [Conclusion(codec, outcome)]);
    AppendAssoc(start, ReadEvents(headerReads), steps + [Conclusion(codec, outcome)]);
  }
}
