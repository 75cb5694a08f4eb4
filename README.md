# Vault: password-based file encryption, modelled in Dafny

Vault is a console program that encrypts a file or typed text under a password
and decrypts it again. Its own logic is the container framing and the stream
handling in `EncryptFile` and `DecryptFile`:

- **Encrypt.** The output file is created or truncated. Console input is read
  into memory in full. The password is asked for. A 16-byte salt is drawn and the
  key is derived by PBKDF2 (100,000 rounds of HMAC-SHA-256, 32 bytes). A 16-byte
  IV is drawn. The salt and then the IV are written to the output. A CryptoStream
  (AES-256, CBC mode, PKCS #7 padding) over the same output then receives the
  plaintext. Console input goes in one write. A file goes through a reused
  1024-byte buffer until a read returns 0.
- **Decrypt.** Exactly 16 bytes of salt and then 16 bytes of IV are read. A
  shorter file raises EndOfStream before the password is asked for. The key is
  derived again from the password and the stored salt. The rest of the file is
  decrypted and decoded as text. The text is then either saved with
  File.WriteAllText or shown.
- **ErrorHandler.** Every exception ends the operation in the error handler.
  The model records it as an `ErrorReported` entry in the session log.

The project has these modules:

- `Format` (format.dfy): the byte type, the container layout `Container` and
  the header split `Parse`.
- `Crypto` (crypto.dfy): the PBKDF2 request, the fixed constants, and the
  primitives as the parameter `Primitives` (kdf, encrypt, decrypt). The
  library properties the proofs rely on are the predicate `Aes256CbcPkcs7`:
  PBKDF2 returns the requested length, decryption inverts encryption, and CBC
  keeps the padded length. Lemmas take it as a hypothesis. Nothing is assumed
  globally.
- `Streams` (streams.dfy): `Session` (the terminal: password prompt, key
  derivation, showing text, reporting errors, and the log of every effect),
  `InputStream` (Read, ReadExactly, ReadToEnd over a position that only moves
  forward), `OutputFile` (contents that grow by appends) and `EncryptingStream`
  (CryptoStream in write mode: it records every Write and appends the
  ciphertext of their concatenation when flushed).
- `Vault` (vault.dfy): `EncryptFile`, `DecryptFile`, the header read and the
  two encryption bodies, proved against the specification functions
  `EncryptedImage`, `DecryptBytes`/`DecryptText`, `EncryptLog` and `DecryptLog`.
- `Properties` (properties.dfy): the lemmas that relate encryption and
  decryption.

The random salt and IV and the contents of the input files are inputs of the
methods. The password the user types is the session's `answer`, which
`Session.Prompt` returns. Every effect appends a `Step` to the session's log
as it happens: creating the output, each read, each write, the prompt, the key
derivation, showing text and reporting an error. The contracts fix the order
of these logged effects (`EncryptLog`, `DecryptLog`). The key itself is a pure
function of the session's answer and the salt (`Crypto.DeriveKey`), so the
model does not pin down when its value is computed, only when the logged
derivation happens.

## Model

| member | source | states |
|---|---|---|
| Format.Container | Program.cs:118-119 | the output is the salt (bytes 0-15), then the IV (16-31), then the ciphertext (from 32); its length is 32 plus the ciphertext length |
| Format.Parse | Program.cs:172-176 | a file fails with EndOfStream exactly when it is shorter than 32 bytes; otherwise its salt is 16 bytes, its IV 16 bytes, and salt, IV and ciphertext reassemble the file |
| Format.ParseContainer | Program.cs:172-176 | parsing a container gives back the salt, IV and ciphertext it was built from |
| Crypto.PaddedLength | Program.cs:97 | the PKCS #7 padded length is the multiple of 16 strictly above the plaintext length and at most 16 bytes above it |
| Crypto.KeyRequest | Program.cs:113 | the derivation request carries the password and the salt, 100,000 iterations, SHA-256 and a 32-byte output |
| Crypto.DeriveKey | Program.cs:113-114 | the key is PBKDF2 of that request and has the 32 bytes AES-256 needs |
| Streams.ConcatJoin | Program.cs:144 | writes made one after the other hand over their bytes one after the other |
| Streams.Session.Prompt | Program.cs:100-103 | the prompt returns what the user types and is logged |
| Streams.Session.Derive | Program.cs:185-186 | returns the key for the password and salt and logs the derivation request |
| Streams.Session.Show | Program.cs:211-213 | the decrypted text shown on the console is logged |
| Streams.Session.Report | Program.cs:223-228 | the error handler logs the error that ended the operation |
| Streams.InputStream.constructor | Program.cs:167 | an opened stream stands at the start of the file's bytes |
| Streams.WriteCount | Program.cs:140-145 | writes of 1 to 1024 bytes: there are no more writes than bytes, and no more than 1024 bytes per write |
| Streams.InputStream.Read | Program.cs:142 | returns at most count bytes, the next ones of the stream, copied to the buffer at the offset; returns 0 only when count is 0 or the stream is at its end; the rest of the buffer is unchanged; the bytes read are logged |
| Streams.InputStream.ReadExactly | Program.cs:172-175 | fills the buffer with the next bytes and advances the position by its length, or fails at the end of the stream when fewer bytes remain; its underlying reads, logged in order, give exactly the bytes consumed |
| Streams.InputStream.ReadToEnd | Program.cs:92-94 | returns every byte not read yet and leaves the stream at its end |
| Streams.OutputFile.constructor | Program.cs:83 | the destination file as it was before the operation opens it |
| Streams.OutputFile.Truncate | Program.cs:83 | FileMode.Create leaves an empty file, and the creation is logged |
| Streams.OutputFile.Write | Program.cs:118-119 | a write appends its bytes, and is logged with them |
| Streams.OutputFile.WriteAll | Program.cs:206 | File.WriteAllText leaves exactly the encoded text, and is logged with it |
| Streams.EncryptingStream.constructor | Program.cs:139 | a new CryptoStream over the output with the key and IV, nothing written yet |
| Streams.EncryptingStream.Write | Program.cs:144 | each Write is recorded, and the plaintext handed over grows by the chunk |
| Streams.EncryptingStream.FlushFinalBlock | Program.cs:139-146 | disposal appends to the target the encryption of everything written, under the stream's key and IV, as one logged write |
| Vault.EncryptedImage | Program.cs:106-145 | the file the encryptor leaves starts with the salt and the IV and parses back into them and the ciphertext of the plaintext under the derived key |
| Vault.DecryptBytes | Program.cs:172-194 | decrypting fails with EndOfStream exactly when the file is shorter than the header; any other failure is a cryptographic one |
| Vault.DecryptText | Program.cs:196-198 | the text is the decoding of the decrypted bytes, and the failures are those of decryption |
| Vault.EncryptLog | Program.cs:83-145 | an encryption's log starts with creating the output and ends with the ciphertext written at disposal; console input adds one entry, file input one per write and the empty read |
| Vault.DecryptLog | Program.cs:172-221 | a decryption's log is the header reads, then one EndOfStream report for a short file, or the prompt right after the reads and three more entries ending with the save, show or error report |
| Vault.CopyChunks | Program.cs:140-145 | the read-write loop writes chunks of 1 to 1024 bytes that concatenate to the whole remaining input, stops on the empty read at the end of the input, and logs one read per write then the empty read |
| Vault.EncryptFromFile | Program.cs:139-146 | every write holds 1 to 1024 bytes, the writes concatenate to the whole remaining input, the input ends at its end, and the output gains the encryption of that input; the log holds one read per write, then the empty read, then the ciphertext write |
| Vault.EncryptBuffer | Program.cs:128-129 | the buffered console input goes to the cipher in one write, and the output gains its encryption |
| Vault.OpenInput | Program.cs:84-95 | a file input is opened at its start and nothing is read; console input is read whole into memory and that read is logged |
| Vault.WriteHeader | Program.cs:118-119 | the output gains the salt then the IV, as two logged writes |
| Vault.EncryptInput | Program.cs:121-147 | console input goes to the cipher in one write, file input in chunks of 1 to 1024 bytes; either way the chunks are the whole input and the output gains its encryption, logged after the file reads |
| Vault.EncryptFile | Program.cs:81-162 | the output is salt, then IV, then the encryption of the whole input under the key derived from the prompted password and the salt; the report gives that salt and IV; console input is one write, file input writes of 1 to 1024 bytes, at least one per 1024 bytes and no more than one per byte; the log is: create the output, read console input, prompt, derive, write salt, write IV, read file input, write the ciphertext |
| Vault.ReadHeader | Program.cs:172-175 | a stream at its start gives 16 bytes of salt then 16 of IV exactly when it holds at least 32 bytes, and otherwise ends at its end; its reads are logged and give exactly the bytes consumed |
| Vault.DecryptFile | Program.cs:163-222 | the outcome is the decrypted text (saved when an output file is given, shown otherwise) or the error; the output file is written only on success and then holds the encoded text; the log is the header reads, then either the EndOfStream report, or the prompt, the derivation from the stored salt, the ciphertext read and the save, show or error report |
| Properties.ImageLayout | Program.cs:106-119 | the encrypted file begins with the reported salt and IV and parses back into salt, IV and ciphertext |
| Properties.ImageLength | Program.cs:128-145 | the encrypted file is 32 bytes plus the padded plaintext length: a multiple of 16 and longer than 32 plus the plaintext |
| Properties.SameKeyRequest | Program.cs:185-186 | the encryption log and the log of decrypting its output both hold a key derivation with the same password, the same salt, 100,000 rounds, SHA-256 and 32 bytes |
| Properties.DecryptInvertsEncrypt | Program.cs:185-198 | decrypting an encrypted file with the same password gives the plaintext bytes back |
| Properties.TextRoundTrip | Program.cs:196-206 | a text the codec round-trips is decrypted to the same text |
| Properties.SavedFileRoundTrip | Program.cs:196-206 | decryption succeeds, and the saved file equals the original plaintext exactly when decoding then encoding keeps those bytes |
| Properties.ShortFileFailsBeforePrompt | Program.cs:172-182 | a file shorter than 32 bytes fails with EndOfStream, and its log is reads followed by the error report alone: no prompt, no key derivation, no decryption |
| Properties.EncryptOrder | Program.cs:83-142 | the output is created first; console input is read before the password prompt and file input only after it |
| Properties.EncryptThenDecrypt | Program.cs:56-77 | console text encrypted and then decrypted to the screen with the same password is shown unchanged, and the file starts with the salt |

## Left out

- The menu loop, prompts, validation lambdas, spinners, the result table and the Base64 display (Program.cs:12-80 and the UI inside the two operations): user interface. The user's answers are method inputs.
- ErrorHandler's console output and its wait for a key: I/O. A failure is the log entry `ErrorReported(error)`.
- PBKDF2, AES block encryption, CBC chaining and PKCS #7 padding: platform library code. They are the parameter `Primitives`. Decryption inverting encryption, the padded length and the key length are the hypothesis `Aes256CbcPkcs7`. They are not proved.
- Random salt and IV generation: randomness. Salt and IV are inputs, so their per-encryption uniqueness cannot be stated.
- Wrong-password detection: it rests on the padding check failing with high probability. That is a probabilistic property of CBC with PKCS #7.
- Decrypting a file of exactly 32 bytes: how the platform decryptor treats an empty ciphertext is not assumed. The model says only that the header parses and the ciphertext is empty.
- Stream.CopyTo and the CryptoStream read side: both are library loops. Each is modelled as one read of the whole remainder.
- Streams.EncryptingStream.Write: it does not model the real CryptoStream emitting full blocks to the output as it goes. Only the output after disposal is stated, and that is the same.
- File-system failures: missing files, permissions, a full disk and write errors in the middle of encryption are not modelled. The model's only failures are a short header and a rejected ciphertext. The encryptor truncates the output before doing anything else (Program.cs:83); the catch block only reports and deletes nothing (Program.cs:158-161), but without a mid-stream failure the model cannot show the partial output that is left behind.
- Vault.EncryptFile: the input and the output are separate objects, so encrypting a file onto itself is not represented. The program empties the output with FileMode.Create (Program.cs:83) before it opens and reads the input (Program.cs:85, 142), and nothing checks that the two names differ (Program.cs:34-53). Encrypting a file onto itself therefore loses the plaintext: the reads see an empty file, or the open fails after the file was emptied. The model's `output.contents == EncryptedImage(..., source.bytes)` holds only for an input that is not the output.
- Each session answers every password prompt with the same text: two operations in one session use the same password.
- The `using` disposal of the file streams and of the Aes object: resource handling. The model does not state it, except the CryptoStream's disposal, which is `Streams.EncryptingStream.FlushFinalBlock`.
- Text decoding by StreamReader (UTF-8 with byte-order-mark detection) and encoding by File.WriteAllText (UTF-8): the parameter `TextCodec`.

Three facts about the program:
- The password is asked for (Program.cs:100) before the salt is drawn (Program.cs:106). The model takes the salt as an input of `Vault.EncryptFile`, so it does not show when the salt is drawn.
- Decryption returns text decoded by StreamReader, not bytes (Program.cs:196-198). A binary file survives the trip only when decoding then encoding leaves its bytes alone (`Properties.SavedFileRoundTrip`).
- A failed encryption leaves the truncated or partial output in place: the catch block deletes nothing (Program.cs:158-161). The model has no failing encryption; see the File-system failures line under "## Left out".
