/**
  The streams the program works through and the session they act in: a file or
  standard input read from a position that only moves forward, an output file
  that grows by appends, the encrypting stream in front of the output file, and
  the terminal that prompts, shows and reports. Each effect appends a Step to
  the session's log, so the log is the order in which things happened.
 */
module Streams {
  import opened Format
  import opened Crypto

  /** The size of the buffer the file-source loop reuses. */
  const BufferSize: nat := 1024

  /** One observable effect. */
  datatype Step =
    | OutputCreated                    // FileMode.Create made the output file empty
    | OutputWritten(bytes: seq<byte>)  // a write appended these bytes to the output file
    | FileReplaced(bytes: seq<byte>)   // File.WriteAllText left exactly these bytes
    | InputRead(bytes: seq<byte>)      // one read returned these bytes (none at the end)
    | PasswordPrompted
    | KeyDerived(request: KdfRequest)
    | TextShown(text: string)
    | ErrorReported(error: Error)      // the error handler ended the operation

  /** The bytes of a sequence of writes, in order. */
  function Concat(chunks: seq<seq<byte>>): seq<byte>
  {
    if chunks == [] then [] else chunks[0] + Concat(chunks[1..])
  }

  /** The log entries of a sequence of reads, one per read. */
  function ReadEvents(chunks: seq<seq<byte>>): seq<Step>
  {
    if chunks == [] then [] else [InputRead(chunks[0])] + ReadEvents(chunks[1..])
  }

  /** Writes joined one after the other give their bytes one after the other. */
  lemma {:induction false} ConcatJoin(a: seq<seq<byte>>, b: seq<seq<byte>>)
    ensures Concat(a + b) == Concat(a) + Concat(b)
  {
    if a == [] {
      assert [] + b == b;
    } else {
      assert (a + b)[0] == a[0];
      assert (a + b)[1..] == a[1..] + b;
      ConcatJoin(a[1..], b);
    }
  }

  /** Reads joined one after the other log their entries one after the other. */
  lemma {:induction false} ReadEventsJoin(a: seq<seq<byte>>, b: seq<seq<byte>>)
    ensures ReadEvents(a + b) == ReadEvents(a) + ReadEvents(b)
  {
    if a == [] {
      assert [] + b == b;
    } else {
      assert (a + b)[0] == a[0];
      assert (a + b)[1..] == a[1..] + b;
      ReadEventsJoin(a[1..], b);
    }
  }

  /** The k-th entry of the reads' log is the k-th read, and nothing else is in it. */
  lemma {:induction false} ReadEventsAt(chunks: seq<seq<byte>>)
    ensures |ReadEvents(chunks)| == |chunks|
    ensures forall k :: 0 <= k < |chunks| ==> ReadEvents(chunks)[k] == InputRead(chunks[k])
  {
    if chunks != [] {
      ReadEventsAt(chunks[1..]);
      assert forall k :: 1 <= k < |chunks| ==> chunks[1..][k - 1] == chunks[k];
    }
  }

  /** One more write adds its bytes at the end, and one more read its entry. */
  lemma AppendOne(chunks: seq<seq<byte>>, last: seq<byte>)
    ensures Concat(chunks + [last]) == Concat(chunks) + last
    ensures ReadEvents(chunks + [last]) == ReadEvents(chunks) + [InputRead(last)]
  {
    ConcatJoin(chunks, [last]);
    ReadEventsJoin(chunks, [last]);
    assert Concat([last]) == last + Concat([]);
    assert ReadEvents([last]) == [InputRead(last)] + ReadEvents([]);
  }

  /**
    Writes of 1 to BufferSize bytes each: there are at least as many bytes as
    writes, and at most BufferSize bytes per write.
   */
  lemma {:induction false} WriteCount(chunks: seq<seq<byte>>)
    requires forall i :: 0 <= i < |chunks| ==> 0 < |chunks[i]| <= BufferSize
    ensures |chunks| <= |Concat(chunks)| <= BufferSize * |chunks|
  {
    if chunks != [] {
      assert forall i :: 0 <= i < |chunks[1..]| ==> chunks[1..][i] == chunks[i + 1];
      WriteCount(chunks[1..]);
    }
  }

  /**
    One run of the program at its terminal. answer is what the user types at
    the password prompt; the log holds every effect so far.
   */
  class Session {
    const answer: string
    var log: seq<Step>

    constructor (answer: string)
      ensures this.answer == answer && log == []
    {
      this.answer := answer;
      log := [];
    }

    /** The secret password prompt. */
    method Prompt() returns (password: string)
      modifies this`log
      ensures password == answer
      ensures log == old(log) + [PasswordPrompted]
    {
      password := answer;
      log := log + [PasswordPrompted];
    }

    /** Rfc2898DeriveBytes(password, salt, 100_000, SHA256).GetBytes(32). */
    method Derive(suite: Primitives, password: string, salt: seq<byte>) returns (key: seq<byte>)
      modifies this`log
      ensures key == DeriveKey(suite, password, salt)
      ensures log == old(log) + [KeyDerived(KeyRequest(password, salt))]
    {
      key := DeriveKey(suite, password, salt);
      log := log + [KeyDerived(KeyRequest(password, salt))];
    }

    /** The decrypted text printed to the console. */
    method Show(text: string)
      modifies this`log
      ensures log == old(log) + [TextShown(text)]
    {
      log := log + [TextShown(text)];
    }

    /** ErrorHandler: the error is reported and the operation ends. */
    method Report(error: Error)
      modifies this`log
      ensures log == old(log) + [ErrorReported(error)]
    {
      log := log + [ErrorReported(error)];
    }
  }

  /** A readable stream: a FileStream opened with FileMode.Open, or standard input. */
  class InputStream {
    const session: Session
    const data: seq<byte>
    var position: nat

    ghost predicate Valid()
      reads this
    {
      position <= |data|
    }

    /** The bytes not read yet. */
    ghost function Remaining(): seq<byte>
      reads this
      requires Valid()
    {
      data[position..]
    }

    /** Opening a stream positions it at the start of its bytes. */
    constructor (session: Session, contents: seq<byte>)
      ensures Valid() && this.session == session && data == contents && position == 0
    {
      this.session := session;
      data := contents;
      position := 0;
    }

    /**
      Stream.Read(buffer, offset, count): copies up to count bytes into
      buffer[offset..] and returns how many. Callers may rely only on this
      contract: a read can be short, and it returns 0 only when count is 0 or
      the stream is at its end.
     */
    method Read(buffer: array<byte>, offset: nat, count: nat) returns (n: nat)
      requires Valid() && offset + count <= buffer.Length
      modifies this, buffer, session`log
      ensures Valid()
      ensures n <= count && position == old(position) + n
      ensures n == 0 <==> count == 0 || old(position) == |data|
      ensures buffer[offset..offset + n] == data[old(position)..position]
      ensures buffer[..offset] == old(buffer[..offset])
      ensures buffer[offset + n..] == old(buffer[offset + n..])
      ensures session.log == old(session.log) + [InputRead(data[old(position)..position])]
    {
      n := if count < |data| - position then count else |data| - position;
      forall i | 0 <= i < n {
        buffer[offset + i] := data[position + i];
      }
      session.log := session.log + [InputRead(data[position..position + n])];
      position := position + n;
    }

    /**
      Stream.ReadExactly(buffer): reads until the buffer is full. Meeting the
      end of the stream first is the EndOfStreamException, here ok == false.
      pieces are the results of the underlying reads.
     */
    method ReadExactly(buffer: array<byte>) returns (ok: bool, ghost pieces: seq<seq<byte>>)
      requires Valid()
      modifies this, buffer, session`log
      ensures Valid()
      ensures ok <==> buffer.Length <= |data| - old(position)
      ensures ok ==> position == old(position) + buffer.Length && buffer[..] == data[old(position)..position]
      ensures !ok ==> position == |data|
      ensures Concat(pieces) == data[old(position)..position]
      ensures session.log == old(session.log) + ReadEvents(pieces)
    {
      var total := 0;
      pieces := [];
      while total < buffer.Length
        invariant Valid() && total <= buffer.Length
        invariant position == old(position) + total
        invariant buffer[..total] == data[old(position)..position]
        invariant Concat(pieces) == data[old(position)..position]
        invariant session.log == old(session.log) + ReadEvents(pieces)
      {
        ghost var before := position;
        var n := Read(buffer, total, buffer.Length - total);
        AppendOne(pieces, data[before..position]);
        pieces := pieces + [data[before..position]];
        if n == 0 {
          return false, pieces;
        }
        assert buffer[..total + n] == buffer[..total] + buffer[total..total + n];
        total := total + n;
      }
      assert buffer[..] == buffer[..total];
      return true, pieces;
    }

    /** Everything from the current position to the end (Stream.CopyTo, StreamReader.ReadToEnd). */
    method ReadToEnd() returns (rest: seq<byte>)
      requires Valid()
      modifies this, session`log
      ensures Valid() && position == |data|
      ensures rest == old(Remaining())
      ensures session.log == old(session.log) + [InputRead(rest)]
    {
      rest := data[position..];
      position := |data|;
      session.log := session.log + [InputRead(rest)];
    }
  }

  /** A file opened for writing; every write appends. */
  class OutputFile {
    const session: Session
    var contents: seq<byte>

    /** The named destination file, holding whatever it held before the operation. */
    constructor (session: Session, existing: seq<byte>)
      ensures this.session == session && contents == existing
    {
      this.session := session;
      contents := existing;
    }

    /** Opening with FileMode.Create empties an existing file. */
    method Truncate()
      modifies this, session`log
      ensures contents == []
      ensures session.log == old(session.log) + [OutputCreated]
    {
      contents := [];
      session.log := session.log + [OutputCreated];
    }

    method Write(bytes: seq<byte>)
      modifies this, session`log
      ensures contents == old(contents) + bytes
      ensures session.log == old(session.log) + [OutputWritten(bytes)]
    {
      contents := contents + bytes;
      session.log := session.log + [OutputWritten(bytes)];
    }

    /** File.WriteAllText: the file holds exactly the encoded text. */
    method WriteAll(bytes: seq<byte>)
      modifies this, session`log
      ensures contents == bytes
      ensures session.log == old(session.log) + [FileReplaced(bytes)]
    {
      contents := bytes;
      session.log := session.log + [FileReplaced(bytes)];
    }
  }

  /**
    A CryptoStream in write mode over an output file. It keeps the plaintext
    of each Write call; disposing it (FlushFinalBlock) pads, encrypts and
    appends the ciphertext of everything written to the target.
   */
  class EncryptingStream {
    const target: OutputFile
    const suite: Primitives
    const key: seq<byte>
    const iv: seq<byte>
    var writes: seq<seq<byte>>
    var finished: bool

    constructor (target: OutputFile, suite: Primitives, key: seq<byte>, iv: seq<byte>)
      ensures this.target == target && this.suite == suite && this.key == key && this.iv == iv
      ensures writes == [] && !finished
    {
      this.target := target;
      this.suite := suite;
      this.key := key;
      this.iv := iv;
      writes := [];
      finished := false;
    }

    /** The plaintext handed over so far. */
    ghost function Plaintext(): seq<byte>
      reads this
    {
      Concat(writes)
    }

    method Write(chunk: seq<byte>)
      requires !finished
      modifies this`writes
      ensures writes == old(writes) + [chunk]
      ensures Plaintext() == old(Plaintext()) + chunk
    {
      AppendOne(writes, chunk);
      writes := writes + [chunk];
    }

    method FlushFinalBlock()
      requires !finished
      modifies this`finished, target, target.session`log
      ensures finished
      ensures target.contents == old(target.contents) + suite.encrypt(key, iv, Plaintext())
      ensures target.session.log == old(target.session.log) + [OutputWritten(suite.encrypt(key, iv, Plaintext()))]
    {
      target.Write(suite.encrypt(key, iv, Concat(writes)));
      finished := true;
    }
  }
}
