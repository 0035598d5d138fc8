/** The stream classes users hold: `ScpInputStream` over a fetching
    connection, and the single-file `ScpFileInputStream` and
    `ScpFileOutputStream`. Each method is proved to drive the connection
    exactly as the matching `ScpEngine` function says. */
module ScpStreams {
  import opened Wrappers
  import opened ScpErrors
  import opened ScpEntries
  import opened ScpWire
  import opened ScpEngine
  import opened ScpConnections

  /** `ScpInputStream`: a fetching connection and the stream of the entry
      being read, if any. */
  class ScpInputStream {
    const connection: ScpConnection
    var inputStream: EntryInputStream?

    ghost predicate Valid()
      reads this, connection, ObjectsOf(connection.stack)
    {
      && connection.Valid()
      && this !in ObjectsOf(connection.stack)
      && (inputStream != null ==> inputStream.connection == connection)
    }

    /** Opens the connection in fetch mode; the handshake cannot fail. */
    constructor (path: string, copyMode: CopyMode, remote: seq<byte>)
      ensures Valid() && fresh(connection) && inputStream == null
      ensures connection.command == Command(path, From, copyMode)
      ensures connection.Snapshot() == ScpEngine.Open(From, remote).1
    {
      var r := ScpConnection.Open(path, From, copyMode, remote);
      connection := r.value;
      inputStream := null;
    }

    /** `getNextEntry`: the connection reads the next entry, and the
        readable stream becomes the connection's current input stream (none
        for a directory or end-of-directory entry). A failure leaves the
        stream as it was. */
    method GetNextEntry() returns (r: Result<Option<ScpEntry>, ScpError>)
      requires Valid()
      modifies this, connection, ObjectsOf(connection.stack)
      ensures Valid()
      ensures (r, connection.Snapshot()) == ScpEngine.GetNextEntry(old(connection.Snapshot()))
      ensures r.Failure? ==> inputStream == old(inputStream)
      ensures r.Success? ==> inputStream == connection.GetCurrentInputStream()
    {
      r := connection.GetNextEntry();
      assert this !in ObjectsOf(connection.stack);
      if r.Failure? {
        return;
      }
      connection.CurrentStreams();
      inputStream := connection.GetCurrentInputStream();
    }

    /** `read`: refused with no current entry, otherwise the stream's own
        `read`; when that stream is still on top of the stack, this is one
        step of `ReadTop`. */
    method Read() returns (r: Result<int, ScpError>)
      requires Valid()
      modifies connection, inputStream
      ensures Valid()
      ensures inputStream == old(inputStream)
      ensures inputStream == null ==> r == Failure(NoCurrentEntry) && connection.channel == old(connection.channel)
      ensures inputStream != null ==>
                && r.Success?
                && (r.value, inputStream.ioCount, connection.channel)
                   == InputRead(inputStream.entry, old(inputStream.ioCount), old(connection.channel))
      ensures inputStream != null && old(connection.TopIs(InputFile(inputStream))) ==>
                (r.value, connection.Snapshot()) == ReadTop(old(connection.Snapshot()))
    {
      if inputStream == null {
        return Failure(NoCurrentEntry);
      }
      ghost var onTop := connection.TopIs(InputFile(inputStream));
      if !onTop {
        NotOnTop(connection.stack, InputFile(inputStream), connection);
      }
      var b := inputStream.Read();
      r := Success(b);
    }

    /** `closeEntry`: the connection closes its top frame; only once that
        succeeds is the current stream dropped. */
    method CloseEntry() returns (o: Outcome<ScpError>)
      requires Valid()
      modifies this, connection, ObjectsOf(connection.stack)
      ensures Valid()
      ensures (o, connection.Snapshot()) == ScpEngine.CloseEntry(old(connection.Snapshot()))
      ensures inputStream == if o.Pass? then null else old(inputStream)
      ensures ObjectsOf(connection.stack) == {}
    {
      o := connection.CloseEntry();
      if o.Pass? {
        inputStream := null;
      }
    }

    /** `close`: the connection unwinds and disconnects; only once that
        succeeds is the current stream dropped. */
    method Close() returns (o: Outcome<ScpError>)
      requires Valid()
      modifies this, connection, ObjectsOf(connection.stack)
      ensures Valid() && !connection.connected
      ensures (o, connection.Snapshot()) == ScpEngine.CloseAll(old(connection.Snapshot()))
      ensures inputStream == if o.Pass? then null else old(inputStream)
    {
      o := connection.Close();
      if o.Pass? {
        inputStream := null;
      }
    }
  }

  /** A stream that is not on top of a well-shaped stack is not on the
      stack at all. */
  lemma NotOnTop(frames: seq<Frame>, f: Frame, connection: ScpConnection)
    requires ValidStack(frames, connection) && !f.IsDirectory()
    requires !(|frames| > 0 && frames[|frames| - 1] == f)
    ensures forall x :: x in FrameObjects(f) ==> x !in ObjectsOf(frames)
  {
    if |frames| > 0 {
      ViewsOfTop(frames);
      PopValid(frames, connection);
    }
  }

  /** `ScpFileInputStream`: a file-only fetch whose first entry is read
      when the stream is made. */
  class ScpFileInputStream {
    const inputStream: ScpInputStream
    const scpEntry: Option<ScpEntry>

    ghost predicate Valid()
      reads this, inputStream, inputStream.connection, ObjectsOf(inputStream.connection.stack)
    {
      inputStream.Valid()
    }

    constructor (inputStream: ScpInputStream, scpEntry: Option<ScpEntry>)
      requires inputStream.Valid()
      ensures this.inputStream == inputStream && this.scpEntry == scpEntry
      ensures Valid()
    {
      this.inputStream := inputStream;
      this.scpEntry := scpEntry;
    }

    /** The Java constructor: open a `FileOnly` fetch of `path` and read
        its first entry; a failure there leaves no stream. */
    static method Open(path: string, remote: seq<byte>) returns (r: Result<ScpFileInputStream, ScpError>)
      ensures var (first, s) := ScpEngine.GetNextEntry(ScpEngine.Open(From, remote).1);
              && (r.Success? <==> first.Success?)
              && (r.Failure? ==> r.error == first.error)
              && (r.Success? ==>
                    && fresh(r.value) && fresh(r.value.inputStream) && r.value.Valid()
                    && r.value.scpEntry == first.value
                    && r.value.inputStream.connection.command == Command(path, From, FileOnly)
                    && r.value.inputStream.connection.Snapshot() == s)
    {
      var input := new ScpInputStream(path, FileOnly, remote);
      ghost var s0 := input.connection.Snapshot();
      assert s0 == ScpEngine.Open(From, remote).1;
      var first := input.GetNextEntry();
      assert (first, input.connection.Snapshot()) == ScpEngine.GetNextEntry(s0);
      if first.Failure? {
        return Failure(first.error);
      }
      var stream := new ScpFileInputStream(input, first.value);
      return Success(stream);
    }

    /** `getMode`: the first entry's mode; with no entry, Java's
        `NullPointerException`. */
    function GetMode(): (r: Result<Option<string>, ScpError>)
      ensures scpEntry.None? <==> r == Failure(NullReference)
      ensures scpEntry.Some? ==> r == Success(scpEntry.value.mode)
    {
      if scpEntry.None? then Failure(NullReference) else Success(scpEntry.value.mode)
    }

    /** `getName`. */
    function GetName(): (r: Result<Option<string>, ScpError>)
      ensures scpEntry.None? <==> r == Failure(NullReference)
      ensures scpEntry.Some? ==> r == Success(scpEntry.value.name)
    {
      if scpEntry.None? then Failure(NullReference) else Success(scpEntry.value.name)
    }

    /** `getSize`. */
    function GetSize(): (r: Result<int, ScpError>)
      ensures scpEntry.None? <==> r == Failure(NullReference)
      ensures scpEntry.Some? ==> r == Success(scpEntry.value.size)
    {
      if scpEntry.None? then Failure(NullReference) else Success(scpEntry.value.size)
    }

    /** `read`: the wrapped stream's `read`. */
    method Read() returns (r: Result<int, ScpError>)
      requires Valid()
      modifies inputStream.connection, inputStream.inputStream
      ensures Valid()
      ensures var current := inputStream.inputStream;
              && (current == null ==> r == Failure(NoCurrentEntry))
              && (current != null ==>
                    && r.Success?
                    && (r.value, current.ioCount, inputStream.connection.channel)
                       == InputRead(current.entry, old(current.ioCount), old(inputStream.connection.channel)))
              && (current != null && old(inputStream.connection.TopIs(InputFile(current))) ==>
                    (r.value, inputStream.connection.Snapshot()) == ReadTop(old(inputStream.connection.Snapshot())))
    {
      r := inputStream.Read();
    }

    /** `close`: close the entry, then the connection; a failure closing
        the entry skips the second step. */
    method Close() returns (o: Outcome<ScpError>)
      requires Valid()
      modifies inputStream, inputStream.connection, ObjectsOf(inputStream.connection.stack)
      ensures Valid()
      ensures var (o1, s1) := ScpEngine.CloseEntry(old(inputStream.connection.Snapshot()));
              if o1.Fail? then (o, inputStream.connection.Snapshot()) == (o1, s1)
              else (o, inputStream.connection.Snapshot()) == ScpEngine.CloseAll(s1)
    {
      o := inputStream.CloseEntry();
      if o.Fail? {
        return;
      }
      o := inputStream.Close();
    }
  }

  /** `ScpFileOutputStream`: a sending connection that holds exactly one
      file entry. */
  class ScpFileOutputStream {
    const connection: ScpConnection

    ghost predicate Valid()
      reads this, connection, ObjectsOf(connection.stack)
    {
      connection.Valid()
    }

    constructor (connection: ScpConnection)
      ensures this.connection == connection
    {
      this.connection := connection;
    }

    /** The Java constructor: open a `FileOnly` send to `directory` and put
        the entry; a failure in either step leaves no stream. */
    static method Open(directory: string, entry: ScpEntry, remote: seq<byte>) returns (r: Result<ScpFileOutputStream, ScpError>)
      requires entry.Valid()
      ensures var (o0, s0) := ScpEngine.Open(To, remote);
              var (o1, s1) := ScpEngine.PutNextEntry(entry, s0);
              && (r.Success? <==> o0.Pass? && o1.Pass?)
              && (r.Success? ==>
                    && fresh(r.value) && r.value.Valid()
                    && r.value.connection.command == Command(directory, To, FileOnly)
                    && r.value.connection.Snapshot() == s1)
    {
      var c := ScpConnection.Open(directory, To, FileOnly, remote);
      if c.Failure? {
        return Failure(c.error);
      }
      var stream := new ScpFileOutputStream(c.value);
      ghost var s0 := c.value.Snapshot();
      assert s0 == ScpEngine.Open(To, remote).1;
      var o := stream.connection.PutNextEntry(entry);
      assert (o, c.value.Snapshot()) == ScpEngine.PutNextEntry(entry, s0);
      if o.Fail? {
        return Failure(o.error);
      }
      return Success(stream);
    }

    /** `write`: the byte goes to the connection's current output stream,
        the one on top of the stack; it is refused once the entry's size
        has been written. */
    method Write(b: int) returns (o: Outcome<ScpError>)
      requires Valid()
      modifies connection, ObjectsOf(connection.stack)
      ensures Valid()
      ensures CurrentOutput(old(connection.Snapshot()).frames).None? ==> o == Fail(NullReference) && connection.Snapshot() == old(connection.Snapshot())
      ensures CurrentOutput(old(connection.Snapshot()).frames).Some? ==> (o, connection.Snapshot()) == WriteTop(b, old(connection.Snapshot()))
    {
      connection.CurrentStreams();
      var s := connection.GetCurrentOutputStream();
      if s == null {
        return Fail(NullReference);
      }
      o := s.Write(b);
    }

    /** `close`: close the entry, then the connection; a failure closing
        the entry skips the second step. */
    method Close() returns (o: Outcome<ScpError>)
      requires Valid()
      modifies connection, ObjectsOf(connection.stack)
      ensures Valid()
      ensures var (o1, s1) := ScpEngine.CloseEntry(old(connection.Snapshot()));
              if o1.Fail? then (o, connection.Snapshot()) == (o1, s1)
              else (o, connection.Snapshot()) == ScpEngine.CloseAll(s1)
    {
      o := connection.CloseEntry();
      if o.Fail? {
        return;
      }
      o := connection.Close();
    }
  }
}
