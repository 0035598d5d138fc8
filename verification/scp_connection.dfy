/** `ScpConnection` and its inner stream classes, as objects whose fields
    change in place. Every method is proved to do what the matching
    function of `ScpEngine` says, on a snapshot of the connection. */
module ScpConnections {
  import opened Wrappers
  import opened JavaText
  import opened ScpErrors
  import opened ScpEntries
  import opened ScpWire
  import opened ScpEngine

  /** An element of the entry stack; file entries are the stream objects
      handed out by `getCurrentInputStream` / `getCurrentOuputStream`. */
  datatype Frame =
    | InputDirectory
    | OutputDirectory
    | InputFile(input: EntryInputStream)
    | OutputFile(output: EntryOutputStream)
  {
    predicate IsDirectory() {
      InputDirectory? || OutputDirectory?
    }
  }

  function FrameObjects(f: Frame): set<object>
  {
    match f
    case InputFile(s) => {s}
    case OutputFile(s) => {s}
    case _ => {}
  }

  /** The stream objects on a stack. */
  function ObjectsOf(frames: seq<Frame>): (r: set<object>)
    ensures (forall i :: 0 <= i < |frames| ==> frames[i].IsDirectory()) ==> r == {}
  {
    if |frames| == 0 then {} else ObjectsOf(frames[..|frames| - 1]) + FrameObjects(frames[|frames| - 1])
  }

  function ViewOf(f: Frame): (r: FrameView)
    reads FrameObjects(f)
    ensures r.IsDirectoryEntry() <==> f.IsDirectory()
  {
    match f
    case InputDirectory => InputDirectoryView
    case OutputDirectory => OutputDirectoryView
    case InputFile(s) => s.View()
    case OutputFile(s) => s.View()
  }

  function ViewsOf(frames: seq<Frame>): (r: seq<FrameView>)
    reads ObjectsOf(frames)
    ensures |r| == |frames|
  {
    if |frames| == 0 then [] else ViewsOf(frames[..|frames| - 1]) + [ViewOf(frames[|frames| - 1])]
  }

  lemma ViewsOfPush(frames: seq<Frame>, f: Frame)
    ensures ObjectsOf(frames + [f]) == ObjectsOf(frames) + FrameObjects(f)
    ensures ViewsOf(frames + [f]) == ViewsOf(frames) + [ViewOf(f)]
  {
    assert (frames + [f])[..|frames|] == frames;
  }

  lemma ViewsOfTop(frames: seq<Frame>)
    requires |frames| > 0
    ensures ObjectsOf(frames) == ObjectsOf(frames[..|frames| - 1]) + FrameObjects(frames[|frames| - 1])
    ensures ViewsOf(frames) == ViewsOf(frames[..|frames| - 1]) + [ViewOf(frames[|frames| - 1])]
  {
  }

  /** A frame is a directory exactly when its view is. */
  lemma {:induction false} ViewsOfKinds(frames: seq<Frame>)
    ensures forall i :: 0 <= i < |frames| ==> (ViewsOf(frames)[i].IsDirectoryEntry() <==> frames[i].IsDirectory())
  {
    if |frames| > 0 {
      ViewsOfTop(frames);
      ViewsOfKinds(frames[..|frames| - 1]);
    }
  }

  /** The stream a file frame holds belongs to this connection. */
  predicate BelongsTo(f: Frame, connection: ScpConnection) {
    match f
    case InputFile(s) => s.connection == connection
    case OutputFile(s) => s.connection == connection
    case _ => true
  }

  /** The shape of a connection's stack: only the top can be a file, its
      stream belongs to the connection, and every frame is well formed. */
  ghost predicate ValidStack(frames: seq<Frame>, connection: ScpConnection)
    reads ObjectsOf(frames)
  {
    && (forall i :: 0 <= i < |frames| - 1 ==> frames[i].IsDirectory())
    && (forall i :: 0 <= i < |frames| ==> BelongsTo(frames[i], connection))
    && WellFormed(ViewsOf(frames))
  }

  /** A frame whose view is valid, pushed on a stack of directories
      (whose views, holding no stream, are the same in every heap): the
      new stack keeps its shape, holds only the new frame's stream, and
      its views are the old ones and the new frame's. */
  lemma PushOnDirectories(frames: seq<Frame>, f: Frame, connection: ScpConnection, views: seq<FrameView>)
    requires forall i :: 0 <= i < |frames| ==> frames[i].IsDirectory()
    requires WellFormed(views) && ViewsOf(frames) == views
    requires BelongsTo(f, connection) && ViewOf(f).Valid()
    ensures ValidStack(frames + [f], connection)
    ensures ObjectsOf(frames + [f]) == FrameObjects(f)
    ensures ViewsOf(frames + [f]) == views + [ViewOf(f)]
  {
    var fs := frames + [f];
    ViewsOfPush(frames, f);
    ViewsOfKinds(frames);
    PushWellFormed(views, ViewOf(f));
    forall i | 0 <= i < |fs| ensures BelongsTo(fs[i], connection) && (i < |fs| - 1 ==> fs[i].IsDirectory()) {
      if i < |frames| {
        assert fs[i] == frames[i];
      }
    }
  }

  /** Popping the top frame keeps the shape and leaves no stream. */
  lemma PopValid(frames: seq<Frame>, connection: ScpConnection)
    requires ValidStack(frames, connection) && |frames| > 0
    ensures ValidStack(frames[..|frames| - 1], connection)
    ensures ObjectsOf(frames[..|frames| - 1]) == {}
  {
    var n := |frames|;
    ViewsOfTop(frames);
    WellFormedPrefix(ViewsOf(frames), n - 1);
    assert ViewsOf(frames)[..n - 1] == ViewsOf(frames[..n - 1]);
  }

  /** The stream on top of a valid stack has changed its own fields: the
      stack keeps its shape, and its views are the old ones with the top
      replaced. */
  lemma ReplaceTopValid(frames: seq<Frame>, connection: ScpConnection, oldViews: seq<FrameView>)
    requires |frames| > 0 && |oldViews| == |frames| && WellFormed(oldViews)
    requires forall i :: 0 <= i < |frames| - 1 ==> frames[i].IsDirectory()
    requires forall i :: 0 <= i < |frames| ==> BelongsTo(frames[i], connection)
    requires ViewsOf(frames[..|frames| - 1]) == oldViews[..|frames| - 1]
    requires ViewOf(frames[|frames| - 1]).Valid()
    ensures ValidStack(frames, connection)
    ensures ViewsOf(frames) == oldViews[..|frames| - 1] + [ViewOf(frames[|frames| - 1])]
  {
    var n := |frames|;
    ViewsOfTop(frames);
    var views := ViewsOf(frames);
    forall i | 0 <= i < n ensures views[i].Valid() && (i < n - 1 ==> views[i].IsDirectoryEntry()) {
      if i < n - 1 {
        assert views[i] == oldViews[i];
      }
    }
  }

  /** `EntryInputStream`: the data of one file being fetched. */
  class EntryInputStream {
    const connection: ScpConnection
    const entry: ScpEntry
    var ioCount: int
    var closed: bool

    function View(): FrameView
      reads this
    {
      InputFileView(entry, ioCount, closed)
    }

    /** Creating the stream acknowledges the control line. */
    constructor (connection: ScpConnection, entry: ScpEntry)
      modifies connection
      ensures this.connection == connection && this.entry == entry
      ensures ioCount == 0 && !closed
      ensures connection.channel == WriteAck(old(connection.channel))
      ensures connection.stack == old(connection.stack) && connection.connected == old(connection.connected)
    {
      this.connection := connection;
      this.entry := entry;
      ioCount := 0;
      new;
      connection.WriteAck();
      closed := false;
    }

    method Read() returns (b: int)
      modifies this, connection
      ensures (b, ioCount, connection.channel) == InputRead(entry, old(ioCount), old(connection.channel))
      ensures closed == old(closed)
      ensures connection.stack == old(connection.stack) && connection.connected == old(connection.connected)
      ensures old(connection.Valid() && connection.TopIs(InputFile(this))) ==>
                && connection.Valid()
                && (b, connection.Snapshot()) == ReadTop(old(connection.Snapshot()))
    {
      ghost var onTop := connection.Valid() && connection.TopIs(InputFile(this));
      ghost var n := |connection.stack|;
      ghost var oldViews := ViewsOf(connection.stack);
      if onTop {
        ViewsOfTop(connection.stack);
        assert oldViews[n - 1] == View() && View().Valid();
        PopValid(connection.stack, connection);
      }
      if ioCount != entry.size {
        ioCount := ioCount + 1;
        b := connection.ReadByte();
      } else {
        b := -1;
      }
      if onTop {
        assert View().Valid();
        ReplaceTopValid(connection.stack, connection, oldViews);
      }
    }

    method Close() returns (o: Outcome<ScpError>)
      modifies this, connection
      ensures (o, closed, connection.channel) == InputClose(entry, ioCount, old(closed), old(connection.channel))
      ensures ioCount == old(ioCount)
      ensures connection.stack == old(connection.stack) && connection.connected == old(connection.connected)
    {
      if closed {
        return Pass;
      }
      if ioCount != entry.size {
        return Fail(StreamNotFinished(ioCount, entry.size));
      }
      connection.WriteAck();
      var ack := connection.CheckAck();
      if ack.Failure? {
        return Fail(ack.error);
      }
      closed := true;
      return Pass;
    }
  }

  /** `EntryOutputStream`: the data of one file being sent. */
  class EntryOutputStream {
    const connection: ScpConnection
    const entry: ScpEntry
    var ioCount: int
    var closed: bool

    function View(): FrameView
      reads this
    {
      OutputFileView(entry, ioCount, closed)
    }

    constructor (connection: ScpConnection, entry: ScpEntry)
      ensures this.connection == connection && this.entry == entry
      ensures ioCount == 0 && !closed
    {
      this.connection := connection;
      this.entry := entry;
      ioCount := 0;
      closed := false;
    }

    /** The Java constructor: send the file's control line and check its
        acknowledgement; a refusal leaves no stream. */
    static method Create(connection: ScpConnection, entry: ScpEntry) returns (s: EntryOutputStream?, o: Outcome<ScpError>)
      modifies connection
      ensures (o, connection.channel) == WriteMessage(AsciiBytes(ControlLine(entry)), old(connection.channel))
      ensures o.Pass? <==> s != null
      ensures s != null ==> fresh(s) && s.connection == connection && s.View() == OutputFileView(entry, 0, false)
      ensures connection.stack == old(connection.stack) && connection.connected == old(connection.connected)
    {
      o := connection.WriteMessage(AsciiBytes(ControlLine(entry)));
      if o.Fail? {
        return null, o;
      }
      s := new EntryOutputStream(connection, entry);
    }

    method Write(b: int) returns (o: Outcome<ScpError>)
      modifies this, connection
      ensures (o, ioCount, connection.channel) == OutputWrite(entry, old(ioCount), b, old(connection.channel))
      ensures closed == old(closed)
      ensures connection.stack == old(connection.stack) && connection.connected == old(connection.connected)
      ensures old(connection.Valid() && connection.TopIs(OutputFile(this))) ==>
                && connection.Valid()
                && (o, connection.Snapshot()) == WriteTop(b, old(connection.Snapshot()))
    {
      ghost var onTop := connection.Valid() && connection.TopIs(OutputFile(this));
      ghost var n := |connection.stack|;
      ghost var oldViews := ViewsOf(connection.stack);
      if onTop {
        ViewsOfTop(connection.stack);
        assert oldViews[n - 1] == View() && View().Valid();
        PopValid(connection.stack, connection);
      }
      if ioCount != entry.size {
        ioCount := ioCount + 1;
        connection.channel := connection.channel.Write([(b % 256) as byte]);
        o := Pass;
      } else {
        o := Fail(TooManyBytes(NullableText(entry.name)));
      }
      if onTop {
        assert View().Valid();
        ReplaceTopValid(connection.stack, connection, oldViews);
      }
    }

    method Close() returns (o: Outcome<ScpError>)
      modifies this, connection
      ensures (o, closed, connection.channel) == OutputClose(entry, ioCount, old(closed), old(connection.channel))
      ensures ioCount == old(ioCount)
      ensures connection.stack == old(connection.stack) && connection.connected == old(connection.connected)
    {
      if closed {
        return Pass;
      }
      if ioCount != entry.size {
        return Fail(StreamNotFinished(ioCount, entry.size));
      }
      o := connection.WriteMessage([0]);
      if o.Pass? {
        closed := true;
      }
    }
  }

  class ScpConnection {
    const command: string
    var channel: Channel
    var stack: seq<Frame>
    var connected: bool

    ghost function Snapshot(): State
      reads this, ObjectsOf(stack)
    {
      State(channel, ViewsOf(stack))
    }

    /** Only the top of the stack can be a file; its stream belongs to
        this connection; every frame is well formed. */
    ghost predicate Valid()
      reads this, ObjectsOf(stack)
    {
      ValidStack(stack, this)
    }

    predicate TopIs(f: Frame)
      reads this
    {
      |stack| > 0 && stack[|stack| - 1] == f
    }

    constructor (path: string, scpMode: ScpMode, copyMode: CopyMode, remote: seq<byte>)
      ensures command == Command(path, scpMode, copyMode)
      ensures channel == Channel(remote, []) && stack == [] && connected
    {
      command := Command(path, scpMode, copyMode);
      channel := Channel(remote, []);
      stack := [];
      connected := true;
    }

    /** The constructor as a whole: connect, then the handshake. */
    static method Open(path: string, scpMode: ScpMode, copyMode: CopyMode, remote: seq<byte>) returns (r: Result<ScpConnection, ScpError>)
      ensures r.Success? <==> ScpEngine.Open(scpMode, remote).0.Pass?
      ensures r.Success? ==> fresh(r.value) && r.value.Valid() && r.value.connected
      ensures r.Success? ==> r.value.command == Command(path, scpMode, copyMode)
      ensures r.Success? ==> r.value.Snapshot() == ScpEngine.Open(scpMode, remote).1
    {
      var c := new ScpConnection(path, scpMode, copyMode, remote);
      if scpMode == From {
        c.WriteAck();
      } else {
        var ack := c.CheckAck();
        if ack.Failure? {
          return Failure(ack.error);
        }
      }
      return Success(c);
    }

    /** `complete()` on a frame that has just been popped. */
    method CompleteFrame(f: Frame) returns (o: Outcome<ScpError>)
      requires BelongsTo(f, this)
      modifies this, FrameObjects(f)
      ensures (o, ViewOf(f), channel) == ScpEngine.Complete(old(ViewOf(f)), old(channel))
      ensures stack == old(stack) && connected == old(connected)
    {
      match f
      case InputDirectory =>
        WriteAck();
        o := Pass;
      case OutputDirectory =>
        o := WriteMessage(AsciiBytes("E\n"));
      case InputFile(s) =>
        o := s.Close();
      case OutputFile(s) =>
        o := s.Close();
    }

    /** `closeEntry`: pop the top frame and complete it. */
    method CloseEntry() returns (o: Outcome<ScpError>)
      requires Valid()
      modifies this, ObjectsOf(stack)
      ensures Valid() && connected == old(connected)
      ensures (o, Snapshot()) == ScpEngine.CloseEntry(old(Snapshot()))
      ensures stack == if old(|stack|) == 0 then old(stack) else old(stack[..|stack| - 1])
      ensures ObjectsOf(stack) == {}
    {
      if |stack| == 0 {
        return Fail(EmptyStack);
      }
      ViewsOfTop(stack);
      PopValid(stack, this);
      var top := stack[|stack| - 1];
      stack := stack[..|stack| - 1];
      o := CompleteFrame(top);
    }

    /** The end-of-directory loop of `getNextEntry` and `putNextEntry`. */
    method CloseThroughDirectory() returns (o: Outcome<ScpError>)
      requires Valid()
      modifies this, ObjectsOf(stack)
      ensures Valid() && connected == old(connected)
      ensures (o, Snapshot()) == ScpEngine.CloseThroughDirectory(old(Snapshot()))
      ensures ObjectsOf(stack) <= old(ObjectsOf(stack))
    {
      o := Pass;
      while |stack| > 0
        invariant Valid() && connected == old(connected)
        invariant ObjectsOf(stack) <= old(ObjectsOf(stack))
        invariant ScpEngine.CloseThroughDirectory(Snapshot()) == ScpEngine.CloseThroughDirectory(old(Snapshot()))
        decreases |stack|
      {
        ghost var before := Snapshot();
        var isDirectory := stack[|stack| - 1].IsDirectory();
        o := CloseEntry();
        if o.Fail? || isDirectory {
          assert (o, Snapshot()) == ScpEngine.CloseThroughDirectory(before);
          return;
        }
      }
      o := Pass;
    }

    /** The first step of `getNextEntry` and `putNextEntry`: close the
        file frame on top of the stack, if there is one. */
    method FinishFile() returns (o: Outcome<ScpError>)
      requires Valid()
      modifies this, ObjectsOf(stack)
      ensures Valid() && connected == old(connected)
      ensures (o, Snapshot()) == ScpEngine.FinishFile(old(Snapshot()))
      ensures o.Pass? ==> ObjectsOf(stack) == {} && forall i :: 0 <= i < |stack| ==> stack[i].IsDirectory()
      ensures ObjectsOf(stack) <= old(ObjectsOf(stack))
    {
      o := Pass;
      if |stack| > 0 {
        ViewsOfTop(stack);
        if !stack[|stack| - 1].IsDirectory() {
          o := CloseEntry();
        }
      }
    }

    /** Push the frame of an entry `getNextEntry` has read: a directory
        frame, or a new `EntryInputStream`; either one sends an ack. */
    method PushInput(entry: ScpEntry)
      requires Valid() && entry.Valid() && !entry.IsEndOfDirectory()
      requires forall i :: 0 <= i < |stack| ==> stack[i].IsDirectory()
      modifies this
      ensures Valid() && connected == old(connected)
      ensures Snapshot() == State(ScpEngine.WriteAck(old(channel)), old(Snapshot()).frames + [if entry.IsDirectory() then InputDirectoryView else InputFileView(entry, 0, false)])
      ensures forall x :: x in ObjectsOf(stack) ==> fresh(x)
    {
      ghost var frames := stack;
      assert ObjectsOf(frames) == {} && ValidStack(frames, this);
      ghost var views := ViewsOf(frames);
      assert WellFormed(views);
      if entry.IsDirectory() {
        WriteAck();
        assert ValidStack(frames, this) && ViewsOf(frames) == views;
        PushOnDirectories(frames, InputDirectory, this, views);
        stack := stack + [InputDirectory];
      } else {
        var s := new EntryInputStream(this, entry);
        assert ValidStack(frames, this) && ViewsOf(frames) == views;
        PushOnDirectories(frames, InputFile(s), this, views);
        stack := stack + [InputFile(s)];
      }
    }

    /** `getNextEntry`. */
    method GetNextEntry() returns (r: Result<Option<ScpEntry>, ScpError>)
      requires Valid()
      modifies this, ObjectsOf(stack)
      ensures Valid() && connected == old(connected)
      ensures (r, Snapshot()) == ScpEngine.GetNextEntry(old(Snapshot()))
      ensures forall x :: x in ObjectsOf(stack) ==> x in old(ObjectsOf(stack)) || fresh(x)
    {
      var closed := FinishFile();
      if closed.Fail? {
        return Failure(closed.error);
      }
      ghost var finished := Snapshot();
      var message := ParseMessage();
      assert Snapshot() == State(ScpWire.ParseMessage(finished.channel).1, finished.frames);
      if message.Failure? {
        return Failure(message.error);
      }
      if message.value.None? {
        return Success(None);
      }
      var entry := message.value.value;
      if entry.IsEndOfDirectory() {
        var o := CloseThroughDirectory();
        if o.Fail? {
          return Failure(o.error);
        }
        return Success(Some(entry));
      }
      ghost var read := Snapshot();
      PushInput(entry);
      assert Snapshot() == ScpEngine.AcceptMessage(Some(entry), read).1;
      return Success(Some(entry));
    }

    /** Send the control line of a directory or file entry and, once it is
        acknowledged, push its frame. */
    method PushOutput(entry: ScpEntry) returns (o: Outcome<ScpError>)
      requires Valid() && entry.Valid() && !entry.IsEndOfDirectory()
      requires forall i :: 0 <= i < |stack| ==> stack[i].IsDirectory()
      modifies this
      ensures Valid() && connected == old(connected)
      ensures (o, channel) == ScpEngine.WriteMessage(AsciiBytes(ControlLine(entry)), old(channel))
      ensures ViewsOf(stack) == old(ViewsOf(stack)) + if o.Fail? then [] else [if entry.IsDirectory() then OutputDirectoryView else OutputFileView(entry, 0, false)]
      ensures forall x :: x in ObjectsOf(stack) ==> fresh(x)
    {
      ghost var frames := stack;
      assert ObjectsOf(frames) == {} && ValidStack(frames, this);
      ghost var views := ViewsOf(frames);
      assert WellFormed(views);
      assert views + [] == views;
      if entry.IsDirectory() {
        o := WriteMessage(AsciiBytes(ControlLine(entry)));
        assert ValidStack(frames, this) && ViewsOf(frames) == views;
        if o.Fail? {
          return;
        }
        PushOnDirectories(frames, OutputDirectory, this, views);
        stack := stack + [OutputDirectory];
      } else {
        var s;
        s, o := EntryOutputStream.Create(this, entry);
        assert ValidStack(frames, this) && ViewsOf(frames) == views;
        if o.Fail? {
          return;
        }
        PushOnDirectories(frames, OutputFile(s), this, views);
        stack := stack + [OutputFile(s)];
      }
    }

    /** `putNextEntry`. */
    method PutNextEntry(entry: ScpEntry) returns (o: Outcome<ScpError>)
      requires Valid() && entry.Valid()
      modifies this, ObjectsOf(stack)
      ensures Valid() && connected == old(connected)
      ensures (o, Snapshot()) == ScpEngine.PutNextEntry(entry, old(Snapshot()))
      ensures forall x :: x in ObjectsOf(stack) ==> x in old(ObjectsOf(stack)) || fresh(x)
    {
      if entry.IsEndOfDirectory() {
        o := CloseThroughDirectory();
        return;
      }
      o := FinishFile();
      if o.Fail? {
        return;
      }
      ghost var finished := Snapshot();
      assert finished == ScpEngine.FinishFile(old(Snapshot())).1;
      ghost var written := ScpEngine.WriteMessage(AsciiBytes(ControlLine(entry)), channel);
      o := PushOutput(entry);
      if o.Fail? {
        assert Snapshot() == State(written.1, finished.frames);
      } else {
        assert o == Pass;
      }
    }

    /** The first loop of `close`, then the disconnect; the first failure
        is kept and reported after the disconnect. */
    method Close() returns (o: Outcome<ScpError>)
      requires Valid()
      modifies this, ObjectsOf(stack)
      ensures Valid() && !connected
      ensures (o, Snapshot()) == ScpEngine.CloseAll(old(Snapshot()))
    {
      o := Pass;
      while |stack| > 0
        invariant Valid() && o == Pass
        invariant ObjectsOf(stack) <= old(ObjectsOf(stack))
        invariant ScpEngine.CloseAll(Snapshot()) == ScpEngine.CloseAll(old(Snapshot()))
        decreases |stack|
      {
        ghost var before := Snapshot();
        o := CloseEntry();
        if o.Fail? {
          assert (o, Snapshot()) == ScpEngine.CloseAll(before);
          break;
        }
      }
      ghost var closed := Snapshot();
      connected := false;
      assert Snapshot() == closed;
    }

    /** `getCurrentInputStream`: the stream on top of the stack, if it is
        an input file. */
    function GetCurrentInputStream(): (s: EntryInputStream?)
      reads this
      ensures s != null <==> |stack| > 0 && stack[|stack| - 1].InputFile?
      ensures s != null ==> TopIs(InputFile(s))
    {
      if |stack| > 0 && stack[|stack| - 1].InputFile? then stack[|stack| - 1].input else null
    }

    /** `getCurrentOuputStream`: the stream on top of the stack, if it is
        an output file. */
    function GetCurrentOutputStream(): (s: EntryOutputStream?)
      reads this
      ensures s != null <==> |stack| > 0 && stack[|stack| - 1].OutputFile?
      ensures s != null ==> TopIs(OutputFile(s))
    {
      if |stack| > 0 && stack[|stack| - 1].OutputFile? then stack[|stack| - 1].output else null
    }

    /** The streams handed out are the frames `CurrentInput` and
        `CurrentOutput` see, and they belong to this connection. */
    lemma CurrentStreams()
      requires Valid()
      ensures var s := GetCurrentInputStream();
              && (s != null <==> CurrentInput(Snapshot().frames).Some?)
              && (s != null ==> s.connection == this && CurrentInput(Snapshot().frames).value == s.View())
      ensures var s := GetCurrentOutputStream();
              && (s != null <==> CurrentOutput(Snapshot().frames).Some?)
              && (s != null ==> s.connection == this && CurrentOutput(Snapshot().frames).value == s.View())
    {
      if |stack| > 0 {
        ViewsOfTop(stack);
      }
    }

    /** `parseMessage`, as the engine uses it. */
    method ParseMessage() returns (r: Result<Option<ScpEntry>, ScpError>)
      modifies this
      ensures (r, channel) == ScpWire.ParseMessage(old(channel))
      ensures stack == old(stack) && connected == old(connected)
    {
      var ack := CheckAck();
      if ack.Failure? {
        return Failure(ack.error);
      }
      if ack.value == -1 {
        return Success(None);
      }
      var t := TypeChar(ack.value);
      if t == 'E' {
        if |channel.input| > 0 && channel.input[0] == LF {
          var _ := ReadByte();
        }
        return Success(Some(NewEndOfDirectory()));
      }
      if t != 'C' && t != 'D' {
        return Failure(UnknownMessageType(t));
      }
      ghost var fields := channel;
      var mode := ReadMessageSegment();
      if mode.Failure? {
        return Failure(mode.error);
      }
      ghost var afterMode := channel.input;
      var sizeText := ReadMessageSegment();
      if sizeText.Failure? {
        return Failure(sizeText.error);
      }
      if sizeText.value.None? {
        return Success(None);
      }
      var size := ParseLong(sizeText.value.value);
      if size.None? {
        return Failure(BadNumber(sizeText.value.value));
      }
      ghost var afterSize := channel.input;
      var name := ReadMessageSegment();
      if name.Failure? {
        return Failure(name.error);
      }
      if name.value.None? {
        return Success(None);
      }
      var entry := BuildEntry(t, mode.value, size.value, name.value.value);
      if entry.Failure? {
        return Failure(entry.error);
      }
      return Success(Some(entry.value));
    }

    method ReadByte() returns (b: int)
      modifies this
      ensures (b, channel) == old(channel).Read()
      ensures stack == old(stack) && connected == old(connected)
    {
      var (v, ch) := channel.Read();
      b, channel := v, ch;
    }

    method WriteAck()
      modifies this
      ensures channel == ScpEngine.WriteAck(old(channel))
      ensures stack == old(stack) && connected == old(connected)
    {
      channel := channel.Write([0]);
    }

    /** `checkAck`, with the error text read up to '\n' or the end of the
        channel. */
    method CheckAck() returns (r: Result<int, ScpError>)
      modifies this
      ensures (r, channel) == ScpWire.CheckAck(old(channel))
      ensures stack == old(stack) && connected == old(connected)
    {
      var b := ReadByte();
      if b == 1 || b == 2 {
        ghost var start := channel.input;
        var message := "";
        assert message + AckMessage(start).0 == AckMessage(start).0;
        while true
          invariant channel.output == old(channel.output)
          invariant stack == old(stack) && connected == old(connected)
          invariant AckMessage(start) == (message + AckMessage(channel.input).0, AckMessage(channel.input).1)
          decreases |channel.input|
        {
          ghost var before := channel.input;
          var c := ReadByte();
          if c == -1 || c == LF as int {
            assert AckMessage(before) == ("", channel.input);
            assert message + "" == message;
            break;
          }
          var tail := AckMessage(channel.input);
          assert AckMessage(before) == ([c as char] + tail.0, tail.1);
          assert message + ([c as char] + tail.0) == (message + [c as char]) + tail.0;
          message := message + [c as char];
        }
        assert AckMessage(start) == (message, channel.input);
        return Failure(AckError(message));
      }
      return Success(b);
    }

    /** `writeMessage(bytes)`. */
    method WriteMessage(bytes: seq<byte>) returns (o: Outcome<ScpError>)
      modifies this
      ensures (o, channel) == ScpEngine.WriteMessage(bytes, old(channel))
      ensures stack == old(stack) && connected == old(connected)
    {
      channel := channel.Write(bytes);
      var ack := CheckAck();
      if ack.Failure? {
        return Fail(ack.error);
      }
      return Pass;
    }

    /** `readMessageSegment`, with its 1024-byte buffer. */
    method ReadMessageSegment() returns (r: Result<Option<string>, ScpError>)
      modifies this
      ensures (r, channel.input) == ReadSegment(old(channel.input))
      ensures channel.output == old(channel.output)
      ensures stack == old(stack) && connected == old(connected)
    {
      var buffer := new byte[SEGMENT_BUFFER];
      var bytesRead := 0;
      ghost var kept: seq<byte> := [];
      while true
        invariant 0 <= bytesRead <= SEGMENT_BUFFER && kept == buffer[..bytesRead]
        invariant channel.output == old(channel.output)
        invariant stack == old(stack) && connected == old(connected)
        invariant SegmentFrom(channel.input, kept) == ReadSegment(old(channel.input))
        decreases |channel.input|
      {
        SegmentFromRead(channel.input, kept);
        var c := ReadByte();
        if c == -1 || c == 0xFF {
          return Success(None);
        }
        if c == SPACE as int || c == LF as int {
          break;
        }
        if bytesRead == SEGMENT_BUFFER {
          return Failure(SegmentTooLong);
        }
        buffer[bytesRead] := c as byte;
        assert buffer[..bytesRead + 1] == buffer[..bytesRead] + [c as byte];
        bytesRead := bytesRead + 1;
        kept := kept + [c as byte];
      }
      return Success(Some(DecodeAscii(buffer[..bytesRead])));
    }
  }
}
