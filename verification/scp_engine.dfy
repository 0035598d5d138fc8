/** What `ScpConnection` does to its channel and its entry stack, stated
    as functions of a snapshot of both. The class in `ScpConnections` is
    proved to follow these functions step for step; the properties of the
    protocol are proved here, about the functions. */
module ScpEngine {
  import opened Wrappers
  import opened JavaText
  import opened ScpErrors
  import opened ScpEntries
  import opened ScpWire
  import Unwinding

  datatype ScpMode = To | From
  datatype CopyMode = FileOnly | Recursive

  /** `getCommand`: the remote command the exec channel runs, `scp -tq`
      to send or `scp -fq` to fetch, with `r` added for a recursive copy,
      then a space and the path. */
  function Command(path: string, scpMode: ScpMode, copyMode: CopyMode): (r: string)
    ensures |r| == 8 + |path| + (if copyMode == Recursive then 1 else 0)
    ensures r[..5] == "scp -" && r[6] == 'q'
    ensures r[5] == (if scpMode == To then 't' else 'f')
    ensures copyMode == Recursive <==> r[7] == 'r'
    ensures r[|r| - |path| - 1..] == " " + path
  {
    (if scpMode == To then "scp -tq" else "scp -fq") + (if copyMode == Recursive then "r" else "") + " " + path
  }

  /** The handshake at the end of the constructor, once the channel is
      connected: a fetching side sends an ack, a sending side waits for
      one. The stack starts empty. */
  function Open(scpMode: ScpMode, remote: seq<byte>): (r: (Outcome<ScpError>, State))
    ensures r.1.frames == []
    ensures scpMode == From ==> r == (Pass, State(Channel(remote, [0]), []))
    ensures scpMode == To ==> r.1.channel.output == [] && (r.0.Pass? <==> (|remote| == 0 || (remote[0] != 1 && remote[0] != 2)))
  {
    if scpMode == From then (Pass, State(Channel(remote, [0]), []))
    else
      var (ack, ch) := CheckAck(Channel(remote, []));
      if ack.Failure? then (Fail(ack.error), State(ch, [])) else (Pass, State(ch, []))
  }

  /** `writeAck`: a single zero byte. */
  function WriteAck(ch: Channel): (r: Channel)
    ensures r.input == ch.input && r.output == ch.output + [0]
  {
    ch.Write([0])
  }

  /** `writeMessage(bytes)`: the bytes, then `checkAck`, whose value is
      dropped; only an error acknowledgement fails. */
  function WriteMessage(bytes: seq<byte>, ch: Channel): (r: (Outcome<ScpError>, Channel))
    ensures r.1.output == ch.output + bytes
    ensures |r.1.input| <= |ch.input|
    ensures r.0.Pass? <==> (|ch.input| == 0 || (ch.input[0] != 1 && ch.input[0] != 2))
  {
    var (ack, ch1) := CheckAck(ch.Write(bytes));
    if ack.Failure? then (Fail(ack.error), ch1) else (Pass, ch1)
  }

  /** One entry of the stack: a directory being read or written, or the
      state of an `EntryInputStream` / `EntryOutputStream`. */
  datatype FrameView =
    | InputDirectoryView
    | OutputDirectoryView
    | InputFileView(entry: ScpEntry, ioCount: int, closed: bool)
    | OutputFileView(entry: ScpEntry, ioCount: int, closed: bool)
  {
    predicate IsDirectoryEntry() {
      InputDirectoryView? || OutputDirectoryView?
    }

    /** What every stream frame keeps: it carries a file entry, it has
        counted no more bytes than the entry's size (when that size is not
        negative), and it is closed only once complete. */
    predicate Valid() {
      !IsDirectoryEntry() ==>
        && entry.Valid() && entry.IsFile()
        && 0 <= ioCount
        && (entry.size >= 0 ==> ioCount <= entry.size)
        && (closed ==> ioCount == entry.size)
    }
  }

  // ---------------------------------------------------------------------
  // The two stream classes

  /** `EntryInputStream.read`: -1 once `size` bytes have been counted,
      otherwise the next byte of the channel (the count goes up even when
      that read finds the end of the channel). */
  function InputRead(entry: ScpEntry, ioCount: int, ch: Channel): (r: (int, int, Channel))
    ensures r.2.output == ch.output
    ensures ioCount == entry.size ==> r == (-1, ioCount, ch)
    ensures ioCount != entry.size ==> r.1 == ioCount + 1
    ensures ioCount != entry.size && |ch.input| > 0 ==> r.0 == ch.input[0] as int && r.2.input == ch.input[1..]
    ensures ioCount != entry.size && |ch.input| == 0 ==> r.0 == -1 && r.2 == ch
  {
    if ioCount == entry.size then (-1, ioCount, ch)
    else
      var (b, ch1) := ch.Read();
      (b, ioCount + 1, ch1)
  }

  /** `EntryInputStream.close` (and `complete`): nothing once closed; an
      incomplete stream is refused; otherwise an ack is sent, the remote's
      status is checked, and the stream is closed. */
  function InputClose(entry: ScpEntry, ioCount: int, closed: bool, ch: Channel): (r: (Outcome<ScpError>, bool, Channel))
    ensures closed ==> r == (Pass, true, ch)
    ensures !closed && ioCount != entry.size ==> r == (Fail(StreamNotFinished(ioCount, entry.size)), false, ch)
    ensures !closed && ioCount == entry.size ==> r.2.output == ch.output + [0] && (r.0.Pass? <==> r.1)
    ensures r.1 ==> ioCount == entry.size || closed
  {
    if closed then (Pass, true, ch)
    else if ioCount != entry.size then (Fail(StreamNotFinished(ioCount, entry.size)), false, ch)
    else
      var (ack, ch1) := CheckAck(WriteAck(ch));
      if ack.Failure? then (Fail(ack.error), false, ch1) else (Pass, true, ch1)
  }

  /** `EntryOutputStream.write`: refused once `size` bytes are written,
      otherwise the low eight bits of `b` go out. */
  function OutputWrite(entry: ScpEntry, ioCount: int, b: int, ch: Channel): (r: (Outcome<ScpError>, int, Channel))
    ensures ioCount == entry.size ==> r == (Fail(TooManyBytes(NullableText(entry.name))), ioCount, ch)
    ensures ioCount != entry.size ==> r == (Pass, ioCount + 1, ch.Write([(b % 256) as byte]))
  {
    if ioCount == entry.size then (Fail(TooManyBytes(NullableText(entry.name))), ioCount, ch)
    else (Pass, ioCount + 1, ch.Write([(b % 256) as byte]))
  }

  /** `EntryOutputStream.close` (and `complete`): nothing once closed; an
      incomplete file is refused; otherwise the zero status byte goes out
      as a message and its acknowledgement is checked. */
  function OutputClose(entry: ScpEntry, ioCount: int, closed: bool, ch: Channel): (r: (Outcome<ScpError>, bool, Channel))
    ensures closed ==> r == (Pass, true, ch)
    ensures !closed && ioCount != entry.size ==> r == (Fail(StreamNotFinished(ioCount, entry.size)), false, ch)
    ensures !closed && ioCount == entry.size ==> r.2.output == ch.output + [0] && (r.0.Pass? <==> r.1)
    ensures r.1 ==> ioCount == entry.size || closed
  {
    if closed then (Pass, true, ch)
    else if ioCount != entry.size then (Fail(StreamNotFinished(ioCount, entry.size)), false, ch)
    else
      var (o, ch1) := WriteMessage([0], ch);
      (o, o.Pass?, ch1)
  }

  /** `CurrentEntry.complete` on each kind of frame, giving the frame's
      state afterwards (relevant only to a stream still referenced). */
  function Complete(f: FrameView, ch: Channel): (r: (Outcome<ScpError>, FrameView, Channel))
    ensures ch.output <= r.2.output && |r.2.input| <= |ch.input|
    ensures f.Valid() ==> r.1.Valid()
    ensures f.IsDirectoryEntry() ==> r.1 == f
    ensures !f.IsDirectoryEntry() ==> !r.1.IsDirectoryEntry() && r.1 == f.(closed := r.1.closed) && (r.0.Pass? <==> r.1.closed)
  {
    match f
    case InputDirectoryView => (Pass, f, WriteAck(ch))
    case OutputDirectoryView =>
      var (o, ch1) := WriteMessage(AsciiBytes("E\n"), ch);
      (o, f, ch1)
    case InputFileView(entry, ioCount, closed) =>
      var (o, c, ch1) := InputClose(entry, ioCount, closed, ch);
      (o, InputFileView(entry, ioCount, c), ch1)
    case OutputFileView(entry, ioCount, closed) =>
      var (o, c, ch1) := OutputClose(entry, ioCount, closed, ch);
      (o, OutputFileView(entry, ioCount, c), ch1)
  }

  /** What completing a directory frame does: a directory being read
      passes and acknowledges its end; a directory being written sends the
      end-of-directory control line as a message. */
  lemma CompleteDirectory(f: FrameView, ch: Channel)
    ensures f.InputDirectoryView? ==> Complete(f, ch) == (Pass, f, WriteAck(ch))
    ensures f.OutputDirectoryView? ==>
              var r := Complete(f, ch);
              (r.0, r.2) == WriteMessage(AsciiBytes(ControlLine(NewEndOfDirectory())), ch)
  {
  }

  // ---------------------------------------------------------------------
  // The connection

  datatype State = State(channel: Channel, frames: seq<FrameView>)

  /** The shape the stack always has: every frame is valid, and only the
      top one can be a file. */
  predicate WellFormed(frames: seq<FrameView>) {
    && (forall i :: 0 <= i < |frames| ==> frames[i].Valid())
    && (forall i :: 0 <= i < |frames| - 1 ==> frames[i].IsDirectoryEntry())
  }

  lemma WellFormedPrefix(frames: seq<FrameView>, n: nat)
    requires WellFormed(frames) && n <= |frames|
    ensures WellFormed(frames[..n])
  {
  }

  predicate TopIsFile(frames: seq<FrameView>) {
    |frames| > 0 && !frames[|frames| - 1].IsDirectoryEntry()
  }

  /** `closeEntry`: pop the top frame, then complete it. */
  function CloseEntry(s: State): (r: (Outcome<ScpError>, State))
    ensures |s.frames| == 0 ==> r == (Fail(EmptyStack), s)
    ensures |s.frames| > 0 ==> r.1.frames == s.frames[..|s.frames| - 1]
    ensures WellFormed(s.frames) ==> WellFormed(r.1.frames)
    ensures s.channel.output <= r.1.channel.output && |r.1.channel.input| <= |s.channel.input|
  {
    if |s.frames| == 0 then (Fail(EmptyStack), s)
    else
      var (o, _, ch) := Complete(s.frames[|s.frames| - 1], s.channel);
      (o, State(ch, s.frames[..|s.frames| - 1]))
  }

  /** The loop `getNextEntry` and `putNextEntry` run for an
      end-of-directory entry: close frames from the top until a directory
      frame has been closed, or the stack is empty; the first failure
      stops it. */
  function CloseThroughDirectory(s: State): (r: (Outcome<ScpError>, State))
    ensures |r.1.frames| <= |s.frames| && r.1.frames == s.frames[..|r.1.frames|]
    ensures WellFormed(s.frames) ==> WellFormed(r.1.frames)
    ensures s.channel.output <= r.1.channel.output && |r.1.channel.input| <= |s.channel.input|
    decreases |s.frames|
  {
    if |s.frames| == 0 then (Pass, s)
    else
      var isDirectory := s.frames[|s.frames| - 1].IsDirectoryEntry();
      var (o, s1) := CloseEntry(s);
      if o.Fail? || isDirectory then (o, s1)
      else CloseThroughDirectory(s1)
  }

  /** On a well-formed stack a successful end-of-directory pops the open
      file, if there is one, and exactly one directory. */
  lemma {:induction false} CloseThroughDirectoryPops(s: State)
    requires WellFormed(s.frames)
    ensures var r := CloseThroughDirectory(s);
            var popped := if TopIsFile(s.frames) then 2 else 1;
            r.0.Pass? ==> r.1.frames == s.frames[..if |s.frames| < popped then 0 else |s.frames| - popped]
    decreases |s.frames|
  {
    if |s.frames| > 0 && TopIsFile(s.frames) {
      var (o, s1) := CloseEntry(s);
      if o.Pass? {
        WellFormedPrefix(s.frames, |s.frames| - 1);
        CloseThroughDirectoryPops(s1);
        assert !TopIsFile(s1.frames);
      }
    }
  }

  /** `putNextEntry` of an end-of-directory entry while a directory is
      being written and the remote acknowledges: exactly the end line goes
      out, one acknowledgement is consumed, and exactly that directory is
      popped. */
  lemma PutEndOfDirectoryPopsDirectory(frames: seq<FrameView>, rest: seq<byte>, out: seq<byte>)
    requires |frames| > 0 && frames[|frames| - 1] == OutputDirectoryView
    ensures PutNextEntry(NewEndOfDirectory(), State(Channel([0] + rest, out), frames))
         == (Pass, State(Channel(rest, out + AsciiBytes(ControlLine(NewEndOfDirectory()))), frames[..|frames| - 1]))
  {
    CompleteDirectory(OutputDirectoryView, Channel([0] + rest, out));
    CheckAckZero(rest, out + AsciiBytes(ControlLine(NewEndOfDirectory())));
  }

  /** The same with a finished file still open above the directory: the
      file's zero status byte goes out and is acknowledged first, then the
      end line, and both frames are popped. */
  lemma PutEndOfDirectoryAfterFile(frames: seq<FrameView>, entry: ScpEntry, rest: seq<byte>, out: seq<byte>)
    requires |frames| > 0 && frames[|frames| - 1] == OutputDirectoryView
    ensures PutNextEntry(NewEndOfDirectory(), State(Channel([0, 0] + rest, out), frames + [OutputFileView(entry, entry.size, false)]))
         == (Pass, State(Channel(rest, out + [0] + AsciiBytes(ControlLine(NewEndOfDirectory()))), frames[..|frames| - 1]))
  {
    var s := State(Channel([0, 0] + rest, out), frames + [OutputFileView(entry, entry.size, false)]);
    assert [0 as byte, 0] + rest == [0] + ([0] + rest);
    CheckAckZero([0] + rest, out + [0]);
    assert s.frames[..|s.frames| - 1] == frames;
    var (o, s1) := CloseEntry(s);
    assert o == Pass && s1 == State(Channel([0] + rest, out + [0]), frames);
    PutEndOfDirectoryPopsDirectory(frames, rest, out + [0]);
  }

  predicate AllDirectories(frames: seq<FrameView>) {
    forall i :: 0 <= i < |frames| ==> frames[i].IsDirectoryEntry()
  }

  /** A valid frame pushed on a stack of directories leaves it well
      formed. */
  lemma PushWellFormed(frames: seq<FrameView>, f: FrameView)
    ensures WellFormed(frames) && AllDirectories(frames) && f.Valid() ==> WellFormed(frames + [f])
  {
    var fs := frames + [f];
    if WellFormed(frames) && f.Valid() {
      forall i | 0 <= i < |fs| ensures fs[i].Valid() {
        if i < |frames| {
          assert fs[i] == frames[i];
        }
      }
    }
  }

  /** The first step of `getNextEntry` and `putNextEntry`: a file frame
      on top of the stack is closed. Afterwards, on a well-formed stack,
      only directories are left. */
  function FinishFile(s: State): (r: (Outcome<ScpError>, State))
    ensures !TopIsFile(s.frames) ==> r == (Pass, s)
    ensures TopIsFile(s.frames) ==> r == CloseEntry(s)
    ensures WellFormed(s.frames) ==> WellFormed(r.1.frames)
    ensures WellFormed(s.frames) && r.0.Pass? ==> AllDirectories(r.1.frames)
  {
    if TopIsFile(s.frames) then CloseEntry(s)
    else (Pass, s)
  }

  /** What `getNextEntry` does with a message once it is read. */
  function AcceptMessage(message: Option<ScpEntry>, s: State): (r: (Result<Option<ScpEntry>, ScpError>, State))
    requires message.Some? ==> message.value.Valid()
    ensures s.channel.output <= r.1.channel.output && |r.1.channel.input| <= |s.channel.input|
    ensures r.0.Success? ==> r.0.value == message
    ensures WellFormed(s.frames) && AllDirectories(s.frames) ==> WellFormed(r.1.frames)
    ensures message.None? ==> r == (Success(None), s)
    ensures message.Some? && message.value.IsEndOfDirectory() ==>
              r.1 == CloseThroughDirectory(s).1 && (r.0.Success? <==> CloseThroughDirectory(s).0.Pass?)
    ensures message.Some? && message.value.IsFile() ==> r == (Success(message), State(WriteAck(s.channel), s.frames + [InputFileView(message.value, 0, false)]))
    ensures message.Some? && message.value.IsDirectory() ==> r == (Success(message), State(WriteAck(s.channel), s.frames + [InputDirectoryView]))
  {
    if message.None? then (Success(None), s)
    else
      var entry := message.value;
      if entry.IsEndOfDirectory() then
        var (o, s2) := CloseThroughDirectory(s);
        if o.Fail? then (Failure(o.error), s2) else (Success(Some(entry)), s2)
      else
        var frame := if entry.IsDirectory() then InputDirectoryView else InputFileView(entry, 0, false);
        PushWellFormed(s.frames, frame);
        (Success(Some(entry)), State(WriteAck(s.channel), s.frames + [frame]))
  }

  /** `getNextEntry`: finish the file on top of the stack, if any; read
      one message; for a directory or file push a frame (whose creation
      sends an ack); for end-of-directory close through the directory. */
  function GetNextEntry(s: State): (r: (Result<Option<ScpEntry>, ScpError>, State))
    ensures s.channel.output <= r.1.channel.output && |r.1.channel.input| <= |s.channel.input|
    ensures r.0.Success? && r.0.value.Some? ==> r.0.value.value.Valid()
    ensures WellFormed(s.frames) ==> WellFormed(r.1.frames)
    ensures r.0.Success? && r.0.value.Some? && !r.0.value.value.IsEndOfDirectory() ==>
              var s1 := FinishFile(s).1;
              && r.1.channel.output == s1.channel.output + [0]
              && r.1.frames == s1.frames + [if r.0.value.value.IsFile() then InputFileView(r.0.value.value, 0, false) else InputDirectoryView]
  {
    var (closed, s1) := FinishFile(s);
    if closed.Fail? then (Failure(closed.error), s1)
    else
      var (message, ch) := ParseMessage(s1.channel);
      if message.Failure? then (Failure(message.error), State(ch, s1.frames))
      else AcceptMessage(message.value, State(ch, s1.frames))
  }

  /** On a well-formed stack an end-of-directory message that
      `getNextEntry` reads and accepts pops the open file, if there is one,
      and exactly one directory. */
  lemma GetNextEntryEndOfDirectory(s: State)
    requires WellFormed(s.frames)
    ensures var r := GetNextEntry(s);
            var popped := if TopIsFile(s.frames) then 2 else 1;
            r.0.Success? && r.0.value.Some? && r.0.value.value.IsEndOfDirectory() ==>
              r.1.frames == s.frames[..if |s.frames| < popped then 0 else |s.frames| - popped]
  {
    var (closed, s1) := FinishFile(s);
    if closed.Pass? {
      var (message, ch) := ParseMessage(s1.channel);
      if message.Success? && message.value.Some? && message.value.value.IsEndOfDirectory() {
        var t := State(ch, s1.frames);
        CloseThroughDirectoryPops(t);
        if TopIsFile(s.frames) {
          assert !TopIsFile(t.frames);
        }
      }
    }
  }

  /** `putNextEntry`: an end-of-directory entry closes through the open
      directory; any other entry first finishes the file on top of the
      stack, then sends its control line and, once that is acknowledged,
      pushes its frame. */
  function PutNextEntry(entry: ScpEntry, s: State): (r: (Outcome<ScpError>, State))
    requires entry.Valid()
    ensures s.channel.output <= r.1.channel.output && |r.1.channel.input| <= |s.channel.input|
    ensures WellFormed(s.frames) ==> WellFormed(r.1.frames)
    ensures r.0.Pass? && !entry.IsEndOfDirectory() ==>
              && |r.1.frames| > 0
              && r.1.frames[|r.1.frames| - 1] == (if entry.IsFile() then OutputFileView(entry, 0, false) else OutputDirectoryView)
    ensures r.0.Pass? && !entry.IsEndOfDirectory() ==>
              var s1 := FinishFile(s).1;
              && r.1.frames == s1.frames + [if entry.IsFile() then OutputFileView(entry, 0, false) else OutputDirectoryView]
              && r.1.channel.output == s1.channel.output + AsciiBytes(ControlLine(entry))
  {
    if entry.IsEndOfDirectory() then CloseThroughDirectory(s)
    else
      var (closed, s1) := FinishFile(s);
      if closed.Fail? then (closed, s1)
      else
        var (o, ch) := WriteMessage(AsciiBytes(ControlLine(entry)), s1.channel);
        var frame := if entry.IsDirectory() then OutputDirectoryView else OutputFileView(entry, 0, false);
        if o.Fail? then (o, State(ch, s1.frames))
        else
          PushWellFormed(s1.frames, frame);
          (Pass, State(ch, s1.frames + [frame]))
  }

  /** The first loop of `close`: complete every frame from the top, and
      stop at the first failure, which is kept. */
  function CloseAll(s: State): (r: (Outcome<ScpError>, State))
    ensures |r.1.frames| <= |s.frames| && r.1.frames == s.frames[..|r.1.frames|]
    ensures r.0.Pass? ==> r.1.frames == []
    ensures WellFormed(s.frames) ==> WellFormed(r.1.frames)
    ensures s.channel.output <= r.1.channel.output && |r.1.channel.input| <= |s.channel.input|
    decreases |s.frames|
  {
    if |s.frames| == 0 then (Pass, s)
    else
      var (o, s1) := CloseEntry(s);
      if o.Fail? then (o, s1) else CloseAll(s1)
  }

  /** `close`'s loop is a run of `CloseEntry` over every frame. */
  lemma {:induction false} CloseAllRuns(s: State)
    ensures CloseAll(s) == Unwinding.RunAll(CloseEntry, s, |s.frames|)
    decreases |s.frames|
  {
    if |s.frames| > 0 && CloseEntry(s).0.Pass? {
      CloseAllRuns(CloseEntry(s).1);
    }
  }

  /** Completing `n` frames pops exactly `n` frames. */
  lemma {:induction false} UnwindPops(s: State, n: nat)
    requires n <= |s.frames|
    ensures Unwinding.Unwind(CloseEntry, s, n).frames == s.frames[..|s.frames| - n]
    decreases n
  {
    if n > 0 {
      UnwindPops(CloseEntry(s).1, n - 1);
    }
  }

  /** `close` keeps the first failure: with `k` frames popped, the state
      left is the one completing the top `k` frames reaches; all but the
      last of them completed, and a failure is the last one's; success
      means every frame completed. */
  lemma CloseAllFirstFailure(s: State)
    ensures var r := CloseAll(s);
            var k := |s.frames| - |r.1.frames|;
            && r.1 == Unwinding.Unwind(CloseEntry, s, k)
            && (r.0.Pass? <==> k == |s.frames| && Unwinding.CompletesAll(CloseEntry, s, k))
            && (r.0.Fail? ==> 0 < k && Unwinding.CompletesAll(CloseEntry, s, k - 1)
                              && r.0 == CloseEntry(Unwinding.Unwind(CloseEntry, s, k - 1)).0)
  {
    var n := |s.frames|;
    var steps := Unwinding.Steps(CloseEntry, s, n);
    CloseAllRuns(s);
    Unwinding.RunAllFirstFailure(CloseEntry, s, n);
    UnwindPops(s, steps);
    var r := Unwinding.RunAll(CloseEntry, s, n);
    assert |r.1.frames| == n - steps;
  }

  /** `getCurrentInputStream`: the top frame when it is an input file. */
  function CurrentInput(frames: seq<FrameView>): (r: Option<FrameView>)
    ensures r.Some? <==> |frames| > 0 && frames[|frames| - 1].InputFileView?
    ensures r.Some? ==> r.value == frames[|frames| - 1]
  {
    if |frames| > 0 && frames[|frames| - 1].InputFileView? then Some(frames[|frames| - 1]) else None
  }

  /** `getCurrentOuputStream`: the top frame when it is an output file. */
  function CurrentOutput(frames: seq<FrameView>): (r: Option<FrameView>)
    ensures r.Some? <==> |frames| > 0 && frames[|frames| - 1].OutputFileView?
    ensures r.Some? ==> r.value == frames[|frames| - 1]
  {
    if |frames| > 0 && frames[|frames| - 1].OutputFileView? then Some(frames[|frames| - 1]) else None
  }

  /** `read()` on the stream of the top frame, an input file. */
  function ReadTop(s: State): (r: (int, State))
    requires CurrentInput(s.frames).Some?
    ensures WellFormed(s.frames) ==> WellFormed(r.1.frames)
    ensures |r.1.frames| == |s.frames| && r.1.frames[..|s.frames| - 1] == s.frames[..|s.frames| - 1]
    ensures CurrentInput(r.1.frames).Some?
    ensures var f := s.frames[|s.frames| - 1];
            var (b, n, ch) := InputRead(f.entry, f.ioCount, s.channel);
            r == (b, State(ch, r.1.frames)) && r.1.frames[|s.frames| - 1] == InputFileView(f.entry, n, f.closed)
  {
    var f := s.frames[|s.frames| - 1];
    var (b, n, ch) := InputRead(f.entry, f.ioCount, s.channel);
    (b, State(ch, s.frames[..|s.frames| - 1] + [InputFileView(f.entry, n, f.closed)]))
  }

  /** `write(b)` on the stream of the top frame, an output file. */
  function WriteTop(b: int, s: State): (r: (Outcome<ScpError>, State))
    requires CurrentOutput(s.frames).Some?
    ensures WellFormed(s.frames) ==> WellFormed(r.1.frames)
    ensures |r.1.frames| == |s.frames| && r.1.frames[..|s.frames| - 1] == s.frames[..|s.frames| - 1]
    ensures CurrentOutput(r.1.frames).Some?
    ensures var f := s.frames[|s.frames| - 1];
            var (o, n, ch) := OutputWrite(f.entry, f.ioCount, b, s.channel);
            r == (o, State(ch, r.1.frames)) && r.1.frames[|s.frames| - 1] == OutputFileView(f.entry, n, f.closed)
  {
    var f := s.frames[|s.frames| - 1];
    var (o, n, ch) := OutputWrite(f.entry, f.ioCount, b, s.channel);
    (o, State(ch, s.frames[..|s.frames| - 1] + [OutputFileView(f.entry, n, f.closed)]))
  }
}
