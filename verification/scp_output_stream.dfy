/** The older stand-alone push engine, `ScpOutputStream`: the same wire
    protocol as `ScpConnection` in the sending direction, kept as one
    current-file counter and a stack of open directories.

    Each method of the class is proved to follow a function of a snapshot
    of its state (`PushState`); the protocol properties are proved about
    those functions, and the classes are in `ScpOutputStreams`.
    Acknowledgements are read with the corrected `ScpWire.CheckAck`; what
    this class's own `checkAck` loop does with an error text is
    `LegacyAckLoopAsWritten`. */
module ScpPush {
  import opened Wrappers
  import opened JavaText
  import opened ScpErrors
  import opened ScpEntries
  import opened ScpWire
  import ScpEngine

  /** `CopyMode` of this class, with the command prefix it runs. */
  datatype CopyMode = FileOnly | Recursive
  {
    function GetCommand(): string
    {
      if this == FileOnly then "scp -t " else "scp -r "
    }
  }

  /** The exec command: the mode's prefix, then the path. */
  function Command(copyMode: CopyMode, path: string): (r: string)
    ensures |r| == 7 + |path| && r[..5] == "scp -" && r[6] == ' ' && r[7..] == path
    ensures r[5] == (if copyMode == Recursive then 'r' else 't')
  {
    copyMode.GetCommand() + path
  }

  /** An `ScpDirectory`: a name and a standardized mode, fixed when made. */
  datatype ScpDirectory = ScpDirectory(name: string, mode: string)

  /** The state of an `ScpFile`: what is being sent, and how many bytes of
      it have been written. */
  datatype FileView = FileView(name: string, size: int, mode: string, written: int)
  {
    predicate Complete() {
      written == size
    }

    /** What every file made by `nextFile` keeps: a standard mode, and a
        count that never passes a non-negative size. */
    predicate Valid() {
      && IsStandardMode(mode)
      && 0 <= written
      && (size >= 0 ==> written <= size)
    }

    /** `ScpFile.increment`: refused once complete, otherwise one more
        byte is counted. */
    function Increment(): (r: (Outcome<ScpError>, FileView))
      ensures Complete() ==> r == (Fail(TooManyBytes(name)), this)
      ensures !Complete() ==> r.0.Pass? && r.1 == this.(written := written + 1)
      ensures Valid() ==> r.1.Valid()
    {
      if Complete() then (Fail(TooManyBytes(name)), this)
      else (Pass, this.(written := written + 1))
    }
  }

  /** `ScpDirectory.toMessage`. */
  function DirectoryMessage(d: ScpDirectory): string
  {
    "D" + d.mode + " 0 " + d.name + "\n"
  }

  /** `ScpFile.toMessage`. */
  function FileMessage(f: FileView): string
  {
    "C" + f.mode + " " + IntToString(f.size) + " " + f.name + "\n"
  }

  /** `ScpDirectory.toEndMessage`. */
  const END_MESSAGE: string := "E\n"

  /** The fields of the stream: the channel, `currentFile` (`None` for
      null) and `directoryStack` (`None` until the first directory). */
  datatype PushState = PushState(channel: Channel, current: Option<FileView>, directories: Option<seq<ScpDirectory>>)

  predicate WellFormed(s: PushState) {
    && (s.current.Some? ==> s.current.value.Valid())
    && (s.directories.Some? ==> forall i :: 0 <= i < |s.directories.value| ==> IsStandardMode(s.directories.value[i].mode))
  }

  /** No directory is open: the stack is null or empty. */
  predicate NoDirectories(s: PushState) {
    s.directories.None? || |s.directories.value| == 0
  }

  /** `writeMessage(String)`: the ASCII bytes, then an acknowledgement. */
  function Send(text: string, ch: Channel): (r: (Outcome<ScpError>, Channel))
  {
    ScpEngine.WriteMessage(AsciiBytes(text), ch)
  }

  /** `finishFile`: nothing without a current file; an incomplete file is
      refused; otherwise the zero status byte goes out as a message and,
      once acknowledged, the current file is cleared. */
  function FinishFile(s: PushState): (r: (Outcome<ScpError>, PushState))
    ensures s.current.None? ==> r == (Pass, s)
    ensures s.current.Some? && !s.current.value.Complete() ==>
              r == (Fail(PreviousFileUnfinished(s.current.value.written, s.current.value.size)), s)
    ensures s.current.Some? && s.current.value.Complete() ==>
              && r.1.channel.output == s.channel.output + [0]
              && (r.0.Pass? <==> r.1.current.None?)
              && (r.0.Fail? ==> r.1.current == s.current)
    ensures r.0.Pass? ==> r.1.current.None?
    ensures r.1.directories == s.directories
    ensures WellFormed(s) ==> WellFormed(r.1)
  {
    if s.current.None? then (Pass, s)
    else
      var f := s.current.value;
      if !f.Complete() then (Fail(PreviousFileUnfinished(f.written, f.size)), s)
      else
        var (o, ch) := ScpEngine.WriteMessage([0], s.channel);
        if o.Fail? then (o, s.(channel := ch))
        else (Pass, PushState(ch, None, s.directories))
  }

  /** `finishDirectory`: refused with no directory open; otherwise the
      current file is finished, and the top directory is popped and its
      end line sent. */
  function FinishDirectory(s: PushState): (r: (Outcome<ScpError>, PushState))
    ensures NoDirectories(s) ==> r == (Fail(NoDirectoriesActive), s)
    ensures !NoDirectories(s) && FinishFile(s).0.Fail? ==> r == FinishFile(s)
    ensures !NoDirectories(s) && FinishFile(s).0.Pass? ==>
              var s1 := FinishFile(s).1;
              var dirs := s.directories.value;
              && r.1.directories == Some(dirs[..|dirs| - 1])
              && r.1.current.None?
              && r.1.channel.output == s1.channel.output + AsciiBytes(END_MESSAGE)
    ensures WellFormed(s) ==> WellFormed(r.1)
  {
    if NoDirectories(s) then (Fail(NoDirectoriesActive), s)
    else
      var (o, s1) := FinishFile(s);
      if o.Fail? then (o, s1)
      else
        var dirs := s1.directories.value;
        var (o2, ch) := Send(END_MESSAGE, s1.channel);
        (o2, PushState(ch, s1.current, Some(dirs[..|dirs| - 1])))
  }

  /** `nextDirectory(name, mode)`: refused unless recursive; otherwise the
      current file is finished, the stack made if needed, and the
      directory (whose mode is standardized first) is pushed and its line
      sent. */
  function NextDirectory(copyMode: CopyMode, name: string, mode: string, s: PushState): (r: (Outcome<ScpError>, PushState))
    ensures copyMode != Recursive ==> r == (Fail(NotRecursive), s)
    ensures copyMode == Recursive && FinishFile(s).0.Fail? ==> r == FinishFile(s)
    ensures copyMode == Recursive && FinishFile(s).0.Pass? && !MatchesModePattern(mode) ==>
              r.0 == Fail(InvalidMode(mode)) && r.1.channel == FinishFile(s).1.channel
    ensures copyMode == Recursive && FinishFile(s).0.Pass? && MatchesModePattern(mode) ==>
              var s1 := FinishFile(s).1;
              var d := ScpDirectory(name, StandardizeMode(mode).value);
              && r.1.directories == Some((if s.directories.None? then [] else s.directories.value) + [d])
              && r.1.current.None?
              && r.1.channel.output == s1.channel.output + AsciiBytes(DirectoryMessage(d))
    ensures WellFormed(s) ==> WellFormed(r.1)
  {
    if copyMode != Recursive then (Fail(NotRecursive), s)
    else
      var (o, s1) := FinishFile(s);
      if o.Fail? then (o, s1)
      else
        var dirs := if s1.directories.None? then [] else s1.directories.value;
        var standard := StandardizeMode(mode);
        if standard.Failure? then (Fail(standard.error), s1.(directories := Some(dirs)))
        else
          var d := ScpDirectory(name, standard.value);
          var (o2, ch) := Send(DirectoryMessage(d), s1.channel);
          (o2, PushState(ch, s1.current, Some(dirs + [d])))
  }

  /** `nextFile(name, size, mode)`: the previous file is finished, the new
      one (mode standardized) becomes current and its line is sent. */
  function NextFile(name: string, size: int, mode: string, s: PushState): (r: (Outcome<ScpError>, PushState))
    ensures FinishFile(s).0.Fail? ==> r == FinishFile(s)
    ensures FinishFile(s).0.Pass? && !MatchesModePattern(mode) ==> r == (Fail(InvalidMode(mode)), FinishFile(s).1)
    ensures FinishFile(s).0.Pass? && MatchesModePattern(mode) ==>
              var s1 := FinishFile(s).1;
              var f := FileView(name, size, StandardizeMode(mode).value, 0);
              && r.1.current == Some(f)
              && r.1.directories == s.directories
              && r.1.channel.output == s1.channel.output + AsciiBytes(FileMessage(f))
    ensures WellFormed(s) ==> WellFormed(r.1)
  {
    var (o, s1) := FinishFile(s);
    if o.Fail? then (o, s1)
    else
      var standard := StandardizeMode(mode);
      if standard.Failure? then (Fail(standard.error), s1)
      else
        var f := FileView(name, size, standard.value, 0);
        var (o2, ch) := Send(FileMessage(f), s1.channel);
        (o2, PushState(ch, Some(f), s1.directories))
  }

  /** `write(b)`: with no current file, Java's `NullPointerException`;
      otherwise the file counts the byte (refusing it once complete) and
      only then does its low eight bits go out. */
  function Write(b: int, s: PushState): (r: (Outcome<ScpError>, PushState))
    ensures s.current.None? ==> r == (Fail(NullReference), s)
    ensures s.current.Some? ==>
              var (o, f) := s.current.value.Increment();
              if o.Fail? then r == (o, s)
              else r == (Pass, s.(current := Some(f), channel := s.channel.Write([(b % 256) as byte])))
    ensures WellFormed(s) ==> WellFormed(r.1)
  {
    if s.current.None? then (Fail(NullReference), s)
    else
      var (o, f) := s.current.value.Increment();
      if o.Fail? then (o, s)
      else (Pass, s.(current := Some(f), channel := s.channel.Write([(b % 256) as byte])))
  }

  /** The loop of `close`: finish directories until none is open; the
      first failure stops it. */
  function CloseDirectories(s: PushState): (r: (Outcome<ScpError>, PushState))
    ensures r.0.Pass? ==> NoDirectories(r.1)
    ensures s.current.None? ==> r.1.current.None?
    ensures WellFormed(s) ==> WellFormed(r.1)
    decreases if s.directories.None? then 0 else |s.directories.value|
  {
    if NoDirectories(s) then (Pass, s)
    else
      var (o, s1) := FinishDirectory(s);
      if o.Fail? then (o, s1) else CloseDirectories(s1)
  }

  /** `close` up to the closing of the channel: finish the current file,
      then every open directory. */
  function Close(s: PushState): (r: (Outcome<ScpError>, PushState))
    ensures FinishFile(s).0.Fail? ==> r == FinishFile(s)
    ensures FinishFile(s).0.Pass? ==> r == CloseDirectories(FinishFile(s).1)
    ensures r.0.Pass? ==> r.1.current.None? && NoDirectories(r.1)
    ensures WellFormed(s) ==> WellFormed(r.1)
  {
    var (o, s1) := FinishFile(s);
    if o.Fail? then (o, s1) else CloseDirectories(s1)
  }

  // ---------------------------------------------------------------------
  // Properties

  /** A file made by `nextFile` with a non-negative size takes exactly
      `size` bytes: `write` passes while fewer have been written, and is
      refused, changing nothing, once all have been. */
  lemma WriteAcceptsExactlySize(b: int, s: PushState)
    requires WellFormed(s) && s.current.Some? && s.current.value.size >= 0
    ensures Write(b, s).0.Pass? <==> s.current.value.written < s.current.value.size
    ensures Write(b, s).0.Fail? ==> Write(b, s) == (Fail(TooManyBytes(s.current.value.name)), s)
  {
  }

  /** The repeated `write` of a whole byte sequence, stopping at the first
      refusal. */
  function WriteAll(data: seq<int>, s: PushState): (r: (Outcome<ScpError>, PushState))
    decreases |data|
  {
    if |data| == 0 then (Pass, s)
    else
      var (o, s1) := Write(data[0], s);
      if o.Fail? then (o, s1) else WriteAll(data[1..], s1)
  }

  /** The low eight bits of each `int` written. */
  function LowBytes(data: seq<int>): (r: seq<byte>)
    ensures |r| == |data|
  {
    if |data| == 0 then [] else [(data[0] % 256) as byte] + LowBytes(data[1..])
  }

  /** Writing as many bytes as the current file still lacks passes,
      sends their low eight bits in order, and completes the file. */
  lemma {:induction false} WriteAllCompletes(data: seq<int>, s: PushState)
    requires s.current.Some? && s.current.value.written + |data| == s.current.value.size
    ensures var r := WriteAll(data, s);
            && r.0.Pass?
            && r.1 == s.(current := Some(s.current.value.(written := s.current.value.size)),
                         channel := Channel(s.channel.input, s.channel.output + LowBytes(data)))
    decreases |data|
  {
    if |data| > 0 {
      var (o, s1) := Write(data[0], s);
      WriteAllCompletes(data[1..], s1);
      assert s.channel.output + [(data[0] % 256) as byte] + LowBytes(data[1..]) == s.channel.output + LowBytes(data);
    }
  }

  /** `n` zero acknowledgements, the input a well-behaved sink sends. */
  function Zeros(n: nat): (r: seq<byte>)
    ensures |r| == n && forall i :: 0 <= i < n ==> r[i] == 0
  {
    if n == 0 then [] else [0] + Zeros(n - 1)
  }

  /** `n` end-of-directory lines. */
  function EndLines(n: nat): (r: seq<byte>)
    ensures |r| == 2 * n
  {
    if n == 0 then [] else EndLines(n - 1) + AsciiBytes(END_MESSAGE)
  }

  /** One acknowledged end line. */
  lemma SendEndAcknowledged(rest: seq<byte>, out: seq<byte>)
    ensures Send(END_MESSAGE, Channel([0] + rest, out)) == (Pass, Channel(rest, out + AsciiBytes(END_MESSAGE)))
  {
    CheckAckZero(rest, out + AsciiBytes(END_MESSAGE));
  }

  /** With no file open and every acknowledgement a zero, `close` writes
      exactly one end line per open directory and leaves none open. */
  lemma {:induction false} CloseWritesEndLines(dirs: seq<ScpDirectory>, rest: seq<byte>, out: seq<byte>)
    ensures CloseDirectories(PushState(Channel(Zeros(|dirs|) + rest, out), None, Some(dirs)))
         == (Pass, PushState(Channel(rest, out + EndLines(|dirs|)), None, Some([])))
    decreases |dirs|
  {
    var s := PushState(Channel(Zeros(|dirs|) + rest, out), None, Some(dirs));
    if |dirs| == 0 {
      assert Zeros(0) + rest == rest;
      assert out + EndLines(0) == out;
    } else {
      var n := |dirs|;
      assert Zeros(n) + rest == [0] + (Zeros(n - 1) + rest);
      SendEndAcknowledged(Zeros(n - 1) + rest, out);
      var s1 := PushState(Channel(Zeros(n - 1) + rest, out + AsciiBytes(END_MESSAGE)), None, Some(dirs[..n - 1]));
      assert FinishDirectory(s) == (Pass, s1);
      CloseWritesEndLines(dirs[..n - 1], rest, out + AsciiBytes(END_MESSAGE));
      EndLinesFront(n);
      assert out + AsciiBytes(END_MESSAGE) + EndLines(n - 1) == out + (AsciiBytes(END_MESSAGE) + EndLines(n - 1));
    }
  }

  /** The end lines can be counted from either side. */
  lemma {:induction false} EndLinesFront(n: nat)
    requires n > 0
    ensures EndLines(n) == AsciiBytes(END_MESSAGE) + EndLines(n - 1)
  {
    if n > 1 {
      EndLinesFront(n - 1);
    }
  }

  /** The line `nextFile` sends is the control line of the matching file
      `ScpEntry`, so the two engines speak the same protocol. */
  lemma FileMessageMatchesEntry(name: string, size: int, mode: string)
    requires MatchesModePattern(mode)
    ensures FileMessage(FileView(name, size, StandardizeMode(mode).value, 0)) == ControlLine(NewFile(name, size, mode).value)
  {
    var m := StandardizeMode(mode).value;
    var file := NewFile(name, size, mode).value;
    assert file == ScpEntry(Some(name), size, Some(m), File);
    assert ControlLine(file) == ControlFields("C", m, IntToString(size), name) + "\n";
  }

  /** The line `nextDirectory` sends is the control line of the matching
      directory `ScpEntry`. */
  lemma DirectoryMessageMatchesEntry(name: string, mode: string)
    requires MatchesModePattern(mode)
    ensures DirectoryMessage(ScpDirectory(name, StandardizeMode(mode).value)) == ControlLine(NewDirectory(name, mode).value)
  {
    var m := StandardizeMode(mode).value;
    var directory := NewDirectory(name, mode).value;
    assert directory == ScpEntry(Some(name), 0, Some(m), Directory);
    assert ControlLine(directory) == ControlFields("D", m, "0", name) + "\n";
    assert "D" + m + " " + "0" + " " + name == "D" + m + " 0 " + name;
  }

  /** The line `finishDirectory` sends is the end-of-directory entry's. */
  lemma EndMessageMatchesEntry()
    ensures END_MESSAGE == ControlLine(NewEndOfDirectory())
  {
  }

  /** Round trip: what `nextFile` sends, the receiving side's
      `parseMessage` reads back as the file entry, consuming exactly the
      line. */
  lemma FileMessageRoundTrip(name: string, size: int, mode: string, rest: seq<byte>, out: seq<byte>)
    requires MatchesModePattern(mode) && IsWireName(name) && LONG_MIN <= size <= LONG_MAX
    ensures var f := FileView(name, size, StandardizeMode(mode).value, 0);
            ParseMessage(Channel(AsciiBytes(FileMessage(f)) + rest, out)) == (Success(Some(NewFile(name, size, mode).value)), Channel(rest, out))
  {
    FileMessageMatchesEntry(name, size, mode);
    ControlLineRoundTrip(NewFile(name, size, mode).value, rest, out);
  }

  /** Round trip for the line `nextDirectory` sends. */
  lemma DirectoryMessageRoundTrip(name: string, mode: string, rest: seq<byte>, out: seq<byte>)
    requires MatchesModePattern(mode) && IsWireName(name)
    ensures var d := ScpDirectory(name, StandardizeMode(mode).value);
            ParseMessage(Channel(AsciiBytes(DirectoryMessage(d)) + rest, out)) == (Success(Some(NewDirectory(name, mode).value)), Channel(rest, out))
  {
    DirectoryMessageMatchesEntry(name, mode);
    ControlLineRoundTrip(NewDirectory(name, mode).value, rest, out);
  }

  // ---------------------------------------------------------------------
  // The legacy acknowledgement loop

  /** The error-text loop of this class's `checkAck` as written: each pass
      reads one byte to compare with '\n' and then reads a second byte,
      which is the one appended. `None` means the loop never ends: at the
      end of the channel `read()` gives -1 on every call, never '\n'. */
  function LegacyAckLoopAsWritten(input: seq<byte>): Option<(string, seq<byte>)>
    decreases |input|
  {
    if |input| == 0 then None
    else if input[0] == LF then Some(("", input[1..]))
    else if |input| == 1 then None
    else
      match LegacyAckLoopAsWritten(input[2..])
      case None => None
      case Some((m, rest)) => Some(([input[1] as int as char] + m, rest))
  }

  /** As written, the error text "ab" (bytes 97, 98, then '\n') comes out
      as "b": the byte tested against '\n' is never kept. The corrected
      `AckMessage` keeps "ab". */
  lemma LegacyAckDropsCharacters()
    ensures LegacyAckLoopAsWritten([97, 98, LF]) == Some(("b", []))
    ensures AckMessage([97, 98, LF]) == ("ab", [])
  {
    var input: seq<byte> := [97, 98, LF];
    assert input[2..] == [LF];
    assert input[1..] == [98, LF];
    assert input[1..][1..] == [LF];
    assert [LF][1..] == [];
    assert AckMessage([LF]) == ("", []);
    var tail: seq<byte> := [98, LF];
    assert tail[1..] == [LF] && tail[0] as int as char == 'b';
    assert AckMessage(tail[1..]) == ("", []);
    assert ['b'] + "" == "b";
    assert AckMessage(tail) == ("b", []);
    assert input[0] as int as char == 'a';
    assert ['a'] + "b" == "ab";
  }

  /** As written, a one-character error text ("x", byte 120) hangs the
      stream: its '\n' is read as the appended byte, and the loop then
      waits at the end of the channel for ever. The corrected `AckMessage`
      stops at it. */
  lemma LegacyAckSkipsNewline()
    ensures LegacyAckLoopAsWritten([120, LF]) == None
    ensures AckMessage([120, LF]) == ("x", [])
  {
    var input: seq<byte> := [120, LF];
    assert input[2..] == [];
    assert input[1..] == [LF];
    assert [LF][1..] == [];
    assert AckMessage([LF]) == ("", []);
    assert input[0] as int as char == 'x';
    assert ['x'] + "" == "x";
  }
}

/** The classes: `ScpOutputStream` and its `ScpFile`, each method proved
    to follow the matching `ScpPush` function. */
module ScpOutputStreams {
  import opened Wrappers
  import opened ScpErrors
  import opened ScpEntries
  import opened ScpWire
  import opened ScpPush
  import ScpEngine

  /** The `ScpFile` inner class: the current file and its byte count. */
  class ScpFile {
    const name: string
    const size: int
    const mode: string
    var written: int

    function View(): FileView
      reads this
    {
      FileView(name, size, mode, written)
    }

    constructor (name: string, size: int, mode: string)
      ensures View() == FileView(name, size, mode, 0)
    {
      this.name := name;
      this.size := size;
      this.mode := mode;
      this.written := 0;
    }

    /** The Java constructor, which standardizes the mode and throws
        before any file exists when the mode is invalid. */
    static method Create(name: string, size: int, mode: string) returns (r: Result<ScpFile, ScpError>)
      ensures r.Success? <==> MatchesModePattern(mode)
      ensures r.Failure? ==> r.error == InvalidMode(mode)
      ensures r.Success? ==> fresh(r.value) && r.value.View() == FileView(name, size, StandardizeMode(mode).value, 0)
    {
      var standard := StandardizeMode(mode);
      if standard.Failure? {
        return Failure(standard.error);
      }
      var f := new ScpFile(name, size, standard.value);
      return Success(f);
    }

    /** `increment`. */
    method Increment() returns (o: Outcome<ScpError>)
      modifies this
      ensures (o, View()) == old(View()).Increment()
    {
      if written == size {
        return Fail(TooManyBytes(name));
      }
      written := written + 1;
      o := Pass;
    }
  }

  class ScpOutputStream {
    const copyMode: CopyMode
    const command: string
    var channel: Channel
    var currentFile: ScpFile?
    var directoryStack: Option<seq<ScpDirectory>>
    var connected: bool

    ghost function Snapshot(): PushState
      reads this, currentFile
    {
      PushState(channel, if currentFile == null then None else Some(currentFile.View()), directoryStack)
    }

    ghost predicate Valid()
      reads this, currentFile
    {
      WellFormed(Snapshot())
    }

    constructor (path: string, copyMode: CopyMode, channel: Channel)
      ensures this.copyMode == copyMode && command == Command(copyMode, path)
      ensures this.channel == channel && connected
      ensures currentFile == null && directoryStack.None?
    {
      this.copyMode := copyMode;
      this.command := copyMode.GetCommand() + path;
      this.channel := channel;
      this.currentFile := null;
      this.directoryStack := None;
      this.connected := true;
    }

    /** The Java constructor: once the channel is connected, the remote's
        first acknowledgement is checked; an error one means no stream. */
    static method Open(path: string, copyMode: CopyMode, remote: seq<byte>) returns (r: Result<ScpOutputStream, ScpError>)
      ensures var (ack, ch) := CheckAck(Channel(remote, []));
              && (r.Success? <==> ack.Success?)
              && (r.Failure? ==> r.error == ack.error)
              && (r.Success? ==>
                    && fresh(r.value) && r.value.Valid() && r.value.connected
                    && r.value.command == Command(copyMode, path)
                    && r.value.Snapshot() == PushState(ch, None, None))
    {
      var (ack, ch) := CheckAck(Channel(remote, []));
      if ack.Failure? {
        return Failure(ack.error);
      }
      var s := new ScpOutputStream(path, copyMode, ch);
      return Success(s);
    }

    /** `writeMessage(bytes)`. */
    method WriteMessage(bytes: seq<byte>) returns (o: Outcome<ScpError>)
      modifies this
      ensures (o, channel) == ScpEngine.WriteMessage(bytes, old(channel))
      ensures currentFile == old(currentFile) && directoryStack == old(directoryStack) && connected == old(connected)
    {
      var (ack, ch) := ScpEngine.WriteMessage(bytes, channel);
      channel := ch;
      o := ack;
    }

    method FinishFile() returns (o: Outcome<ScpError>)
      requires Valid()
      modifies this
      ensures Valid()
      ensures (o, Snapshot()) == ScpPush.FinishFile(old(Snapshot()))
      ensures connected == old(connected)
    {
      if currentFile != null {
        if currentFile.written != currentFile.size {
          return Fail(PreviousFileUnfinished(currentFile.written, currentFile.size));
        }
        o := WriteMessage([0]);
        if o.Fail? {
          return;
        }
        currentFile := null;
      }
      o := Pass;
    }

    method FinishDirectory() returns (o: Outcome<ScpError>)
      requires Valid()
      modifies this
      ensures Valid()
      ensures (o, Snapshot()) == ScpPush.FinishDirectory(old(Snapshot()))
      ensures connected == old(connected)
    {
      if directoryStack.None? || |directoryStack.value| == 0 {
        return Fail(NoDirectoriesActive);
      }
      o := FinishFile();
      if o.Fail? {
        return;
      }
      var dirs := directoryStack.value;
      directoryStack := Some(dirs[..|dirs| - 1]);
      o := WriteMessage(AsciiBytes(END_MESSAGE));
    }

    method NextDirectory(name: string, mode: string := DEFAULT_DIRECTORY_MODE) returns (o: Outcome<ScpError>)
      requires Valid()
      modifies this
      ensures Valid()
      ensures (o, Snapshot()) == ScpPush.NextDirectory(copyMode, name, mode, old(Snapshot()))
      ensures connected == old(connected)
    {
      if copyMode != Recursive {
        return Fail(NotRecursive);
      }
      o := FinishFile();
      if o.Fail? {
        return;
      }
      if directoryStack.None? {
        directoryStack := Some([]);
      }
      var standard := StandardizeMode(mode);
      if standard.Failure? {
        return Fail(standard.error);
      }
      var d := ScpDirectory(name, standard.value);
      directoryStack := Some(directoryStack.value + [d]);
      o := WriteMessage(AsciiBytes(DirectoryMessage(d)));
    }

    method NextFile(name: string, size: int, mode: string := DEFAULT_FILE_MODE) returns (o: Outcome<ScpError>)
      requires Valid()
      modifies this
      ensures Valid()
      ensures (o, Snapshot()) == ScpPush.NextFile(name, size, mode, old(Snapshot()))
      ensures connected == old(connected)
    {
      o := FinishFile();
      if o.Fail? {
        return;
      }
      var f := ScpFile.Create(name, size, mode);
      if f.Failure? {
        return Fail(f.error);
      }
      currentFile := f.value;
      o := WriteMessage(AsciiBytes(FileMessage(currentFile.View())));
    }

    method Write(b: int) returns (o: Outcome<ScpError>)
      requires Valid()
      modifies this, currentFile
      ensures Valid()
      ensures (o, Snapshot()) == ScpPush.Write(b, old(Snapshot()))
      ensures currentFile == old(currentFile) && connected == old(connected)
    {
      if currentFile == null {
        return Fail(NullReference);
      }
      o := currentFile.Increment();
      if o.Fail? {
        return;
      }
      channel := channel.Write([(b % 256) as byte]);
    }

    /** `close`: finish the current file, then each open directory; once
        all of that is acknowledged the channel and session are closed. */
    method Close() returns (o: Outcome<ScpError>)
      requires Valid()
      modifies this
      ensures Valid()
      ensures (o, Snapshot()) == ScpPush.Close(old(Snapshot()))
      ensures connected == (old(connected) && o.Fail?)
    {
      o := FinishFile();
      if o.Fail? {
        return;
      }
      if directoryStack.Some? {
        ghost var start := Snapshot();
        while |directoryStack.value| > 0
          invariant Valid() && directoryStack.Some? && currentFile == null
          invariant o == Pass && connected == old(connected)
          invariant CloseDirectories(Snapshot()) == CloseDirectories(start)
          decreases |directoryStack.value|
        {
          o := FinishDirectory();
          if o.Fail? {
            return;
          }
        }
      }
      connected := false;
    }
  }
}
