/** Whole transfers built from the engine's steps: what a sending side
    writes for one file, and how a fetching side reads it back. These are
    the sequences of calls `ScpFileOutputStream` and `ScpFileInputStream`
    make over a connection. */
module ScpTransfers {
  import opened Wrappers
  import opened JavaText
  import opened ScpErrors
  import opened ScpEntries
  import opened ScpWire
  import opened ScpEngine
  import opened Seqs

  /** The bytes as `read()` returns them. */
  function AsInts(data: seq<byte>): (r: seq<int>)
    ensures |r| == |data|
    ensures forall i :: 0 <= i < |data| ==> r[i] == data[i] as int
  {
    if |data| == 0 then [] else [data[0] as int] + AsInts(data[1..])
  }

  /** `n` calls of `read()` on the input file on top of the stack. */
  function ReadAllTop(n: nat, s: State): (r: (seq<int>, State))
    requires CurrentInput(s.frames).Some?
    ensures |r.0| == n
    ensures CurrentInput(r.1.frames).Some?
    ensures |r.1.frames| == |s.frames| && r.1.frames[..|s.frames| - 1] == s.frames[..|s.frames| - 1]
  {
    if n == 0 then ([], s)
    else
      var (b, s1) := ReadTop(s);
      var (bs, s2) := ReadAllTop(n - 1, s1);
      ([b] + bs, s2)
  }

  /** `write(b)` for each byte in turn on the output file on top of the
      stack, stopping at the first refusal. */
  function WriteAllTop(data: seq<byte>, s: State): (r: (Outcome<ScpError>, State))
    requires CurrentOutput(s.frames).Some?
    ensures CurrentOutput(r.1.frames).Some?
    ensures |r.1.frames| == |s.frames| && r.1.frames[..|s.frames| - 1] == s.frames[..|s.frames| - 1]
  {
    if |data| == 0 then (Pass, s)
    else
      var (o, s1) := WriteTop(data[0] as int, s);
      if o.Fail? then (o, s1) else WriteAllTop(data[1..], s1)
  }

  /** Reading `n` bytes of a file whose stream has at least `n` left gives
      the next `n` bytes of the channel and counts them; the frames below
      the file are untouched. */
  lemma {:induction false} ReadAllTopData(data: seq<byte>, rest: seq<byte>, lower: seq<FrameView>, entry: ScpEntry, count: int, closed: bool,
                                          output: seq<byte>)
    requires 0 <= count && count + |data| <= entry.size
    ensures ReadAllTop(|data|, State(Channel(data + rest, output), lower + [InputFileView(entry, count, closed)]))
         == (AsInts(data), State(Channel(rest, output), lower + [InputFileView(entry, count + |data|, closed)]))
    decreases |data|
  {
    if |data| == 0 {
      assert data + rest == rest;
    } else {
      var s := State(Channel(data + rest, output), lower + [InputFileView(entry, count, closed)]);
      var s1 := State(Channel(data[1..] + rest, output), lower + [InputFileView(entry, count + 1, closed)]);
      assert data + rest == [data[0]] + (data[1..] + rest);
      ReadTopCounts(data[0], data[1..] + rest, lower, entry, count, closed, output);
      ReadAllTopData(data[1..], rest, lower, entry, count + 1, closed, output);
      assert ReadAllTop(|data|, s).0 == [data[0] as int] + ReadAllTop(|data[1..]|, s1).0;
    }
  }

  /** One byte of a file with room left is read from the channel and
      counted. */
  lemma ReadTopCounts(b: byte, input: seq<byte>, lower: seq<FrameView>, entry: ScpEntry, count: int, closed: bool, output: seq<byte>)
    requires count != entry.size
    ensures ReadTop(State(Channel([b] + input, output), lower + [InputFileView(entry, count, closed)]))
         == (b as int, State(Channel(input, output), lower + [InputFileView(entry, count + 1, closed)]))
  {
    assert ([b] + input)[1..] == input;
    assert (lower + [InputFileView(entry, count, closed)])[..|lower|] == lower;
  }

  /** Writing bytes a file still has room for sends them unchanged and
      counts them; the frames below the file are untouched. */
  lemma {:induction false} WriteAllTopData(data: seq<byte>, lower: seq<FrameView>, entry: ScpEntry, count: int, closed: bool,
                                           input: seq<byte>, output: seq<byte>)
    requires 0 <= count && count + |data| <= entry.size
    ensures WriteAllTop(data, State(Channel(input, output), lower + [OutputFileView(entry, count, closed)]))
         == (Pass, State(Channel(input, output + data), lower + [OutputFileView(entry, count + |data|, closed)]))
    decreases |data|
  {
    var s := State(Channel(input, output), lower + [OutputFileView(entry, count, closed)]);
    if |data| == 0 {
      assert output + data == output;
    } else {
      var s1 := State(Channel(input, output + [data[0]]), lower + [OutputFileView(entry, count + 1, closed)]);
      WriteTopCounts(data[0], lower, entry, count, closed, input, output);
      assert WriteAllTop(data, s) == WriteAllTop(data[1..], s1);
      WriteAllTopData(data[1..], lower, entry, count + 1, closed, input, output + [data[0]]);
      AppendThree(output, [data[0]], data[1..]);
      assert [data[0]] + data[1..] == data;
    }
  }

  /** One byte a file still has room for is sent unchanged and counted. */
  lemma WriteTopCounts(b: byte, lower: seq<FrameView>, entry: ScpEntry, count: int, closed: bool, input: seq<byte>, output: seq<byte>)
    requires count != entry.size
    ensures WriteTop(b as int, State(Channel(input, output), lower + [OutputFileView(entry, count, closed)]))
         == (Pass, State(Channel(input, output + [b]), lower + [OutputFileView(entry, count + 1, closed)]))
  {
    assert (b as int) % 256 == b as int;
    assert (lower + [OutputFileView(entry, count, closed)])[..|lower|] == lower;
  }

  /** One more byte than the file holds is refused, and nothing is sent. */
  lemma WriteBeyondSize(b: int, s: State)
    requires CurrentOutput(s.frames).Some?
    requires var f := s.frames[|s.frames| - 1]; f.ioCount == f.entry.size
    ensures WriteTop(b, s).0.Fail? && WriteTop(b, s).1.channel == s.channel
  {
  }

  /** A read past the end of the file gives -1 and touches nothing. */
  lemma ReadBeyondSize(s: State)
    requires CurrentInput(s.frames).Some?
    requires var f := s.frames[|s.frames| - 1]; f.ioCount == f.entry.size
    ensures ReadTop(s).0 == -1 && ReadTop(s).1.channel == s.channel
  {
  }

  /** The life of an `ScpFileOutputStream` writing `data`: open a sending
      connection, put the entry, write the bytes, then close the entry and
      the connection. `remote` is what the remote side answers. */
  function SendFile(entry: ScpEntry, data: seq<byte>, remote: seq<byte>): (r: (Outcome<ScpError>, Channel))
    requires entry.Valid() && entry.IsFile()
  {
    var (o0, s0) := Open(To, remote);
    if o0.Fail? then (o0, s0.channel)
    else
      var (o1, s1) := PutNextEntry(entry, s0);
      if o1.Fail? then (o1, s1.channel)
      else FinishSend(data, s1)
  }

  /** The rest of `SendFile` once the entry is put: write the bytes, then
      close the entry and the connection. */
  function FinishSend(data: seq<byte>, s1: State): (r: (Outcome<ScpError>, Channel))
    requires CurrentOutput(s1.frames).Some?
  {
    var (o2, s2) := WriteAllTop(data, s1);
    if o2.Fail? then (o2, s2.channel)
    else
      var (o3, s3) := CloseEntry(s2);
      if o3.Fail? then (o3, s3.channel)
      else
        var (o4, s4) := CloseAll(s3);
        (o4, s4.channel)
  }

  /** The life of an `ScpFileInputStream` reading `n` bytes: open a
      fetching connection, get the next entry, read, then close the entry
      and the connection. */
  function ReceiveFile(n: nat, remote: seq<byte>): (r: (Result<(ScpEntry, seq<int>), ScpError>, Channel))
    ensures r.0.Success? ==> r.0.value.0.Valid() && r.0.value.0.IsFile() && |r.0.value.1| == n
  {
    var (_, s0) := Open(From, remote);
    var (next, s1) := GetNextEntry(s0);
    if next.Failure? then (Failure(next.error), s1.channel)
    else if next.value.None? || !next.value.value.IsFile() then (Failure(NullReference), s1.channel)
    else FinishReceive(n, next.value.value, s1)
  }

  /** The rest of `ReceiveFile` once a file entry is read: read the bytes,
      then close the entry and the connection. */
  function FinishReceive(n: nat, entry: ScpEntry, s1: State): (r: (Result<(ScpEntry, seq<int>), ScpError>, Channel))
    requires CurrentInput(s1.frames).Some?
    ensures r.0.Success? ==> r.0.value.0 == entry && |r.0.value.1| == n
  {
    var (bytes, s2) := ReadAllTop(n, s1);
    var (o3, s3) := CloseEntry(s2);
    if o3.Fail? then (Failure(o3.error), s3.channel)
    else
      var (o4, s4) := CloseAll(s3);
      match o4
      case Fail(e) => (Failure(e), s4.channel)
      case Pass => (Success((entry, bytes)), s4.channel)
  }

  /** On a fresh sending connection, a file entry whose control line is
      acknowledged sends that line and pushes its stream. */
  lemma PutFile(entry: ScpEntry, rest: seq<byte>)
    requires IsWireEntry(entry) && entry.IsFile()
    ensures PutNextEntry(entry, State(Channel([0 as byte] + rest, []), []))
         == (Pass, State(Channel(rest, AsciiBytes(ControlLine(entry))), [OutputFileView(entry, 0, false)]))
  {
    var line := AsciiBytes(ControlLine(entry));
    var s0 := State(Channel([0 as byte] + rest, []), []);
    assert ([] + line) == line;
    assert FinishFile(s0) == (Pass, s0);
    CheckAckZero(rest, line);
    assert WriteMessage(line, s0.channel) == (Pass, Channel(rest, line));
    assert s0.frames + [OutputFileView(entry, 0, false)] == [OutputFileView(entry, 0, false)];
  }

  /** The sending side, answered with three zero acks (connection,
      control line, end of data), sends exactly the control line, the
      data and a zero status byte, and succeeds. */
  lemma SendFileWrites(entry: ScpEntry, data: seq<byte>, rest: seq<byte>)
    requires IsWireEntry(entry) && entry.IsFile() && |data| == entry.size
    ensures SendFile(entry, data, [0, 0, 0] + rest) == (Pass, Channel(rest, AsciiBytes(ControlLine(entry)) + data + [0]))
  {
    var line := AsciiBytes(ControlLine(entry));
    var remote := [0 as byte, 0, 0] + rest;
    var s0 := State(Channel([0 as byte, 0] + rest, []), []);
    assert remote[1..] == [0 as byte, 0] + rest;
    assert Open(To, remote) == (Pass, s0);
    assert [0 as byte, 0] + rest == [0 as byte] + ([0 as byte] + rest);
    var s1 := State(Channel([0 as byte] + rest, line), [OutputFileView(entry, 0, false)]);
    PutFile(entry, [0 as byte] + rest);
    FinishSendWrites(entry, data, line, rest);
  }

  /** Writing a whole file and closing it, with the remote's zero status
      byte to come. */
  lemma FinishSendWrites(entry: ScpEntry, data: seq<byte>, line: seq<byte>, rest: seq<byte>)
    requires entry.Valid() && entry.IsFile() && |data| == entry.size
    ensures FinishSend(data, State(Channel([0 as byte] + rest, line), [OutputFileView(entry, 0, false)]))
         == (Pass, Channel(rest, line + data + [0]))
  {
    var s1 := State(Channel([0 as byte] + rest, line), [OutputFileView(entry, 0, false)]);
    var lower: seq<FrameView> := [];
    WriteAllTopData(data, lower, entry, 0, false, [0 as byte] + rest, line);
    assert lower + [OutputFileView(entry, 0, false)] == s1.frames;
    assert lower + [OutputFileView(entry, 0 + |data|, false)] == [OutputFileView(entry, |data|, false)];
    var s2 := State(Channel([0 as byte] + rest, line + data), [OutputFileView(entry, |data|, false)]);
    assert WriteAllTop(data, s1) == (Pass, s2);
    assert ([0 as byte] + rest)[1..] == rest;
    assert CloseEntry(s2) == (Pass, State(Channel(rest, line + data + [0]), []));
  }

  /** On a stack of directories, a file's control line is read as that
      file, acknowledged, and its stream pushed. */
  lemma GetNextFile(entry: ScpEntry, after: seq<byte>, out: seq<byte>)
    requires IsWireEntry(entry) && entry.IsFile()
    ensures GetNextEntry(State(Channel(AsciiBytes(ControlLine(entry)) + after, out), []))
         == (Success(Some(entry)), State(Channel(after, out + [0]), [InputFileView(entry, 0, false)]))
  {
    var s0 := State(Channel(AsciiBytes(ControlLine(entry)) + after, out), []);
    ControlLineRoundTrip(entry, after, out);
    assert FinishFile(s0) == (Pass, s0);
    assert [] + [InputFileView(entry, 0, false)] == [InputFileView(entry, 0, false)];
  }

  /** Closing a fully read file sends an ack and consumes the remote's
      zero status byte. */
  lemma CloseReadFile(entry: ScpEntry, rest: seq<byte>, out: seq<byte>)
    ensures CloseEntry(State(Channel([0] + rest, out), [InputFileView(entry, entry.size, false)]))
         == (Pass, State(Channel(rest, out + [0]), []))
  {
    CheckAckZero(rest, out + [0]);
  }

  /** The fetching side, given what the sending side wrote followed by
      anything, reads back the same entry and the same bytes, answers
      with three acks (connection, entry, end of data), and leaves the
      rest unread. */
  lemma ReceiveFileReads(entry: ScpEntry, data: seq<byte>, rest: seq<byte>)
    requires IsWireEntry(entry) && entry.IsFile() && |data| == entry.size
    ensures ReceiveFile(|data|, AsciiBytes(ControlLine(entry)) + (data + ([0] + rest)))
         == (Success((entry, AsInts(data))), Channel(rest, [0, 0, 0]))
  {
    var line := AsciiBytes(ControlLine(entry));
    var afterLine := data + ([0 as byte] + rest);
    var remote := line + afterLine;
    var s0 := State(Channel(remote, [0]), []);
    assert Open(From, remote) == (Pass, s0);
    GetNextFile(entry, afterLine, [0]);
    assert [0 as byte] + [0] == [0, 0];
    var s1 := State(Channel(afterLine, [0, 0]), [InputFileView(entry, 0, false)]);
    assert GetNextEntry(s0) == (Success(Some(entry)), s1);
    FinishReceiveReads(entry, data, rest);
  }

  /** Reading a whole file and closing it, with the remote's zero status
      byte to come. */
  lemma FinishReceiveReads(entry: ScpEntry, data: seq<byte>, rest: seq<byte>)
    requires entry.IsFile() && |data| == entry.size
    ensures FinishReceive(|data|, entry, State(Channel(data + ([0] + rest), [0, 0]), [InputFileView(entry, 0, false)]))
         == (Success((entry, AsInts(data))), Channel(rest, [0, 0, 0]))
  {
    var s1 := State(Channel(data + ([0 as byte] + rest), [0, 0]), [InputFileView(entry, 0, false)]);
    var s2 := State(Channel([0 as byte] + rest, [0, 0]), [InputFileView(entry, |data|, false)]);
    var lower: seq<FrameView> := [];
    ReadAllTopData(data, [0 as byte] + rest, lower, entry, 0, false, [0, 0]);
    assert lower + [InputFileView(entry, 0, false)] == s1.frames;
    assert lower + [InputFileView(entry, 0 + |data|, false)] == s2.frames;
    CloseReadFile(entry, rest, [0, 0]);
    assert [0 as byte, 0] + [0] == [0, 0, 0];
    var s3 := State(Channel(rest, [0, 0, 0]), []);
    assert CloseAll(s3) == (Pass, s3);
  }

  /** What one side sends for a file, the other side reads back: the
      entry (name, size, mode) and every byte of its content, whatever
      follows on either channel. */
  lemma FileRoundTrip(entry: ScpEntry, data: seq<byte>, acks: seq<byte>, tail: seq<byte>)
    requires IsWireEntry(entry) && entry.IsFile() && |data| == entry.size
    ensures SendFile(entry, data, [0, 0, 0] + acks).0.Pass?
    ensures ReceiveFile(|data|, SendFile(entry, data, [0, 0, 0] + acks).1.output + tail)
         == (Success((entry, AsInts(data))), Channel(tail, [0, 0, 0]))
  {
    SendFileWrites(entry, data, acks);
    AppendFour(AsciiBytes(ControlLine(entry)), data, [0], tail);
    ReceiveFileReads(entry, data, tail);
  }
}
