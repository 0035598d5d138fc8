/** The SCP wire format as `ScpConnection` speaks it over the exec
    channel: single-byte acknowledgements, `C`/`D`/`E` control lines read
    one space- or newline-terminated segment at a time, and raw payload.

    The channel is a value: `input` holds the bytes the remote side has
    still to deliver and `output` every byte written so far. A read at the
    end of `input` gives -1, as `InputStream.read` does at end of stream. */
module ScpWire {
  import opened Wrappers
  import opened JavaText
  import opened ScpErrors
  import opened ScpEntries
  import opened Seqs

  newtype byte = x: int | 0 <= x < 256

  const LF: byte := 10
  const SPACE: byte := 32
  /** The size of `readMessageSegment`'s buffer. */
  const SEGMENT_BUFFER: nat := 1024

  datatype Channel = Channel(input: seq<byte>, output: seq<byte>)
  {
    /** `inputStream.read()`: the next byte, or -1 at end of stream. */
    function Read(): (r: (int, Channel))
      ensures r.1.output == output
      ensures |input| == 0 ==> r == (-1, this)
      ensures |input| > 0 ==> r.0 == input[0] as int && r.1.input == input[1..]
    {
      if |input| == 0 then (-1, this) else (input[0] as int, Channel(input[1..], output))
    }

    /** `outputStream.write(bytes)` followed by `flush()`. */
    function Write(bytes: seq<byte>): Channel
    {
      Channel(input, output + bytes)
    }
  }

  /** `String.getBytes(US_ASCII)`: characters outside ASCII become '?'. */
  function AsciiBytes(s: string): (r: seq<byte>)
    ensures |r| == |s|
    ensures forall i :: 0 <= i < |s| ==> r[i] as int == (if s[i] as int < 128 then s[i] as int else '?' as int)
  {
    if |s| == 0 then [] else [(if s[0] as int < 128 then s[0] as int else '?' as int) as byte] + AsciiBytes(s[1..])
  }

  lemma AsciiBytesAppend(a: string, b: string)
    ensures AsciiBytes(a + b) == AsciiBytes(a) + AsciiBytes(b)
  {
    var l, r := AsciiBytes(a + b), AsciiBytes(a) + AsciiBytes(b);
    assert |l| == |r|;
    forall i | 0 <= i < |l| ensures l[i] == r[i] {
      if i < |a| {
        assert (a + b)[i] == a[i];
      } else {
        assert (a + b)[i] == b[i - |a|];
      }
    }
  }

  /** `new String(bytes, US_ASCII)`: a byte above 127 decodes to U+FFFD. */
  function DecodeAscii(bytes: seq<byte>): (r: string)
    ensures |r| == |bytes|
    ensures forall i :: 0 <= i < |bytes| ==> r[i] == (if bytes[i] < 128 then bytes[i] as int as char else '\U{FFFD}')
  {
    if |bytes| == 0 then "" else [if bytes[0] < 128 then bytes[0] as int as char else '\U{FFFD}'] + DecodeAscii(bytes[1..])
  }

  predicate IsAscii(s: string) {
    forall i :: 0 <= i < |s| ==> s[i] as int < 128
  }

  lemma DecodeAsciiBytes(s: string)
    requires IsAscii(s)
    ensures DecodeAscii(AsciiBytes(s)) == s
  {
    var d := DecodeAscii(AsciiBytes(s));
    assert |d| == |s|;
    forall i | 0 <= i < |s| ensures d[i] == s[i] {
    }
  }

  // ---------------------------------------------------------------------
  // Acknowledgements

  /** The text of an error acknowledgement: the characters up to the first
      '\n', which is consumed but not kept, each byte taken as the char of
      the same code. The end of the channel also ends the text (see
      `AckMessageAsWritten` for what the source does there). */
  function AckMessage(input: seq<byte>): (r: (string, seq<byte>))
    ensures |r.1| <= |input|
    ensures r.1 == input[|input| - |r.1|..]
  {
    if |input| == 0 then ("", [])
    else if input[0] == LF then ("", input[1..])
    else
      var (m, rest) := AckMessage(input[1..]);
      ([input[0] as int as char] + m, rest)
  }

  /** The corrected error-text loop stops: at the first '\n', which it
      consumes, keeping the bytes before it as text; or, with no '\n' left,
      at the end of the channel, having consumed everything. */
  lemma {:induction false} AckMessageStops(input: seq<byte>, k: nat)
    requires k <= |input|
    requires forall i :: 0 <= i < k ==> input[i] != LF
    requires k == |input| || input[k] == LF
    ensures |AckMessage(input).0| == k
    ensures forall i :: 0 <= i < k ==> AckMessage(input).0[i] == input[i] as int as char
    ensures AckMessage(input).1 == if k == |input| then [] else input[k + 1..]
  {
    if k > 0 {
      AckMessageStops(input[1..], k - 1);
      var (m, rest) := AckMessage(input[1..]);
      assert AckMessage(input) == ([input[0] as int as char] + m, rest);
      forall i | 0 <= i < k ensures AckMessage(input).0[i] == input[i] as int as char {
        if i > 0 {
          assert AckMessage(input).0[i] == m[i - 1];
        }
      }
    }
  }

  /** `checkAck`: reads one byte; 1 or 2 is an error whose text follows up
      to '\n'; any other value (0, a control-line type byte, -1 at end of
      stream) is returned unchanged. */
  function CheckAck(ch: Channel): (r: (Result<int, ScpError>, Channel))
    ensures r.1.output == ch.output
    ensures r.0.Success? <==> (|ch.input| == 0 || (ch.input[0] != 1 && ch.input[0] != 2))
    ensures r.0.Success? ==> r.1 == ch.Read().1 && r.0.value == ch.Read().0
    ensures r.0.Failure? ==> r.0.error.AckError? && r.0.error.message == AckMessage(ch.input[1..]).0
  {
    var (b, ch1) := ch.Read();
    if b == 1 || b == 2 then
      var (message, rest) := AckMessage(ch1.input);
      (Failure(AckError(message)), Channel(rest, ch1.output))
    else (Success(b), ch1)
  }

  /** A zero acknowledgement is consumed and passes. */
  lemma CheckAckZero(rest: seq<byte>, out: seq<byte>)
    ensures CheckAck(Channel([0] + rest, out)) == (Success(0), Channel(rest, out))
  {
    assert ([0 as byte] + rest)[1..] == rest;
  }

  /** Text without '\n' followed by '\n' is read back as the text, and
      reading stops right after the '\n'. */
  lemma AckMessageOfText(text: string, rest: seq<byte>)
    requires IsAscii(text) && '\n' !in text
    ensures AckMessage(AsciiBytes(text) + [LF] + rest) == (text, rest)
  {
    var body := AsciiBytes(text) + [LF] + rest;
    var k := |text|;
    forall i | 0 <= i < k ensures body[i] != LF {
      assert body[i] == AsciiBytes(text)[i];
      assert text[i] != '\n';
    }
    assert body[k] == LF;
    AckMessageStops(body, k);
    var m := AckMessage(body).0;
    assert m == text by {
      forall i | 0 <= i < k ensures m[i] == text[i] {
        assert body[i] == AsciiBytes(text)[i];
      }
    }
    assert body[k + 1..] == rest;
  }

  /** An error acknowledgement carries the remote's text verbatim and
      consumes it through its newline. */
  lemma CheckAckError(code: byte, text: string, rest: seq<byte>, out: seq<byte>)
    requires code == 1 || code == 2
    requires IsAscii(text) && '\n' !in text
    ensures CheckAck(Channel([code] + AsciiBytes(text) + [LF] + rest, out))
         == (Failure(AckError(text)), Channel(rest, out))
  {
    var input := [code] + AsciiBytes(text) + [LF] + rest;
    assert input[0] == code;
    assert input[1..] == AsciiBytes(text) + [LF] + rest;
    AckMessageOfText(text, rest);
  }

  /** The error-text loop of `checkAck` exactly as written: it stops only
      when `read()` returns '\n', appending `(char) c` for every other
      value, -1 at the end of the channel included. `fuel` bounds the
      number of reads; `None` means the loop had not stopped by then. */
  function AckLoopAsWritten(input: seq<byte>, fuel: nat): Option<(string, seq<byte>)>
  {
    if fuel == 0 then None
    else if |input| == 0 then
      match AckLoopAsWritten(input, fuel - 1)
      case None => None
      case Some((m, rest)) => Some((['\U{FFFF}'] + m, rest))
    else if input[0] == LF then Some(("", input[1..]))
    else
      match AckLoopAsWritten(input[1..], fuel - 1)
      case None => None
      case Some((m, rest)) => Some(([input[0] as int as char] + m, rest))
  }

  /** As written, an error acknowledgement whose text is not followed by
      '\n' before the channel ends keeps `checkAck` reading forever: no
      number of reads ends the loop. */
  lemma {:induction false} AckLoopAsWrittenNeverEnds(input: seq<byte>, fuel: nat)
    requires LF !in input
    ensures AckLoopAsWritten(input, fuel) == None
  {
    if fuel > 0 {
      if |input| == 0 {
        AckLoopAsWrittenNeverEnds(input, fuel - 1);
      } else {
        assert input[0] in input;
        assert forall b :: b in input[1..] ==> b in input;
        AckLoopAsWrittenNeverEnds(input[1..], fuel - 1);
      }
    }
  }

  /** Where a '\n' does arrive, the loop as written and the corrected
      `AckMessage` agree: same text, same bytes left over. */
  lemma {:induction false} AckLoopAsWrittenAgrees(input: seq<byte>, k: nat)
    requires k < |input| && input[k] == LF
    requires forall i :: 0 <= i < k ==> input[i] != LF
    ensures AckLoopAsWritten(input, k + 1) == Some(AckMessage(input))
  {
    if k > 0 {
      AckLoopAsWrittenAgrees(input[1..], k - 1);
    }
  }

  /** The smallest input that shows the hang: the error code 1 and then the
      end of the channel. The corrected `CheckAck` fails with an empty
      message instead. */
  lemma CheckAckAtEndOfChannel(out: seq<byte>, fuel: nat)
    ensures AckLoopAsWritten([], fuel) == None
    ensures CheckAck(Channel([1], out)) == (Failure(AckError("")), Channel([], out))
  {
    AckLoopAsWrittenNeverEnds([], fuel);
  }

  // ---------------------------------------------------------------------
  // Control lines

  /** One step of `readMessageSegment`, with the bytes kept so far in
      `kept`: a byte that is -1 once cast to a Java `byte` (end of stream
      or 0xFF) gives null; a space or '\n' ends the segment and is consumed;
      a 1025th kept byte overruns the buffer. */
  function SegmentFrom(input: seq<byte>, kept: seq<byte>): (r: (Result<Option<string>, ScpError>, seq<byte>))
    requires |kept| <= SEGMENT_BUFFER
    ensures |r.1| <= |input| && r.1 == input[|input| - |r.1|..]
    decreases |input|
  {
    if |input| == 0 then (Success(None), input)
    else if input[0] == 0xFF then (Success(None), input[1..])
    else if input[0] == SPACE || input[0] == LF then (Success(Some(DecodeAscii(kept))), input[1..])
    else if |kept| == SEGMENT_BUFFER then (Failure(SegmentTooLong), input[1..])
    else SegmentFrom(input[1..], kept + [input[0]])
  }

  /** One read of the segment loop: end of stream or 0xFF ends the
      segment with nothing, a space or '\n' ends it with the bytes kept so
      far, a full buffer fails, and any other byte is kept. */
  lemma SegmentFromRead(input: seq<byte>, kept: seq<byte>)
    requires |kept| <= SEGMENT_BUFFER
    ensures |input| == 0 ==> SegmentFrom(input, kept) == (Success(None), input)
    ensures |input| > 0 && input[0] == 0xFF ==> SegmentFrom(input, kept) == (Success(None), input[1..])
    ensures |input| > 0 && (input[0] == SPACE || input[0] == LF) ==>
              SegmentFrom(input, kept) == (Success(Some(DecodeAscii(kept))), input[1..])
    ensures |input| > 0 && input[0] != 0xFF && input[0] != SPACE && input[0] != LF ==>
              && (|kept| == SEGMENT_BUFFER ==> SegmentFrom(input, kept) == (Failure(SegmentTooLong), input[1..]))
              && (|kept| < SEGMENT_BUFFER ==> SegmentFrom(input, kept) == SegmentFrom(input[1..], kept + [input[0]]))
  {
  }

  function ReadSegment(input: seq<byte>): (r: (Result<Option<string>, ScpError>, seq<byte>))
    ensures |r.1| <= |input| && r.1 == input[|input| - |r.1|..]
  {
    SegmentFrom(input, [])
  }

  /** Bytes that can stand inside a segment. */
  predicate IsSegmentText(bytes: seq<byte>) {
    forall i :: 0 <= i < |bytes| ==> bytes[i] != SPACE && bytes[i] != LF && bytes[i] != 0xFF
  }

  lemma {:induction false} SegmentFromText(text: seq<byte>, kept: seq<byte>, stop: byte, rest: seq<byte>)
    requires IsSegmentText(text) && |kept| + |text| <= SEGMENT_BUFFER
    requires stop == SPACE || stop == LF
    ensures SegmentFrom(text + ([stop] + rest), kept) == (Success(Some(DecodeAscii(kept + text))), rest)
    decreases |text|
  {
    var input := text + ([stop] + rest);
    if |text| == 0 {
      assert input == [stop] + rest;
      assert kept + text == kept;
    } else {
      assert input[0] == text[0];
      assert input[1..] == text[1..] + ([stop] + rest);
      SegmentFromText(text[1..], kept + [text[0]], stop, rest);
      assert kept + [text[0]] + text[1..] == kept + text;
    }
  }

  /** A segment of at most 1024 bytes followed by a space or '\n' reads
      back as its text, and reading stops right after the terminator. */
  lemma ReadSegmentOfText(text: seq<byte>, stop: byte, rest: seq<byte>)
    requires IsSegmentText(text) && |text| <= SEGMENT_BUFFER
    requires stop == SPACE || stop == LF
    ensures ReadSegment(text + ([stop] + rest)) == (Success(Some(DecodeAscii(text))), rest)
  {
    SegmentFromText(text, [], stop, rest);
    assert [] + text == text;
  }

  /** The type character `parseMessage` sees: `(char) checkAck()`, where
      -1 becomes U+FFFF. */
  function TypeChar(b: int): char
    requires -1 <= b < 256
  {
    if b == -1 then '\U{FFFF}' else b as char
  }

  /** The entry `parseMessage` builds once all three segments are read:
      `newFile(name, size, mode)` for 'C', `newDirectory(name, mode)` for
      'D' (the parsed size is dropped); a null mode fails in
      `standardizeMode`. */
  function BuildEntry(t: char, mode: Option<string>, size: int, name: string): (r: Result<ScpEntry, ScpError>)
    requires t == 'C' || t == 'D'
    ensures r.Success? <==> mode.Some? && MatchesModePattern(mode.value)
    ensures mode.None? ==> r == Failure(NullMode)
    ensures r.Success? ==> r.value.Valid() && r.value.name == Some(name)
    ensures r.Success? ==> r.value.mode == Some(StandardizeMode(mode.value).value)
    ensures r.Success? ==> (r.value.IsFile() <==> t == 'C') && !r.value.IsEndOfDirectory()
    ensures r.Success? && t == 'C' ==> r.value.size == size
  {
    if mode.None? then Failure(NullMode)
    else if t == 'C' then NewFile(name, size, mode.value)
    else NewDirectory(name, mode.value)
  }

  /** The name segment, the last of a `C`/`D` line. */
  function ParseName(t: char, mode: Option<string>, size: int, input: seq<byte>): (r: (Result<Option<ScpEntry>, ScpError>, seq<byte>))
    requires t == 'C' || t == 'D'
    ensures |r.1| <= |input|
    ensures r.0.Success? && r.0.value.Some? ==> r.0.value.value.Valid() && !r.0.value.value.IsEndOfDirectory()
    ensures r.0.Success? && r.0.value.Some? ==> (r.0.value.value.IsFile() <==> t == 'C')
  {
    var (name, rest) := ReadSegment(input);
    if name.Failure? then (Failure(name.error), rest)
    else if name.value.None? then (Success(None), rest)
    else
      var entry := BuildEntry(t, mode, size, name.value.value);
      if entry.Failure? then (Failure(entry.error), rest)
      else (Success(Some(entry.value)), rest)
  }

  /** The size segment: a null size makes the message null; text that is
      not a long fails in `Long.parseLong`. */
  function ParseSizeAndName(t: char, mode: Option<string>, input: seq<byte>): (r: (Result<Option<ScpEntry>, ScpError>, seq<byte>))
    requires t == 'C' || t == 'D'
    ensures |r.1| <= |input|
    ensures r.0.Success? && r.0.value.Some? ==> r.0.value.value.Valid() && !r.0.value.value.IsEndOfDirectory()
    ensures r.0.Success? && r.0.value.Some? ==> (r.0.value.value.IsFile() <==> t == 'C')
  {
    var (sizeText, rest) := ReadSegment(input);
    if sizeText.Failure? then (Failure(sizeText.error), rest)
    else if sizeText.value.None? then (Success(None), rest)
    else
      var size := ParseLong(sizeText.value.value);
      if size.None? then (Failure(BadNumber(sizeText.value.value)), rest)
      else ParseName(t, mode, size.value, rest)
  }

  /** The `C`/`D` branch of `parseMessage`, after the type byte: mode, size
      and name segments; a null size or name makes the whole message null;
      a null mode reaches `standardizeMode` and fails there. */
  function ParseFields(t: char, ch: Channel): (r: (Result<Option<ScpEntry>, ScpError>, Channel))
    requires t == 'C' || t == 'D'
    ensures r.1.output == ch.output
    ensures |r.1.input| <= |ch.input|
    ensures r.0.Success? && r.0.value.Some? ==> r.0.value.value.Valid() && !r.0.value.value.IsEndOfDirectory()
    ensures r.0.Success? && r.0.value.Some? ==> (r.0.value.value.IsFile() <==> t == 'C')
  {
    var (mode, rest) := ReadSegment(ch.input);
    if mode.Failure? then (Failure(mode.error), Channel(rest, ch.output))
    else
      var (result, after) := ParseSizeAndName(t, mode.value, rest);
      (result, Channel(after, ch.output))
  }

  /** `parseMessage` exactly as written: 'E' is taken alone, leaving the
      '\n' that ends its line in the channel, and -1 at the end of the
      channel is an unknown message type. */
  function ParseMessageAsWritten(ch: Channel): (r: (Result<Option<ScpEntry>, ScpError>, Channel))
  {
    var (ack, ch1) := CheckAck(ch);
    if ack.Failure? then (Failure(ack.error), ch1)
    else
      var t := TypeChar(ack.value);
      if t == 'E' then (Success(Some(NewEndOfDirectory())), ch1)
      else if t == 'C' || t == 'D' then ParseFields(t, ch1)
      else (Failure(UnknownMessageType(t)), ch1)
  }

  /** `parseMessage` as the engine uses it (see Findings): the end of the
      channel where a message would start gives null, and the '\n' after
      'E' is consumed with it. */
  function ParseMessage(ch: Channel): (r: (Result<Option<ScpEntry>, ScpError>, Channel))
    ensures r.1.output == ch.output
    ensures |r.1.input| <= |ch.input|
    ensures r.0.Success? && r.0.value.Some? ==> r.0.value.value.Valid()
    ensures |ch.input| == 0 ==> r == (Success(None), ch)
  {
    var (ack, ch1) := CheckAck(ch);
    if ack.Failure? then (Failure(ack.error), ch1)
    else if ack.value == -1 then (Success(None), ch1)
    else
      var t := TypeChar(ack.value);
      if t == 'E' then
        var ch2 := if |ch1.input| > 0 && ch1.input[0] == LF then Channel(ch1.input[1..], ch1.output) else ch1;
        (Success(Some(NewEndOfDirectory())), ch2)
      else if t == 'C' || t == 'D' then ParseFields(t, ch1)
      else (Failure(UnknownMessageType(t)), ch1)
  }

  /** The control line `EntryOutputStream` writes for a file, the one
      `OutputDirectoryEntry` writes for a directory (its size is always
      written as 0), and the end-of-directory line. */
  function ControlLine(e: ScpEntry): string
  {
    match e.kind
    case File => ControlFields("C", NullableText(e.mode), IntToString(e.size), NullableText(e.name)) + "\n"
    case Directory => ControlFields("D", NullableText(e.mode), "0", NullableText(e.name)) + "\n"
    case EndOfDirectory => "E\n"
  }

  /** The control line of an entry is its `toString` and a newline. */
  lemma ControlLineIsToString(e: ScpEntry)
    requires e.Valid()
    ensures ControlLine(e) == e.ToString() + "\n"
  {
  }

  /** A name the wire carries unchanged: ASCII, no space, no newline, and
      short enough for the segment buffer. */
  predicate IsWireName(name: string) {
    IsAscii(name) && ' ' !in name && '\n' !in name && |name| <= SEGMENT_BUFFER
  }

  lemma WireNameIsSegmentText(name: string)
    requires IsWireName(name)
    ensures IsSegmentText(AsciiBytes(name)) && |AsciiBytes(name)| <= SEGMENT_BUFFER
    ensures DecodeAscii(AsciiBytes(name)) == name
  {
    var b := AsciiBytes(name);
    forall i | 0 <= i < |b| ensures b[i] != SPACE && b[i] != LF && b[i] != 0xFF {
      assert name[i] != ' ' && name[i] != '\n';
    }
    DecodeAsciiBytes(name);
  }

  lemma NumberIsSegmentText(n: int)
    ensures IsAscii(IntToString(n)) && ' ' !in IntToString(n) && '\n' !in IntToString(n)
  {
    IntToStringHasNoSeparator(n, ' ');
    IntToStringHasNoSeparator(n, '\n');
  }

  /** An entry whose control line `parseMessage` reads back exactly. */
  predicate IsWireEntry(e: ScpEntry) {
    && e.Valid() && !e.IsEndOfDirectory()
    && IsWireName(e.name.value)
    && LONG_MIN <= e.size <= LONG_MAX
  }

  /** The bytes of a control line, grouped the way `parseMessage` reads
      them: type, then each segment with its terminator. */
  lemma LineBytes(t: string, mode: string, size: string, name: string, rest: seq<byte>)
    ensures AsciiBytes(ControlFields(t, mode, size, name) + "\n") + rest
         == AsciiBytes(t) + (AsciiBytes(mode) + ([SPACE] + (AsciiBytes(size) + ([SPACE] + (AsciiBytes(name) + ([LF] + rest))))))
  {
    var x1 := t + mode;
    var x2 := x1 + " ";
    var x3 := x2 + size;
    var x4 := x3 + " ";
    var x5 := x4 + name;
    AsciiBytesAppend(t, mode);
    AsciiBytesAppend(x1, " ");
    AsciiBytesAppend(x2, size);
    AsciiBytesAppend(x3, " ");
    AsciiBytesAppend(x4, name);
    AsciiBytesAppend(x5, "\n");
    assert AsciiBytes(" ") == [SPACE];
    assert AsciiBytes("\n") == [LF];
    var bt, bm, bs, bn := AsciiBytes(t), AsciiBytes(mode), AsciiBytes(size), AsciiBytes(name);
    var tail := [LF] + rest;
    AppendThree(bt + bm + [SPACE] + bs + [SPACE] + bn, [LF], rest);
    AppendThree(bt + bm + [SPACE] + bs + [SPACE], bn, tail);
    AppendThree(bt + bm + [SPACE] + bs, [SPACE], bn + tail);
    AppendThree(bt + bm + [SPACE], bs, [SPACE] + (bn + tail));
    AppendThree(bt + bm, [SPACE], bs + ([SPACE] + (bn + tail)));
    AppendThree(bt, bm, [SPACE] + (bs + ([SPACE] + (bn + tail))));
  }

  lemma NameRoundTrip(t: char, mode: string, size: int, name: string, rest: seq<byte>)
    requires t == 'C' || t == 'D'
    requires IsWireName(name) && MatchesModePattern(mode)
    ensures ParseName(t, Some(mode), size, AsciiBytes(name) + ([LF] + rest))
         == (Success(Some(BuildEntry(t, Some(mode), size, name).value)), rest)
  {
    WireNameIsSegmentText(name);
    ReadSegmentOfText(AsciiBytes(name), LF, rest);
  }

  lemma SizeRoundTrip(t: char, mode: string, size: int, after: seq<byte>)
    requires t == 'C' || t == 'D'
    requires LONG_MIN <= size <= LONG_MAX
    ensures ParseSizeAndName(t, Some(mode), AsciiBytes(IntToString(size)) + ([SPACE] + after))
         == ParseName(t, Some(mode), size, after)
  {
    NumberIsSegmentText(size);
    LongToStringLength(size);
    WireNameIsSegmentText(IntToString(size));
    ReadSegmentOfText(AsciiBytes(IntToString(size)), SPACE, after);
    ParseIntegerRoundTrip(size, LONG_MIN, LONG_MAX);
  }

  /** The three segments of a `C` or `D` line read back as the fields
      they were written from. */
  lemma FieldsRoundTrip(t: char, mode: string, size: int, name: string, rest: seq<byte>, out: seq<byte>)
    requires t == 'C' || t == 'D'
    requires IsStandardMode(mode) && IsWireName(name) && LONG_MIN <= size <= LONG_MAX
    ensures ParseFields(t, Channel(AsciiBytes(mode) + ([SPACE] + (AsciiBytes(IntToString(size)) + ([SPACE] + (AsciiBytes(name) + ([LF] + rest))))), out))
         == (Success(Some(BuildEntry(t, Some(mode), size, name).value)), Channel(rest, out))
  {
    var afterSize := AsciiBytes(name) + ([LF] + rest);
    var afterMode := AsciiBytes(IntToString(size)) + ([SPACE] + afterSize);
    assert IsWireName(mode) by {
      assert forall i :: 0 <= i < |mode| ==> '0' <= mode[i] <= '7';
    }
    WireNameIsSegmentText(mode);
    ReadSegmentOfText(AsciiBytes(mode), SPACE, afterMode);
    assert ReadSegment(AsciiBytes(mode) + ([SPACE] + afterMode)) == (Success(Some(mode)), afterMode);
    SizeRoundTrip(t, mode, size, afterSize);
    NameRoundTrip(t, mode, size, name, rest);
  }

  /** Building a wire entry back from its own fields gives the entry. */
  lemma BuildEntryOfFields(e: ScpEntry)
    requires IsWireEntry(e)
    ensures BuildEntry(if e.IsFile() then 'C' else 'D', e.mode, e.size, e.name.value) == Success(e)
  {
    StandardizeModeIdempotent(e.mode.value);
  }

  /** The fields of a `C` or `D` line as `ParseFields` reads them. */
  function FieldBytes(e: ScpEntry, rest: seq<byte>): seq<byte>
    requires IsWireEntry(e)
  {
    AsciiBytes(e.mode.value) + ([SPACE] + (AsciiBytes(IntToString(e.size)) + ([SPACE] + (AsciiBytes(e.name.value) + ([LF] + rest)))))
  }

  /** The control line of a wire entry is its type byte, then its fields. */
  lemma ControlLineBytes(e: ScpEntry, rest: seq<byte>)
    requires IsWireEntry(e)
    ensures AsciiBytes(ControlLine(e)) + rest == [(if e.IsFile() then 'C' else 'D') as int as byte] + FieldBytes(e, rest)
  {
    var t := if e.IsFile() then "C" else "D";
    var tb: byte := (if e.IsFile() then 'C' else 'D') as int as byte;
    assert IntToString(0) == "0";
    assert ControlLine(e) == ControlFields(t, e.mode.value, IntToString(e.size), e.name.value) + "\n";
    assert AsciiBytes(t) == [tb];
    LineBytes(t, e.mode.value, IntToString(e.size), e.name.value, rest);
  }

  /** A `C` or `D` type byte hands the rest of the line to `ParseFields`. */
  lemma ParseMessageOfType(tc: char, fields: seq<byte>, out: seq<byte>)
    requires tc == 'C' || tc == 'D'
    ensures ParseMessage(Channel([tc as int as byte] + fields, out)) == ParseFields(tc, Channel(fields, out))
  {
    var ch := Channel([tc as int as byte] + fields, out);
    assert ch.input[0] == tc as int as byte && ch.input[1..] == fields;
    assert CheckAck(ch) == (Success(tc as int), Channel(fields, out));
  }

  /** Round trip: parsing the control line written for a file or
      directory entry gives the same entry back and consumes exactly the
      line. */
  lemma ControlLineRoundTrip(e: ScpEntry, rest: seq<byte>, out: seq<byte>)
    requires IsWireEntry(e)
    ensures ParseMessage(Channel(AsciiBytes(ControlLine(e)) + rest, out)) == (Success(Some(e)), Channel(rest, out))
  {
    var tc := if e.IsFile() then 'C' else 'D';
    ControlLineBytes(e, rest);
    ParseMessageOfType(tc, FieldBytes(e, rest), out);
    FieldsRoundTrip(tc, e.mode.value, e.size, e.name.value, rest, out);
    BuildEntryOfFields(e);
  }
}

/** The two other discrepancies of `parseMessage`, shown on concrete input,
    with the corrected behaviour beside them. */
module ScpWireFindings {
  import opened Wrappers
  import opened ScpErrors
  import opened ScpEntries
  import opened ScpWire

  /** As written, the '\n' after 'E' stays in the channel and the next
      message is read as one of type '\n', which is refused; the corrected
      `ParseMessage` consumes it and then sees the end of the channel. */
  lemma EndOfDirectoryNewline(out: seq<byte>)
    ensures var first := ParseMessageAsWritten(Channel(AsciiBytes("E\n"), out));
            && first == (Success(Some(NewEndOfDirectory())), Channel([LF], out))
            && ParseMessageAsWritten(first.1).0 == Failure(UnknownMessageType('\n'))
    ensures var first := ParseMessage(Channel(AsciiBytes("E\n"), out));
            && first == (Success(Some(NewEndOfDirectory())), Channel([], out))
            && ParseMessage(first.1).0 == Success(None)
  {
    assert AsciiBytes("E\n") == [69, LF];
    assert [69 as byte, LF][1..] == [LF];
    assert [LF][1..] == [];
  }

  /** As written, the end of the channel where a message would start is a
      message of type U+FFFF, which is refused; the corrected `ParseMessage`
      returns null there, which is what a caller looping until null needs. */
  lemma EndOfChannelAtMessageStart(out: seq<byte>)
    ensures ParseMessageAsWritten(Channel([], out)).0 == Failure(UnknownMessageType('\U{FFFF}'))
    ensures ParseMessage(Channel([], out)) == (Success(None), Channel([], out))
  {
  }

  /** Everywhere else the two agree. */
  lemma ParseMessageAgrees(ch: Channel)
    requires |ch.input| > 0 && ch.input[0] != 69
    ensures ParseMessage(ch) == ParseMessageAsWritten(ch)
  {
  }
}
