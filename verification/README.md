# jsch-extension: SCP streams, tunnels and close aggregation in Dafny

This project models the core of jsch-extension, a Java library on top of
JSch. It has four parts:

- **SCP** (`com.pastdev.jsch.scp`):
  - `ScpConnection` is the protocol engine. It owns an exec channel and a
    stack of open entries. It reads and writes the control lines
    `C<mode> <size> <name>`, `D<mode> 0 <name>` and `E`, and it drives the
    acknowledgement handshake.
  - Above the engine sit the streams users hold: `ScpInputStream`,
    `ScpFileInputStream` and `ScpFileOutputStream`.
  - `ScpOutputStream` is an older sending stream with its own engine.
  - `ScpEntry` is the entry value, with its mode normalisation.
  - `ScpFile` is a remote path with its copy operations.
  - `DestinationOs` joins path elements with the remote separator.
- **Tunnels** (`com.pastdev.jsch.tunnel`):
  - `Tunnel` is one local port forward, written as a spec string
    `[alias:][localPort:]host:port`.
  - `TunnelConnectionManager` turns a list of lines `path|spec` into
    connections. Its nested `SessionFactoryCache` turns a hop path such as
    `user@gateway:22->target` into a chain of sessions, each proxied
    through the previous one.
- **`MultiCloseException`**, with the loop of
  `UnixSshFileSystemProvider.close` that uses it.

## How the model is built

**The SCP engine.**
- The channel is a value `Channel(input, output)`. `input` holds the bytes
  the remote side still has to send. `output` holds what has been written.
- Each class with state is a Dafny `class`, and each of its methods is
  proved to follow a pure function of a snapshot of that state:
  - `ScpConnections.ScpConnection` follows `ScpEngine`;
  - `ScpOutputStreams.ScpOutputStream` follows `ScpPush`.
- The protocol's properties are proved about those functions. They include
  the control-line round trips, bounded file streams, and a whole file
  sent by one side and read back by the other (`ScpTransfers`).

**Tunnels.**
- `Tunnel` is a class. It caches its spec and its assigned port the way
  the Java object does.
- In the manager, tunnels are held as their configured values
  (`Endpoints`).
- Session factories are modelled as `SessionSettings`: user, host, port
  and proxy. An SSH proxy holds the settings of the hop before it.

**Java library behaviour.**
- `JavaText` holds what the code needs from `java.lang`:
  - `String.split` with a literal separator;
  - `trim` and ASCII `toLowerCase`;
  - `Integer.parseInt` and `Long.parseLong`;
  - decimal rendering of numbers and `String.hashCode`.
- Java exceptions become `Failure`/`Fail` values. Java `null` becomes
  `None` or a nullable reference.

**Behaviour worth knowing:**
- The remote commands are `scp -tq` and `scp -fq`, with `r` added for
  recursive copies. See `ScpConnection.java:71-86`.
- Closing an input file that was not read to its end throws "stream not
  finished". This holds for a file closed by `getNextEntry` too. See
  `ScpConnection.java:361-371`.
- `ScpConnection.close` keeps only the first failure of its unwinding
  loop. A failure closing the channel's streams is logged, not
  aggregated. See `ScpConnection.java:119-161`.
- In a message cut off after its mode, a missing size or name returns
  null, but a missing mode reaches `newFile`/`newDirectory` as `null`.
  The model gives that case the error `NullMode`. See
  `ScpConnection.java:229-238`.
- `DestinationOs.joinPath` computes `start + count` in `int` arithmetic,
  so a range whose end overflows joins nothing. See
  `DestinationOs.java:19`.
- `String.hashCode` works on UTF-16 code units, so a character above
  U+FFFF contributes its two surrogates.

## Model

| member | source | states |
|---|---|---|
| ScpEntries.StandardizeMode | src/main/java/com/pastdev/jsch/scp/ScpEntry.java:68-76 | Accepts exactly the modes matching `[0-2]?[0-7]{3}` and gives "invalid file mode" otherwise. The result is a four-digit standard mode that ends with the given mode, padded only with leading zeros. |
| ScpEntries.StandardizeModeIdempotent | src/main/java/com/pastdev/jsch/scp/ScpEntry.java:68-76 | Standardizing twice is standardizing once, and a mode that is already standard is kept as it is. |
| ScpEntries.ExactlyOneKind | src/main/java/com/pastdev/jsch/scp/ScpEntry.java:36-46 | Every entry is exactly one of file, directory and end-of-directory. |
| ScpEntries.NewFile | src/main/java/com/pastdev/jsch/scp/ScpEntry.java:60-66 | Succeeds exactly when the mode is valid. The result is a valid file entry with the given name and size and the standardized mode. |
| ScpEntries.NewDirectory | src/main/java/com/pastdev/jsch/scp/ScpEntry.java:48-54 | Succeeds exactly when the mode is valid. The result is a valid directory entry of size 0 with the given name and the standardized mode. |
| ScpEntries.NewEndOfDirectory | src/main/java/com/pastdev/jsch/scp/ScpEntry.java:56-58 | An end-of-directory entry with no name, no mode and size 0. |
| ScpEntries.DefaultModes | src/main/java/com/pastdev/jsch/scp/ScpEntry.java:8-10 | Files default to 0640 and directories to 0750. |
| ScpEntries.ToStringShape | src/main/java/com/pastdev/jsch/scp/ScpEntry.java:78-86 | `toString` is `C<mode> <size> <name>` for a file, `D<mode> 0 <name>` for a directory and `E` for an end of directory, so its first character tells the kind. |
| ScpWire.Channel.Read | src/main/java/com/pastdev/jsch/scp/ScpConnection.java:389-396 | `read()` gives the next byte and consumes it, or -1 at the end of the channel. Nothing is written. |
| ScpWire.AsciiBytes | src/main/java/com/pastdev/jsch/scp/ScpConnection.java:300-311 | US-ASCII encoding: one byte per character, with `?` for every character outside ASCII. |
| ScpWire.DecodeAsciiBytes | src/main/java/com/pastdev/jsch/scp/ScpConnection.java:282-292 | Decoding the US-ASCII bytes of an ASCII string gives the string back. |
| ScpWire.AckMessage | src/main/java/com/pastdev/jsch/scp/ScpConnection.java:105-113 | The error text after a non-zero status byte runs up to the first '\n', which is consumed. What is left is a suffix of the input. |
| ScpWire.AckMessageStops | src/main/java/com/pastdev/jsch/scp/ScpConnection.java:105-113 | When the first '\n' (or the end of the channel) is at index k, the message is exactly the k bytes before it as characters, and reading resumes just past that '\n'. |
| ScpWire.CheckAck | src/main/java/com/pastdev/jsch/scp/ScpConnection.java:100-117 | Fails exactly when the status byte is 1 or 2, with the text that follows it. Otherwise it returns the byte read (-1 at the end of the channel) having consumed just that byte. It never writes. |
| ScpWire.CheckAckZero | src/main/java/com/pastdev/jsch/scp/ScpConnection.java:100-117 | A zero acknowledgement succeeds and consumes one byte. |
| ScpWire.AckMessageOfText | src/main/java/com/pastdev/jsch/scp/ScpConnection.java:105-113 | A remote error text free of '\n' is read back exactly, and the rest of the channel is left unread. |
| ScpWire.CheckAckError | src/main/java/com/pastdev/jsch/scp/ScpConnection.java:100-117 | Status 1 or 2 followed by a text and '\n' fails with exactly that text and consumes exactly that line. |
| ScpWire.AckLoopAsWrittenNeverEnds | src/main/java/com/pastdev/jsch/scp/ScpConnection.java:105-113 | As written, the error-text loop never ends when the channel ends before a '\n'. |
| ScpWire.AckLoopAsWrittenAgrees | src/main/java/com/pastdev/jsch/scp/ScpConnection.java:105-113 | Whenever a '\n' comes, the loop as written gives the same text as the corrected `AckMessage`. |
| ScpWire.CheckAckAtEndOfChannel | src/main/java/com/pastdev/jsch/scp/ScpConnection.java:105-113 | A status byte of 1 followed by nothing hangs the loop as written. The corrected `CheckAck` fails with an empty text. |
| ScpWire.SegmentFromRead | src/main/java/com/pastdev/jsch/scp/ScpConnection.java:282-292 | One step of `readMessageSegment`: the end of the channel or a 0xFF byte means no segment, and a space or '\n' ends the segment. |
| ScpWire.ReadSegmentOfText | src/main/java/com/pastdev/jsch/scp/ScpConnection.java:282-292 | A field of ASCII text followed by a space or '\n' is read back as that text, and the stop byte is consumed. |
| ScpWire.BuildEntry | src/main/java/com/pastdev/jsch/scp/ScpConnection.java:236-238 | `C` makes a file of the read size and `D` a directory. Both get the read name and standardized mode, and the result is never end-of-directory. A null mode or an invalid mode fails. |
| ScpWire.ParseName | src/main/java/com/pastdev/jsch/scp/ScpConnection.java:233-238 | Reading the name field: a missing name gives no entry. Otherwise the entry has the kind its type letter says and consumes no more than its input. |
| ScpWire.ParseSizeAndName | src/main/java/com/pastdev/jsch/scp/ScpConnection.java:230-238 | Reading the size field: a missing size gives no entry, and a size `Long.parseLong` refuses fails. Otherwise the name is read next. |
| ScpWire.ParseFields | src/main/java/com/pastdev/jsch/scp/ScpConnection.java:229-238 | The mode, size and name fields of a `C` or `D` line give a valid entry of the matching kind. Nothing is written. |
| ScpWire.ParseMessage | src/main/java/com/pastdev/jsch/scp/ScpConnection.java:221-245 | `parseMessage`, corrected: the end of the channel at a message start means no more entries. The result is always a valid entry, and nothing is written. |
| ScpWire.ControlLineIsToString | src/main/java/com/pastdev/jsch/scp/ScpConnection.java:335 | The line sent for an entry is its `toString` followed by '\n'. |
| ScpWire.NameRoundTrip | src/main/java/com/pastdev/jsch/scp/ScpConnection.java:233-238 | A wire-safe name followed by '\n' is read back as that name. |
| ScpWire.SizeRoundTrip | src/main/java/com/pastdev/jsch/scp/ScpConnection.java:230-232 | The decimal rendering of a `long` size, followed by a space, is parsed back to the same size. |
| ScpWire.FieldsRoundTrip | src/main/java/com/pastdev/jsch/scp/ScpConnection.java:229-238 | The fields `mode size name\n` are read back into the entry they describe, and the rest of the channel is left unread. |
| ScpWire.BuildEntryOfFields | src/main/java/com/pastdev/jsch/scp/ScpConnection.java:236-238 | Rebuilding a valid file or directory entry from its own type letter, mode, size and name gives the same entry. |
| ScpWire.ControlLineBytes | src/main/java/com/pastdev/jsch/scp/ScpConnection.java:408 | The bytes of a control line are the type letter followed by the field bytes. |
| ScpWire.ParseMessageOfType | src/main/java/com/pastdev/jsch/scp/ScpConnection.java:221-238 | A `C` or `D` byte at the message start hands the rest of the channel to the field parser. |
| ScpWire.ControlLineRoundTrip | src/main/java/com/pastdev/jsch/scp/ScpConnection.java:221-245 | What the sending side writes for a wire-safe entry, the receiving side's `parseMessage` reads back as the same entry. It consumes exactly that line, whatever follows. |
| ScpWireFindings.EndOfDirectoryNewline | src/main/java/com/pastdev/jsch/scp/ScpConnection.java:225-226 | As written, reading `E\n` leaves the '\n' unread, and the next message fails on it. The corrected parser consumes the line. |
| ScpWireFindings.EndOfChannelAtMessageStart | src/main/java/com/pastdev/jsch/scp/ScpConnection.java:222 | As written, an ended channel at a message start fails as an unknown message type U+FFFF. The corrected parser reports no more entries. |
| ScpWireFindings.ParseMessageAgrees | src/main/java/com/pastdev/jsch/scp/ScpConnection.java:221-245 | The two parsers agree on every other input. |
| ScpEngine.Command | src/main/java/com/pastdev/jsch/scp/ScpConnection.java:71-86 | The exec command is `scp -` then `t` (send) or `f` (fetch), `q`, `r` exactly when recursive, then a space and the path. |
| ScpEngine.Open | src/main/java/com/pastdev/jsch/scp/ScpConnection.java:61-66 | The stack starts empty. A fetching side writes one zero ack and cannot fail. A sending side writes nothing and fails exactly when the remote's first status is an error. |
| ScpEngine.WriteAck | src/main/java/com/pastdev/jsch/scp/ScpConnection.java:294-298 | Writes exactly one zero byte and reads nothing. |
| ScpEngine.WriteMessage | src/main/java/com/pastdev/jsch/scp/ScpConnection.java:300-311 | The message bytes are appended to the output. The call fails exactly when the acknowledgement that follows is an error. |
| ScpEngine.InputRead | src/main/java/com/pastdev/jsch/scp/ScpConnection.java:389-396 | At the declared size, -1 with nothing consumed. Otherwise the count goes up by one and the next channel byte is returned, or -1 when the channel has ended. |
| ScpEngine.InputClose | src/main/java/com/pastdev/jsch/scp/ScpConnection.java:361-371 | Closing twice does nothing. Closing a file not read to its size fails with both counts. Otherwise one zero ack is written, and the stream is closed exactly when the remote's status is not an error. |
| ScpEngine.OutputWrite | src/main/java/com/pastdev/jsch/scp/ScpConnection.java:428-447 | A byte beyond the declared size is refused with nothing sent. Otherwise it is counted and its low eight bits are written. |
| ScpEngine.OutputClose | src/main/java/com/pastdev/jsch/scp/ScpConnection.java:412-422 | Closing twice does nothing. Closing a file not written to its size fails with both counts. Otherwise a zero status byte is sent, and the stream is closed exactly when the remote acknowledges it. |
| ScpEngine.Complete | src/main/java/com/pastdev/jsch/scp/ScpConnection.java:319-345 | `complete` on a frame only adds to the output and consumes input, and it keeps the frame valid. A directory frame keeps its shape. A file frame changes only its closed flag, which is set exactly when the call passes. |
| ScpEngine.CompleteDirectory | src/main/java/com/pastdev/jsch/scp/ScpConnection.java:319-345 | `complete` on a directory being read passes and writes one ack. On a directory being written it sends the end-of-directory control line "E\n" as a message and checks its ack. |
| ScpEngine.CloseEntry | src/main/java/com/pastdev/jsch/scp/ScpConnection.java:163-165 | On an empty stack, fails with nothing changed. Otherwise the top frame is popped whatever `complete` does, and a well-formed stack stays well formed. |
| ScpEngine.CloseThroughDirectory | src/main/java/com/pastdev/jsch/scp/ScpConnection.java:190-197 | The stack left is a prefix of the one before, and well-formedness is kept. |
| ScpEngine.CloseThroughDirectoryPops | src/main/java/com/pastdev/jsch/scp/ScpConnection.java:190-197 | On success it pops the open file, if there is one, and exactly one directory. |
| ScpEngine.PushWellFormed | src/main/java/com/pastdev/jsch/scp/ScpConnection.java:199-204 | Pushing a valid frame on a stack of directories keeps it well formed. |
| ScpEngine.FinishFile | src/main/java/com/pastdev/jsch/scp/ScpConnection.java:184-186 | Closes the top frame exactly when it is a file. After a success on a well-formed stack only directories are left. |
| ScpEngine.AcceptMessage | src/main/java/com/pastdev/jsch/scp/ScpConnection.java:189-205 | No message returns null and changes nothing. A file or directory entry is returned, one ack is written, and its frame is pushed. An end-of-directory leaves the state `CloseThroughDirectory` leaves, and succeeds exactly when that loop passes. Well-formedness is kept. |
| ScpEngine.GetNextEntry | src/main/java/com/pastdev/jsch/scp/ScpConnection.java:183-206 | Any entry returned is valid. A file or directory returned has its frame pushed on the stack left after the open file is finished, with exactly one ack written. The channel only moves forward, and a well-formed stack stays well formed. |
| ScpEngine.GetNextEntryEndOfDirectory | src/main/java/com/pastdev/jsch/scp/ScpConnection.java:183-198 | On a well-formed stack, an end-of-directory that is read and accepted pops the open file, if there is one, and exactly one directory. |
| ScpEngine.PutNextEntry | src/main/java/com/pastdev/jsch/scp/ScpConnection.java:255-280 | After a successful put of a file or directory, the stack is the one left by finishing the file on top, plus the entry's fresh frame. The output is the one after that finish, plus exactly the entry's control line. The channel only moves forward, and well-formedness is kept. |
| ScpEngine.PutEndOfDirectoryPopsDirectory | src/main/java/com/pastdev/jsch/scp/ScpConnection.java:255-265 | Putting an end-of-directory entry on a directory being written, with the remote acknowledging, sends exactly "E\n", consumes one ack and pops exactly that directory. |
| ScpEngine.PutEndOfDirectoryAfterFile | src/main/java/com/pastdev/jsch/scp/ScpConnection.java:255-265 | With a finished file above that directory, the file's zero status byte goes out first, then "E\n". One ack is consumed for each, and both frames are popped. |
| ScpEngine.CloseAll | src/main/java/com/pastdev/jsch/scp/ScpConnection.java:119-128 | The unwinding loop of `close` leaves a prefix of the stack, and the empty stack when it passes. |
| ScpEngine.CloseAllFirstFailure | src/main/java/com/pastdev/jsch/scp/ScpConnection.java:119-128 | With k frames popped, the state left is the one reached by completing the top k frames in turn. Every frame but the last popped completed. A failure is exactly the last popped frame's failure. Success means every frame completed. |
| Unwinding.RunAllFirstFailure | src/main/java/com/pastdev/jsch/scp/ScpConnection.java:119-128 | For any step run up to n times and stopped by the first failure: the state left is the one the steps taken reach, every step but the last passed, a failure is the last step's, and the run passes exactly when all n steps pass. |
| ScpEngine.CurrentInput | src/main/java/com/pastdev/jsch/scp/ScpConnection.java:167-173 | The current input stream exists exactly when the top frame is an input file, and it is that frame. |
| ScpEngine.CurrentOutput | src/main/java/com/pastdev/jsch/scp/ScpConnection.java:175-181 | The current output stream exists exactly when the top frame is an output file, and it is that frame. |
| ScpEngine.ReadTop | src/main/java/com/pastdev/jsch/scp/ScpConnection.java:389-396 | `read()` on the current input file changes only that frame, which stays the current input. |
| ScpEngine.WriteTop | src/main/java/com/pastdev/jsch/scp/ScpConnection.java:443-447 | `write(b)` on the current output file changes only that frame, which stays the current output. |
| ScpConnections.ViewsOfKinds | src/main/java/com/pastdev/jsch/scp/ScpConnection.java:319-345 | Each frame object is seen as a directory exactly when it is a directory entry. |
| ScpConnections.EntryInputStream.constructor | src/main/java/com/pastdev/jsch/scp/ScpConnection.java:352-358 | A new input stream starts at count 0, open, and writes one ack. |
| ScpConnections.EntryInputStream.Read | src/main/java/com/pastdev/jsch/scp/ScpConnection.java:389-396 | Follows `InputRead` on its connection's channel and leaves the stack alone. |
| ScpConnections.EntryInputStream.Close | src/main/java/com/pastdev/jsch/scp/ScpConnection.java:361-371 | Follows `InputClose`. |
| ScpConnections.EntryOutputStream.Create | src/main/java/com/pastdev/jsch/scp/ScpConnection.java:404-410 | Sends the entry's `C` line. The stream exists exactly when the line is acknowledged, and then it is new and empty. |
| ScpConnections.EntryOutputStream.Write | src/main/java/com/pastdev/jsch/scp/ScpConnection.java:443-447 | Follows `OutputWrite`. |
| ScpConnections.EntryOutputStream.Close | src/main/java/com/pastdev/jsch/scp/ScpConnection.java:412-422 | Follows `OutputClose`. |
| ScpConnections.ScpConnection.constructor | src/main/java/com/pastdev/jsch/scp/ScpConnection.java:40-60 | A new connection has the command for its mode and path, an untouched channel and an empty stack. |
| ScpConnections.ScpConnection.Open | src/main/java/com/pastdev/jsch/scp/ScpConnection.java:40-69 | A connection exists exactly when the handshake passes, and its state is the one `Open` describes. |
| ScpConnections.ScpConnection.CompleteFrame | src/main/java/com/pastdev/jsch/scp/ScpConnection.java:319-345 | `complete` on a frame object does what `Complete` says of its view. |
| ScpConnections.ScpConnection.CloseEntry | src/main/java/com/pastdev/jsch/scp/ScpConnection.java:163-165 | Follows `ScpEngine.CloseEntry`. The top frame object goes, and no file stream is left on the stack. |
| ScpConnections.ScpConnection.CloseThroughDirectory | src/main/java/com/pastdev/jsch/scp/ScpConnection.java:190-197 | Follows `ScpEngine.CloseThroughDirectory`. |
| ScpConnections.ScpConnection.FinishFile | src/main/java/com/pastdev/jsch/scp/ScpConnection.java:184-186 | Follows `ScpEngine.FinishFile`. On success only directory frames are left. |
| ScpConnections.ScpConnection.PushInput | src/main/java/com/pastdev/jsch/scp/ScpConnection.java:199-204 | Pushes a new input frame for a file or directory and writes its ack. |
| ScpConnections.ScpConnection.GetNextEntry | src/main/java/com/pastdev/jsch/scp/ScpConnection.java:183-206 | Follows `ScpEngine.GetNextEntry`. |
| ScpConnections.ScpConnection.PushOutput | src/main/java/com/pastdev/jsch/scp/ScpConnection.java:274-279 | Sends the entry's control line. A new output frame is pushed exactly when the line is acknowledged. |
| ScpConnections.ScpConnection.PutNextEntry | src/main/java/com/pastdev/jsch/scp/ScpConnection.java:255-280 | Follows `ScpEngine.PutNextEntry`. |
| ScpConnections.ScpConnection.Close | src/main/java/com/pastdev/jsch/scp/ScpConnection.java:119-161 | Follows `ScpEngine.CloseAll` and always ends disconnected. |
| ScpConnections.ScpConnection.GetCurrentInputStream | src/main/java/com/pastdev/jsch/scp/ScpConnection.java:167-173 | Non-null exactly when the top frame is an input file, and then it is that stream. |
| ScpConnections.ScpConnection.GetCurrentOutputStream | src/main/java/com/pastdev/jsch/scp/ScpConnection.java:175-181 | Non-null exactly when the top frame is an output file, and then it is that stream. |
| ScpConnections.ScpConnection.ParseMessage | src/main/java/com/pastdev/jsch/scp/ScpConnection.java:221-245 | Follows `ScpWire.ParseMessage` on the channel. |
| ScpConnections.ScpConnection.ReadByte | src/main/java/com/pastdev/jsch/scp/ScpConnection.java:395 | Follows `Channel.Read`. |
| ScpConnections.ScpConnection.WriteAck | src/main/java/com/pastdev/jsch/scp/ScpConnection.java:294-298 | Follows `ScpEngine.WriteAck`. |
| ScpConnections.ScpConnection.CheckAck | src/main/java/com/pastdev/jsch/scp/ScpConnection.java:100-117 | Follows `ScpWire.CheckAck`. |
| ScpConnections.ScpConnection.WriteMessage | src/main/java/com/pastdev/jsch/scp/ScpConnection.java:300-311 | Follows `ScpEngine.WriteMessage`. |
| ScpConnections.ScpConnection.ReadMessageSegment | src/main/java/com/pastdev/jsch/scp/ScpConnection.java:282-292 | Follows `ScpWire.ReadSegment` on the input and writes nothing. |
| ScpStreams.ScpInputStream.constructor | src/main/java/com/pastdev/jsch/scp/ScpInputStream.java:22-25 | Opens a fetching connection with no current stream. |
| ScpStreams.ScpInputStream.GetNextEntry | src/main/java/com/pastdev/jsch/scp/ScpInputStream.java:39-43 | Follows `ScpEngine.GetNextEntry`. On success the readable stream is the connection's current input stream. |
| ScpStreams.ScpInputStream.Read | src/main/java/com/pastdev/jsch/scp/ScpInputStream.java:45-51 | With no current entry, "cannot read" and nothing is touched. Otherwise one `read` of that stream. |
| ScpStreams.ScpInputStream.CloseEntry | src/main/java/com/pastdev/jsch/scp/ScpInputStream.java:34-37 | Follows `ScpEngine.CloseEntry`. The current stream is dropped only when that passes. |
| ScpStreams.ScpInputStream.Close | src/main/java/com/pastdev/jsch/scp/ScpInputStream.java:27-32 | Follows `ScpEngine.CloseAll` and disconnects. |
| ScpStreams.ScpFileInputStream.Open | src/main/java/com/pastdev/jsch/scp/ScpFileInputStream.java:22-26 | Opens a file-only fetch and reads its first entry. A failure there leaves no stream. |
| ScpStreams.ScpFileInputStream.GetMode | src/main/java/com/pastdev/jsch/scp/ScpFileInputStream.java:28-30 | The first entry's mode, or a null-reference failure exactly when there is no entry. |
| ScpStreams.ScpFileInputStream.GetName | src/main/java/com/pastdev/jsch/scp/ScpFileInputStream.java:32-34 | The first entry's name, or a null-reference failure exactly when there is no entry. |
| ScpStreams.ScpFileInputStream.GetSize | src/main/java/com/pastdev/jsch/scp/ScpFileInputStream.java:36-38 | The first entry's size, or a null-reference failure exactly when there is no entry. |
| ScpStreams.ScpFileInputStream.Read | src/main/java/com/pastdev/jsch/scp/ScpFileInputStream.java:47-50 | The wrapped stream's `read`. |
| ScpStreams.ScpFileInputStream.Close | src/main/java/com/pastdev/jsch/scp/ScpFileInputStream.java:40-45 | Closes the entry, then the connection. A failure closing the entry skips the second step. |
| ScpStreams.ScpFileOutputStream.Open | src/main/java/com/pastdev/jsch/scp/ScpFileOutputStream.java:15-18 | Opens a file-only send and puts the entry. A failure in either step leaves no stream. |
| ScpStreams.ScpFileOutputStream.Write | src/main/java/com/pastdev/jsch/scp/ScpFileOutputStream.java:26-29 | With no current output, a null-reference failure and nothing touched. Otherwise one `WriteTop` step. |
| ScpStreams.ScpFileOutputStream.Close | src/main/java/com/pastdev/jsch/scp/ScpFileOutputStream.java:20-24 | Closes the entry, then the connection. A failure closing the entry skips the second step. |
| ScpTransfers.ReadAllTop | src/main/java/com/pastdev/jsch/scp/ScpConnection.java:389-396 | n reads of the current file give n values and touch no frame below it. |
| ScpTransfers.WriteAllTop | src/main/java/com/pastdev/jsch/scp/ScpConnection.java:443-447 | Repeated writes to the current file touch no frame below it. |
| ScpTransfers.ReadAllTopData | src/main/java/com/pastdev/jsch/scp/ScpConnection.java:389-396 | Reading n bytes of a file that has at least n left gives the next n channel bytes and counts them. |
| ScpTransfers.ReadTopCounts | src/main/java/com/pastdev/jsch/scp/ScpConnection.java:389-396 | One byte of a file with room left is read from the channel and counted. |
| ScpTransfers.WriteAllTopData | src/main/java/com/pastdev/jsch/scp/ScpConnection.java:443-447 | Writing bytes a file still has room for sends them unchanged and counts them. |
| ScpTransfers.WriteTopCounts | src/main/java/com/pastdev/jsch/scp/ScpConnection.java:443-447 | One byte a file still has room for is sent unchanged and counted. |
| ScpTransfers.WriteBeyondSize | src/main/java/com/pastdev/jsch/scp/ScpConnection.java:428-433 | Writing one byte more than the file holds is refused at once, and nothing is sent. |
| ScpTransfers.ReadBeyondSize | src/main/java/com/pastdev/jsch/scp/ScpConnection.java:391-393 | A read past the end of the file gives -1 and touches nothing. |
| ScpTransfers.ReceiveFile | src/main/java/com/pastdev/jsch/scp/ScpFileInputStream.java:22-50 | A successful single-file fetch yields a valid file entry and exactly n bytes. |
| ScpTransfers.FinishReceive | src/main/java/com/pastdev/jsch/scp/ScpFileInputStream.java:40-50 | The rest of a fetch returns the entry it was given and exactly n bytes. |
| ScpTransfers.PutFile | src/main/java/com/pastdev/jsch/scp/ScpConnection.java:255-280 | On a new sending connection, an acknowledged file entry sends its control line and pushes its stream. |
| ScpTransfers.SendFileWrites | src/main/java/com/pastdev/jsch/scp/ScpFileOutputStream.java:15-29 | With three zero acks, sending a file writes exactly its control line, its data and one zero status byte, and passes. |
| ScpTransfers.FinishSendWrites | src/main/java/com/pastdev/jsch/scp/ScpConnection.java:412-422 | Writing a whole file and closing it adds the data and one zero status byte. |
| ScpTransfers.GetNextFile | src/main/java/com/pastdev/jsch/scp/ScpConnection.java:183-206 | A file's control line is read as that file, acknowledged, and its stream pushed. |
| ScpTransfers.CloseReadFile | src/main/java/com/pastdev/jsch/scp/ScpConnection.java:361-371 | Closing a fully read file sends an ack and consumes the remote's zero status byte. |
| ScpTransfers.ReceiveFileReads | src/main/java/com/pastdev/jsch/scp/ScpFileInputStream.java:22-50 | Given what a sender wrote, the fetching side reads back the same entry and the same bytes. It answers with three acks and leaves the rest unread. |
| ScpTransfers.FinishReceiveReads | src/main/java/com/pastdev/jsch/scp/ScpConnection.java:361-396 | Reading a whole file and closing it gives back the data. |
| ScpTransfers.FileRoundTrip | src/main/java/com/pastdev/jsch/scp/ScpFileOutputStream.java:15-29 | What one side sends for a file, the other side reads back: the same name, size, mode and every content byte, whatever follows on either channel. |
| ScpPush.Command | src/main/java/com/pastdev/jsch/scp/ScpOutputStream.java:61 | The command is `scp -t ` (file only) or `scp -r ` (recursive), then the path. |
| ScpPush.FileView.Increment | src/main/java/com/pastdev/jsch/scp/ScpOutputStream.java:256-261 | Refused with "too many bytes" once complete, otherwise one byte more is counted. A valid file stays valid. |
| ScpPush.FinishFile | src/main/java/com/pastdev/jsch/scp/ScpOutputStream.java:136-146 | Nothing happens without a current file, and an incomplete file is refused. Otherwise a zero byte is sent as a message and the current file is cleared once that is acknowledged. |
| ScpPush.FinishDirectory | src/main/java/com/pastdev/jsch/scp/ScpOutputStream.java:126-134 | Refused with no directory open. Otherwise the file is finished, then the top directory is popped and `E\n` sent. Well-formedness is kept. |
| ScpPush.NextDirectory | src/main/java/com/pastdev/jsch/scp/ScpOutputStream.java:148-164 | Refused unless recursive. Otherwise the file is finished, the mode checked, the directory pushed and its line sent. |
| ScpPush.NextFile | src/main/java/com/pastdev/jsch/scp/ScpOutputStream.java:166-175 | The previous file is finished and an invalid mode refused. Otherwise the new file becomes current and its line is sent. |
| ScpPush.Write | src/main/java/com/pastdev/jsch/scp/ScpOutputStream.java:187-191 | With no current file, a null reference. Otherwise the byte is counted (refused once complete) and only then sent. |
| ScpPush.CloseDirectories | src/main/java/com/pastdev/jsch/scp/ScpOutputStream.java:110-112 | On success no directory is left open, and no file is opened. |
| ScpPush.Close | src/main/java/com/pastdev/jsch/scp/ScpOutputStream.java:106-124 | Finishes the file, then every directory. On success neither is left. |
| ScpPush.WriteAcceptsExactlySize | src/main/java/com/pastdev/jsch/scp/ScpOutputStream.java:187-191 | `write` passes exactly while fewer than `size` bytes have been written, and a refused write changes nothing. |
| ScpPush.WriteAllCompletes | src/main/java/com/pastdev/jsch/scp/ScpOutputStream.java:187-191 | Writing exactly the bytes a file lacks passes, sends their low eight bits in order, and completes the file. |
| ScpPush.SendEndAcknowledged | src/main/java/com/pastdev/jsch/scp/ScpOutputStream.java:133 | An acknowledged end line is written and consumes one ack. |
| ScpPush.CloseWritesEndLines | src/main/java/com/pastdev/jsch/scp/ScpOutputStream.java:110-112 | With zero acks and no open file, `close` writes one `E\n` per open directory and leaves none open. |
| ScpPush.EndLinesFront | src/main/java/com/pastdev/jsch/scp/ScpOutputStream.java:230-232 | The end lines can be counted from either side. |
| ScpPush.FileMessageMatchesEntry | src/main/java/com/pastdev/jsch/scp/ScpOutputStream.java:263-265 | The line `nextFile` sends is the control line of the matching `ScpEntry` file. |
| ScpPush.DirectoryMessageMatchesEntry | src/main/java/com/pastdev/jsch/scp/ScpOutputStream.java:234-236 | The line `nextDirectory` sends is the control line of the matching `ScpEntry` directory. |
| ScpPush.EndMessageMatchesEntry | src/main/java/com/pastdev/jsch/scp/ScpOutputStream.java:230-232 | `E\n` is the control line of the end-of-directory entry. |
| ScpPush.FileMessageRoundTrip | src/main/java/com/pastdev/jsch/scp/ScpOutputStream.java:263-265 | What `nextFile` sends, the receiver's `parseMessage` reads back as the same file entry, consuming exactly the line. |
| ScpPush.DirectoryMessageRoundTrip | src/main/java/com/pastdev/jsch/scp/ScpOutputStream.java:234-236 | What `nextDirectory` sends is read back as the same directory entry. |
| ScpPush.LegacyAckDropsCharacters | src/main/java/com/pastdev/jsch/scp/ScpOutputStream.java:96-99 | As written, the error text "ab" comes out as "b". The corrected reading keeps "ab". |
| ScpPush.LegacyAckSkipsNewline | src/main/java/com/pastdev/jsch/scp/ScpOutputStream.java:96-99 | As written, a one-character error text hangs the stream. The corrected reading stops at its '\n'. |
| ScpOutputStreams.ScpFile.Create | src/main/java/com/pastdev/jsch/scp/ScpOutputStream.java:245-250 | A file exists exactly when the mode is valid. It has the standardized mode and a count of 0. |
| ScpOutputStreams.ScpFile.Increment | src/main/java/com/pastdev/jsch/scp/ScpOutputStream.java:256-261 | Follows `FileView.Increment`. |
| ScpOutputStreams.ScpOutputStream.constructor | src/main/java/com/pastdev/jsch/scp/ScpOutputStream.java:50-70 | Holds the command for its mode and path, no current file and no directory stack. |
| ScpOutputStreams.ScpOutputStream.Open | src/main/java/com/pastdev/jsch/scp/ScpOutputStream.java:46-72 | The stream exists exactly when the first acknowledgement is not an error. |
| ScpOutputStreams.ScpOutputStream.WriteMessage | src/main/java/com/pastdev/jsch/scp/ScpOutputStream.java:193-204 | Follows `ScpEngine.WriteMessage` and leaves the file and the stack alone. |
| ScpOutputStreams.ScpOutputStream.FinishFile | src/main/java/com/pastdev/jsch/scp/ScpOutputStream.java:136-146 | Follows `ScpPush.FinishFile`. |
| ScpOutputStreams.ScpOutputStream.FinishDirectory | src/main/java/com/pastdev/jsch/scp/ScpOutputStream.java:126-134 | Follows `ScpPush.FinishDirectory`. |
| ScpOutputStreams.ScpOutputStream.NextDirectory | src/main/java/com/pastdev/jsch/scp/ScpOutputStream.java:148-164 | Follows `ScpPush.NextDirectory`, with the default mode 0750. |
| ScpOutputStreams.ScpOutputStream.NextFile | src/main/java/com/pastdev/jsch/scp/ScpOutputStream.java:166-175 | Follows `ScpPush.NextFile`, with the default mode 0640. |
| ScpOutputStreams.ScpOutputStream.Write | src/main/java/com/pastdev/jsch/scp/ScpOutputStream.java:187-191 | Follows `ScpPush.Write`. |
| ScpOutputStreams.ScpOutputStream.Close | src/main/java/com/pastdev/jsch/scp/ScpOutputStream.java:106-124 | Follows `ScpPush.Close`. It disconnects exactly when that passes. |
| ScpFiles.ScpFile.GetDirectory | src/main/java/com/pastdev/jsch/scp/ScpFile.java:144-146 | Every element but the last, joined, and nothing for a path of one element. |
| ScpFiles.ScpFile.GetFilename | src/main/java/com/pastdev/jsch/scp/ScpFile.java:148-150 | The last element. An empty path fails on index -1. |
| ScpFiles.ScpFile.GetPath | src/main/java/com/pastdev/jsch/scp/ScpFile.java:152-154 | Every element, joined by the separator. |
| ScpFiles.ScpFile.OutputEntry | src/main/java/com/pastdev/jsch/scp/ScpFile.java:132-138 | A file entry named after the last element, with the given mode or the default one. |
| ScpFiles.ScpFile.GetInputStream | src/main/java/com/pastdev/jsch/scp/ScpFile.java:128-130 | A single-file fetch of the whole path. |
| ScpFiles.ScpFile.GetOutputStream | src/main/java/com/pastdev/jsch/scp/ScpFile.java:132-142 | A single-file send, into the directory part, of the entry `OutputEntry` builds. Its failure is passed on. |
| ScpFiles.NewScpFile | src/main/java/com/pastdev/jsch/scp/ScpFile.java:20-22 | The default destination joins with '/'. |
| ScpFiles.PathIsDirectoryAndFilename | src/main/java/com/pastdev/jsch/scp/ScpFile.java:144-154 | The path is the directory, the separator and the file name (the file name alone for one element). |
| ScpFiles.CopyToEntry | src/main/java/com/pastdev/jsch/scp/ScpFile.java:107-126 | With no source entry, a null reference. Otherwise the source's mode and size under the target's name. |
| ScpFiles.CopyKeepsModeAndSize | src/main/java/com/pastdev/jsch/scp/ScpFile.java:107-126 | A copy between remote files keeps the source's mode and size. |
| ScpFiles.CopyTarget | src/main/java/com/pastdev/jsch/scp/ScpFile.java:62-64 | Inside a directory destination under the remote name, otherwise the destination itself. A null name fails. |
| ScpFiles.Permissions | src/main/java/com/pastdev/jsch/scp/ScpFile.java:67-93 | Each flag is set exactly when the owner digit has its bit. |
| ScpFiles.PermissionsFromOwnerAndOther | src/main/java/com/pastdev/jsch/scp/ScpFile.java:67-93 | A flag goes to everyone exactly when both the owner and the other digit have its bit. Only those two digits matter. |
| ScpFiles.PermissionsOfCommonModes | src/main/java/com/pastdev/jsch/scp/ScpFile.java:67-93 | 0640 gives read and write to the owner only. 0755 gives read and execute to everyone and write to the owner. |
| ScpFiles.CopyToLocal | src/main/java/com/pastdev/jsch/scp/ScpFile.java:55-105 | The local target and flags `copyTo(File)` chooses. A missing entry is a null reference. |
| DestinationOses.DestinationOs.JoinPath | src/main/java/com/pastdev/jsch/scp/DestinationOs.java:17-26 | The loop's result equals `JoinRange`. |
| DestinationOses.DestinationOs.JoinPathAll | src/main/java/com/pastdev/jsch/scp/DestinationOs.java:13-15 | Every element joined by the separator. |
| DestinationOses.JoinRange | src/main/java/com/pastdev/jsch/scp/ScpFile.java:166-175 | With `end` the `int`-wrapped `start + count`, fails exactly when `end` is above `start` and the range leaves the array. |
| DestinationOses.JoinRangeNone | src/main/java/com/pastdev/jsch/scp/DestinationOs.java:17-26 | Without wrap-around, a count of zero or less gives the empty string. |
| DestinationOses.JoinRangeOverflow | src/main/java/com/pastdev/jsch/scp/DestinationOs.java:19 | When `start + count` overflows `int`, nothing is joined and nothing throws, however far the range leaves the array. |
| DestinationOses.JoinRangeUnderflow | src/main/java/com/pastdev/jsch/scp/DestinationOs.java:19 | When `start + count` wraps below the `int` range, the negative start is reached and throws. |
| DestinationOses.JoinRangeOne | src/main/java/com/pastdev/jsch/scp/DestinationOs.java:17-26 | A count of one gives that element. |
| DestinationOses.JoinRangeStep | src/main/java/com/pastdev/jsch/scp/DestinationOs.java:17-26 | One more element adds one separator and the element. |
| DestinationOses.JoinRangeAll | src/main/java/com/pastdev/jsch/scp/DestinationOs.java:13-15 | The whole array cannot fail. |
| DestinationOses.JoinRangeSplits | src/main/java/com/pastdev/jsch/scp/DestinationOs.java:17-26 | The joined path splits back into its elements when none holds the separator. |
| Tunnels.Endpoints.Lowered | src/main/java/com/pastdev/jsch/tunnel/Tunnel.java:225-230 | Lower-casing changes neither port nor whether there is an alias. |
| Tunnels.ParsePort | src/main/java/com/pastdev/jsch/tunnel/Tunnel.java:47-59 | `parseInt` succeeds exactly on a Java `int`. Otherwise it fails with the refused text. |
| Tunnels.ParseSpec | src/main/java/com/pastdev/jsch/tunnel/Tunnel.java:43-61 | Four parts are alias, port, host and port. Three leave the alias null. Otherwise host and port on local port 0, and fewer than two parts fail on index 1. |
| Tunnels.RenderJoinsFields | src/main/java/com/pastdev/jsch/tunnel/Tunnel.java:242-248 | `toString` is its fields joined by ':'. |
| Tunnels.SpecRoundTrip | src/main/java/com/pastdev/jsch/tunnel/Tunnel.java:43-61 | An unassigned tunnel renders to a spec that parses back into the same values. |
| Tunnels.AssignedRenderDoesNotParse | src/main/java/com/pastdev/jsch/tunnel/Tunnel.java:242-248 | Once a port is assigned, the rendering's `(0)` field no longer parses. |
| Tunnels.DocumentedTwoPartSpec | src/main/java/com/pastdev/jsch/tunnel/Tunnel.java:30-31 | "foobar:1234" is host foobar, port 1234, local port 0. |
| Tunnels.DocumentedThreePartSpec | src/main/java/com/pastdev/jsch/tunnel/Tunnel.java:32-33 | "1234:foobar:1234" adds local port 1234. |
| Tunnels.DocumentedFourPartSpec | src/main/java/com/pastdev/jsch/tunnel/Tunnel.java:34-35 | "local_foobar:1234:foobar:1234" adds the alias. |
| Tunnels.ParseTwoParts | src/main/java/com/pastdev/jsch/tunnel/Tunnel.java:56-60 | `host:port` parses into that host and port on local port 0. |
| Tunnels.ToLowerRender | src/main/java/com/pastdev/jsch/tunnel/Tunnel.java:225-230 | The spec is the rendering of the lower-cased values. |
| Tunnels.SpecKeyEqualIff | src/main/java/com/pastdev/jsch/tunnel/Tunnel.java:155-159 | Specs are equal exactly when the tunnels agree up to letter case in alias and host. |
| Tunnels.CaseInsensitiveEquality | src/main/java/com/pastdev/jsch/tunnel/Tunnel.java:232-235 | Tunnels differing only in case are equal and hash alike. |
| Tunnels.Tunnel.constructor | src/main/java/com/pastdev/jsch/tunnel/Tunnel.java:139-144 | Holds the given values, no assigned port and no cached spec. |
| Tunnels.Tunnel.FromSpec | src/main/java/com/pastdev/jsch/tunnel/Tunnel.java:43-61 | Exists exactly when `ParseSpec` succeeds, with its values. |
| Tunnels.Tunnel.GetAssignedLocalPort | src/main/java/com/pastdev/jsch/tunnel/Tunnel.java:168-170 | The assigned port once set, otherwise the configured one. |
| Tunnels.Tunnel.ToString | src/main/java/com/pastdev/jsch/tunnel/Tunnel.java:242-248 | The rendering of the current values. |
| Tunnels.Tunnel.GetSpec | src/main/java/com/pastdev/jsch/tunnel/Tunnel.java:225-230 | The cached spec, or the lower-cased rendering, which is then cached. |
| Tunnels.Tunnel.SetAssignedLocalPort | src/main/java/com/pastdev/jsch/tunnel/Tunnel.java:237-239 | Records the port. A cached spec is kept. |
| Tunnels.Tunnel.Equals | src/main/java/com/pastdev/jsch/tunnel/Tunnel.java:155-159 | True exactly for a non-null tunnel with the same spec. Both specs are cached. |
| Tunnels.Tunnel.HashCode | src/main/java/com/pastdev/jsch/tunnel/Tunnel.java:232-235 | `String.hashCode` of the spec, which is cached. |
| TunnelManagement.SkipSpaces | src/main/java/com/pastdev/jsch/tunnel/TunnelConnectionManager.java:39 | The suffix left after the leading whitespace. |
| TunnelManagement.ConfigLinesKeeps | src/main/java/com/pastdev/jsch/tunnel/TunnelConnectionManager.java:186-191 | A line is kept exactly when it is read and not a comment. |
| TunnelManagement.ReadConfigLines | src/main/java/com/pastdev/jsch/tunnel/TunnelConnectionManager.java:186-191 | The loop keeps the non-comment lines in order. |
| TunnelManagement.CommentLineIff | src/main/java/com/pastdev/jsch/tunnel/TunnelConnectionManager.java:39 | A comment line is blank, or has `#` after optional whitespace. |
| TunnelManagement.ConfigLinesAppend | src/main/java/com/pastdev/jsch/tunnel/TunnelConnectionManager.java:186-191 | Filtering distributes over concatenation. |
| TunnelManagement.ParseEntry | src/main/java/com/pastdev/jsch/tunnel/TunnelConnectionManager.java:252-258 | The trimmed line split on `\|` gives path and tunnel, with their failures. |
| TunnelManagement.ParseEachEach | src/main/java/com/pastdev/jsch/tunnel/TunnelConnectionManager.java:251-259 | After success, each parsed value is its line's own result. |
| TunnelManagement.ParseEachFirstError | src/main/java/com/pastdev/jsch/tunnel/TunnelConnectionManager.java:251-259 | A failure is the first failing line's, with every line before it parsed. |
| TunnelManagement.SetAdd | src/main/java/com/pastdev/jsch/tunnel/TunnelConnectionManager.java:258 | `HashSet.add` by spec: nothing is added when the key is already there, and keys stay distinct. |
| TunnelManagement.GroupKeys | src/main/java/com/pastdev/jsch/tunnel/TunnelConnectionManager.java:253-257 | The map has exactly the paths read. |
| TunnelManagement.GroupDistinct | src/main/java/com/pastdev/jsch/tunnel/TunnelConnectionManager.java:253-258 | No two tunnels of a path are equal. |
| TunnelManagement.GroupComplete | src/main/java/com/pastdev/jsch/tunnel/TunnelConnectionManager.java:251-259 | Each line's tunnel, or one equal to it, is under its path. |
| TunnelManagement.GroupSound | src/main/java/com/pastdev/jsch/tunnel/TunnelConnectionManager.java:251-259 | Each grouped tunnel comes from a line with that path. |
| TunnelManagement.BuildHop | src/main/java/com/pastdev/jsch/tunnel/TunnelConnectionManager.java:297-324 | One hop of `[user@]host[:port]`, built on the base or proxied through the previous one. |
| TunnelManagement.Walk | src/main/java/com/pastdev/jsch/tunnel/TunnelConnectionManager.java:285-326 | A session is built exactly when there is at least one hop. |
| TunnelManagement.EmptyCacheBuildsChain | src/main/java/com/pastdev/jsch/tunnel/TunnelConnectionManager.java:277-295 | With the cache as created (empty), the walk is the plain chain of hops. |
| TunnelManagement.FirstHopFromBase | src/main/java/com/pastdev/jsch/tunnel/TunnelConnectionManager.java:298-300 | The first hop keeps the base's proxy. |
| TunnelManagement.LaterHopThroughPrevious | src/main/java/com/pastdev/jsch/tunnel/TunnelConnectionManager.java:301-304 | Each later hop is proxied through the session of the hops before it. |
| TunnelManagement.ChainDepth | src/main/java/com/pastdev/jsch/tunnel/TunnelConnectionManager.java:285-326 | n hops nest n-1 SSH proxies over the base. |
| TunnelManagement.FullHopRoundTrip | src/main/java/com/pastdev/jsch/tunnel/TunnelConnectionManager.java:307-322 | `user@host:port` sets exactly that user, host and port. |
| TunnelManagement.BareHostInherits | src/main/java/com/pastdev/jsch/tunnel/TunnelConnectionManager.java:313-320 | A bare host keeps the previous hop's user and port. |
| TunnelManagement.FirstMatch | src/main/java/com/pastdev/jsch/tunnel/TunnelConnectionManager.java:141-152 | No result exactly when no tunnel matches, otherwise a matching tunnel from the list. |
| TunnelManagement.ConnectionTunnel | src/main/java/com/pastdev/jsch/tunnel/TunnelConnectionManager.java:145-146 | A connection's own tunnel for a destination, or none exactly when none matches. |
| TunnelManagement.GroupTunnels | src/main/java/com/pastdev/jsch/tunnel/TunnelConnectionManager.java:250-259 | The loop's map is the grouping of the parsed lines, or the first line's failure. |
| TunnelManagement.ConnectionFor | src/main/java/com/pastdev/jsch/tunnel/TunnelConnectionManager.java:264-265 | A path's connection is its session and its tunnels, failing exactly when the session fails. |
| TunnelManagement.BuiltForConnected | src/main/java/com/pastdev/jsch/tunnel/TunnelConnectionManager.java:261-266 | Every built path's session succeeded. |
| TunnelManagement.SessionFactoryCache.constructor | src/main/java/com/pastdev/jsch/tunnel/TunnelConnectionManager.java:277-280 | The default factory and an empty cache. |
| TunnelManagement.SessionFactoryCache.GetSessionFactory | src/main/java/com/pastdev/jsch/tunnel/TunnelConnectionManager.java:282-327 | The loop's result equals `Walk` over the `->` hops. |
| TunnelManagement.TunnelConnectionManager.constructor | src/main/java/com/pastdev/jsch/tunnel/TunnelConnectionManager.java:58-61 | The base factory and no connections yet. |
| TunnelManagement.TunnelConnectionManager.SetTunnelConnections | src/main/java/com/pastdev/jsch/tunnel/TunnelConnectionManager.java:249-267 | A parse failure changes nothing. Otherwise it passes exactly when every path's session builds, with one connection per path. |
| TunnelManagement.TunnelConnectionManager.BuildConnections | src/main/java/com/pastdev/jsch/tunnel/TunnelConnectionManager.java:261-266 | The connections built match the groups. A failure names a path whose session failed. |
| TunnelManagement.TunnelConnectionManager.GetTunnel | src/main/java/com/pastdev/jsch/tunnel/TunnelConnectionManager.java:141-152 | Before connections exist, a null reference. Otherwise the first connection with a matching tunnel gives it, or none. |
| MultiClose.FailuresEmptyIff | src/main/java/com/pastdev/jsch/file/spi/UnixSshFileSystemProvider.java:57-71 | No error is gathered exactly when every close passed. |
| MultiClose.FailuresCount | src/main/java/com/pastdev/jsch/file/spi/UnixSshFileSystemProvider.java:59-69 | Each failing close gives exactly one error. |
| MultiClose.FailuresMembers | src/main/java/com/pastdev/jsch/file/spi/UnixSshFileSystemProvider.java:59-69 | An error is gathered exactly when some close failed with it. |
| MultiClose.FailuresAppend | src/main/java/com/pastdev/jsch/file/spi/UnixSshFileSystemProvider.java:59-69 | Gathering over two runs of closes is gathering over each in turn. |
| MultiClose.MultiCloseException.constructor | src/main/java/com/pastdev/jsch/MultiCloseException.java:12 | The list of causes starts null. |
| MultiClose.MultiCloseException.Add | src/main/java/com/pastdev/jsch/MultiCloseException.java:14-19 | Creates the list on first use and appends the cause, keeping the earlier ones. |
| MultiClose.MultiCloseException.GetCauses | src/main/java/com/pastdev/jsch/MultiCloseException.java:21-23 | Null exactly before any add, otherwise every cause in order. |
| MultiClose.CloseAll | src/main/java/com/pastdev/jsch/file/spi/UnixSshFileSystemProvider.java:57-71 | Throws exactly when some close failed, with exactly the failures in order. |
| JavaText.SplitOfJoin | src/main/java/com/pastdev/jsch/tunnel/Tunnel.java:44 | `split` undoes a join on a separator no part holds. |
| JavaText.Trim | src/main/java/com/pastdev/jsch/tunnel/TunnelConnectionManager.java:252 | `trim` keeps a string with no edge whitespace and never adds any. |
| JavaText.ToLowerIdempotent | src/main/java/com/pastdev/jsch/tunnel/Tunnel.java:227 | Lower-casing twice is lower-casing once. |
| JavaText.ParseIntegerRoundTrip | src/main/java/com/pastdev/jsch/tunnel/Tunnel.java:47-59 | Rendering an in-range number and parsing it back gives the number. |
| JavaText.StringHashCode | src/main/java/com/pastdev/jsch/tunnel/Tunnel.java:234 | `String.hashCode` is a Java `int` congruent modulo 2^32 to the polynomial hash of the string's UTF-16 code units. |
| JavaText.Int32 | src/main/java/com/pastdev/jsch/scp/DestinationOs.java:19 | Java `int` arithmetic: an `int` congruent to the exact result modulo 2^32, and the exact result when that is in range. |
| JavaText.Utf16Units | src/main/java/com/pastdev/jsch/tunnel/Tunnel.java:234 | A character below U+10000 is one code unit. Any other is a high and a low surrogate that decode back to it. |
| JavaText.Utf16OfBasicPlane | src/main/java/com/pastdev/jsch/tunnel/Tunnel.java:234 | A string of characters below U+10000 is its own sequence of code units. |
| JavaText.HashOfSupplementaryChar | src/main/java/com/pastdev/jsch/tunnel/Tunnel.java:234 | U+1F600 hashes as its surrogate pair: 31 * 0xD83D + 0xDE00. |

## Left out

- Session and channel setup are not modelled: opening a JSch session, its connection, `exec` channels and their disconnection. The remote side is a byte script, the `remote` parameter, and written bytes are collected in `Channel.output`.
- I/O errors of the channel itself (`ChannelIOError`) are not modelled. Reads at the end of the channel give -1 as Java's do.
- `ScpFile.copyFrom` and the byte copying of `copyTo` (`IOUtils.copy`) are not modelled, nor local file streams and `File` calls. What `copyTo` decides before copying is modelled: `CopyToEntry`, `CopyTarget` and `Permissions`.
- The Java source does not compile as shipped in places. `ScpFileOutputStream` calls `putNextEntry` and `closeEntry`, which `ScpOutputStream` lacks, and the facades pass a `SessionFactory` where a `Session` is expected. The model builds these facades on `ScpConnection`, whose methods have those names.
- Sizes are unbounded integers. `Long.parseLong` range is checked, but `long` overflow in `ioCount` is not modelled (it would need 2^63 bytes).
- TunnelConnection.getTunnel(host, port) is called by `TunnelConnectionManager.getTunnel`, but it is not in the source. The model assumes the first tunnel of the connection whose destination host and port match.
- Iteration order of `HashMap.keySet` is left open: `BuildConnections` picks each next path with `:|`. `HashSet` order is modelled as insertion order, with duplicates by spec dropped.
- `TunnelConnectionManager.open`, `close`, `ensureOpen` and file reading in `setTunnelConnectionsFromFile` are not modelled (I/O). Only the line filter of the reading loop is: `ReadConfigLines`.
- SessionFactoryCache.GetSessionFactory: the cache is never written in the source, so the model proves the walk over the cache it is given and that an empty cache builds the plain chain.
- A null hostname, port or alias given to the constructors of `Tunnel` is modelled only as `Option` for the alias. Other nulls are not modelled.
- The `Tunnel` Javadoc says a missing alias means "localhost", but the code keeps it null. The model follows the code.
- `Integer.parseInt` is modelled on ASCII digits only. Non-ASCII Unicode digits, which Java also accepts, are not modelled.
- `String.toLowerCase` is modelled on ASCII letters only.
- The `com.pastdev.jsch.file` tree is not part of this model, except the close loop of `UnixSshFileSystemProvider` (`MultiClose.CloseAll`). The outcome of each file system's `close` is a parameter.
- Logging is not modelled.
- DestinationOses.DestinationOs.JoinPath: path elements are strings. A null element, which Java appends as the text "null", is not modelled.

## Findings

| source | as written | input that shows it | evidently intended | confidence | as-written member | corrected member |
|---|---|---|---|---|---|---|
| src/main/java/com/pastdev/jsch/scp/ScpConnection.java:105-113 | The error text loop reads until '\n' and never tests for -1. | Status byte 1 followed by the end of the channel. | Stop at the end of the channel and fail with the text read so far. | not executed | ScpWire.AckLoopAsWrittenNeverEnds | ScpWire.CheckAck |
| src/main/java/com/pastdev/jsch/scp/ScpConnection.java:225-226 | For `E` nothing more is read, so the '\n' of the `E\n` line is left on the channel. | `E\n` followed by another control line: the next `parseMessage` reads '\n' as the type and fails. | Consume the whole `E\n` line. | not executed | ScpWireFindings.EndOfDirectoryNewline | ScpWire.ParseMessage |
| src/main/java/com/pastdev/jsch/scp/ScpConnection.java:222 | The type comes from `(char) checkAck()`, so -1 at the end of the channel becomes U+FFFF and fails as an unknown type. | An empty channel when `getNextEntry` is called. | Return null, the end of entries, as the segment reads already do. | not executed | ScpWireFindings.EndOfChannelAtMessageStart | ScpWire.ParseMessage |
| src/main/java/com/pastdev/jsch/scp/ScpOutputStream.java:96-99 | Each pass reads one byte to compare with '\n' and then appends a second byte read. | Status 1 then `ab\n` gives "b". Status 1 then `x\n` hangs. | Append the byte that was tested. | not executed | ScpPush.LegacyAckDropsCharacters | ScpWire.CheckAck |
