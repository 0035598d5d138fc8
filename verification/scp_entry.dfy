/** The failures the SCP classes raise, one constructor per exception the
    Java code throws (or provokes, for the runtime exceptions). */
module ScpErrors {

  datatype ScpError =
    | InvalidMode(mode: string)                  // IOException "invalid file mode ..."
    | NullMode                                   // NullPointerException: a null mode reached standardizeMode
    | AckError(message: string)                  // JSchIOException carrying the remote's text
    | UnknownMessageType(messageType: char)      // UnsupportedOperationException
    | BadNumber(text: string)                    // NumberFormatException from Long.parseLong
    | SegmentTooLong                             // ArrayIndexOutOfBoundsException on the 1024-byte buffer
    | StreamNotFinished(ioCount: int, size: int) // IOException "stream not finished (n!=size)"
    | TooManyBytes(name: string)                 // IOException "too many bytes written for file ..."
    | EmptyStack                                 // java.util.EmptyStackException from pop()
    | NoDirectoriesActive                        // IOException "no directories are active"
    | NotRecursive                               // IOException "must be CopyMode.RECURSIVE ..."
    | PreviousFileUnfinished(written: int, size: int) // IOException "must finish writing previous file ..."
    | NoCurrentEntry                             // IllegalStateException "no current entry, cannot read"
    | NullReference                              // any other NullPointerException
    | IndexOutOfBounds(index: int)               // ArrayIndexOutOfBoundsException on a path array
}

/** `ScpEntry`: an immutable file, directory or end-of-directory record. */
module ScpEntries {
  import opened Wrappers
  import opened JavaText
  import opened ScpErrors

  const DEFAULT_DIRECTORY_MODE: string := "0750"
  const DEFAULT_FILE_MODE: string := "0640"

  predicate IsOctalDigit(c: char) {
    '0' <= c <= '7'
  }

  /** The whole string matches `[0-2]?[0-7]{3}`. */
  predicate MatchesModePattern(mode: string) {
    || (|mode| == 3 && IsOctalDigit(mode[0]) && IsOctalDigit(mode[1]) && IsOctalDigit(mode[2]))
    || (|mode| == 4 && '0' <= mode[0] <= '2'
        && IsOctalDigit(mode[1]) && IsOctalDigit(mode[2]) && IsOctalDigit(mode[3]))
  }

  /** A mode as `standardizeMode` leaves it: four characters of the pattern. */
  predicate IsStandardMode(mode: string) {
    |mode| == 4 && MatchesModePattern(mode)
  }

  /** `standardizeMode`: rejects a mode outside the pattern, and pads a
      three-digit mode to four with a leading zero. */
  function StandardizeMode(mode: string): (r: Result<string, ScpError>)
    ensures r.Success? <==> MatchesModePattern(mode)
    ensures r.Failure? ==> r.error == InvalidMode(mode)
    ensures r.Success? ==> IsStandardMode(r.value)
    ensures r.Success? ==> |r.value| >= |mode| && r.value[|r.value| - |mode|..] == mode
    ensures r.Success? ==> forall i :: 0 <= i < |r.value| - |mode| ==> r.value[i] == '0'
  {
    if !MatchesModePattern(mode) then Failure(InvalidMode(mode))
    else if |mode| == 3 then Success("0" + mode)
    else Success(mode)
  }

  /** Standardizing is idempotent, and a standard mode is its own
      standard form. */
  lemma StandardizeModeIdempotent(mode: string)
    requires MatchesModePattern(mode)
    ensures StandardizeMode(StandardizeMode(mode).value) == StandardizeMode(mode)
    ensures IsStandardMode(mode) ==> StandardizeMode(mode) == Success(mode)
  {
  }

  datatype EntryType = File | Directory | EndOfDirectory

  /** The fields of `ScpEntry`; `None` stands for Java's `null`. */
  datatype ScpEntry = ScpEntry(name: Option<string>, size: int, mode: Option<string>, kind: EntryType)
  {
    predicate IsFile() {
      kind == File
    }

    predicate IsDirectory() {
      kind == Directory
    }

    predicate IsEndOfDirectory() {
      kind == EndOfDirectory
    }

    /** What every entry built by the factories satisfies. */
    predicate Valid() {
      && (IsEndOfDirectory() <==> name.None?)
      && (IsEndOfDirectory() <==> mode.None?)
      && (mode.Some? ==> IsStandardMode(mode.value))
      && (!IsFile() ==> size == 0)
    }

    /** `toString`: the control line without its newline. */
    function ToString(): string
    {
      match kind
      case File => ControlFields("C", NullableText(mode), IntToString(size), NullableText(name))
      case Directory => ControlFields("D", NullableText(mode), IntToString(size), NullableText(name))
      case EndOfDirectory => "E"
    }
  }

  /** The four fields of a `C` or `D` control line, space-separated after
      the type letter. */
  function ControlFields(t: string, mode: string, size: string, name: string): string
  {
    t + mode + " " + size + " " + name
  }

  /** Java string concatenation of a possibly null string. */
  function NullableText(s: Option<string>): string
  {
    if s.None? then "null" else s.value
  }

  /** Exactly one of the three type predicates holds of any entry. */
  lemma ExactlyOneKind(e: ScpEntry)
    ensures e.IsFile() || e.IsDirectory() || e.IsEndOfDirectory()
    ensures !(e.IsFile() && e.IsDirectory())
    ensures !(e.IsFile() && e.IsEndOfDirectory())
    ensures !(e.IsDirectory() && e.IsEndOfDirectory())
  {
  }

  /** `newFile(name, size[, mode])`; the mode defaults to "0640". */
  function NewFile(name: string, size: int, mode: string := DEFAULT_FILE_MODE): (r: Result<ScpEntry, ScpError>)
    ensures r.Success? <==> MatchesModePattern(mode)
    ensures r.Failure? ==> r.error == InvalidMode(mode)
    ensures r.Success? ==> r.value.Valid() && r.value.IsFile()
    ensures r.Success? ==> r.value.name == Some(name) && r.value.size == size
    ensures r.Success? ==> r.value.mode == Some(StandardizeMode(mode).value)
  {
    var m :- StandardizeMode(mode);
    Success(ScpEntry(Some(name), size, Some(m), File))
  }

  /** `newDirectory(name[, mode])`; the size is always 0 and the mode
      defaults to "0750". */
  function NewDirectory(name: string, mode: string := DEFAULT_DIRECTORY_MODE): (r: Result<ScpEntry, ScpError>)
    ensures r.Success? <==> MatchesModePattern(mode)
    ensures r.Failure? ==> r.error == InvalidMode(mode)
    ensures r.Success? ==> r.value.Valid() && r.value.IsDirectory()
    ensures r.Success? ==> r.value.name == Some(name) && r.value.size == 0
    ensures r.Success? ==> r.value.mode == Some(StandardizeMode(mode).value)
  {
    var m :- StandardizeMode(mode);
    Success(ScpEntry(Some(name), 0, Some(m), Directory))
  }

  /** `newEndOfDirectory()`: no mode check, null name and mode, size 0. */
  function NewEndOfDirectory(): (r: ScpEntry)
    ensures r.Valid() && r.IsEndOfDirectory()
    ensures r.name.None? && r.mode.None? && r.size == 0
  {
    ScpEntry(None, 0, None, EndOfDirectory)
  }

  /** The default modes of the one-argument factories. */
  lemma DefaultModes(name: string, size: int)
    ensures NewFile(name, size).Success? && NewFile(name, size).value.mode == Some("0640")
    ensures NewDirectory(name).Success? && NewDirectory(name).value.mode == Some("0750")
  {
  }

  /** `toString` renders `C<mode> <size> <name>`, `D<mode> 0 <name>` or
      `E`, and its first character tells the three kinds apart. */
  lemma ToStringShape(e: ScpEntry)
    requires e.Valid()
    ensures e.IsFile() ==> e.ToString() == "C" + e.mode.value + " " + IntToString(e.size) + " " + e.name.value
    ensures e.IsDirectory() ==> e.ToString() == "D" + e.mode.value + " 0 " + e.name.value
    ensures e.IsEndOfDirectory() ==> e.ToString() == "E"
    ensures e.ToString()[0] == (if e.IsFile() then 'C' else if e.IsDirectory() then 'D' else 'E')
  {
  }
}
