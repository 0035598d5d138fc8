/** `ScpFile`: a remote path, kept as its elements, with the streams that
    fetch it or send to it, and the decisions its copy operations make:
    which entry a copy to another remote file sends, where a copy to a
    local directory lands, and which local permissions the remote mode
    grants. */
module ScpFiles {
  import opened Wrappers
  import opened JavaText
  import opened ScpErrors
  import opened ScpEntries
  import opened ScpWire
  import opened ScpEngine
  import opened ScpConnections
  import opened ScpStreams
  import opened DestinationOses

  datatype ScpFile = ScpFile(os: DestinationOs, path: JavaArray<string>)
  {
    /** `getDirectory`: every element but the last, joined; nothing for a
        path of one element (or none). */
    function GetDirectory(): (r: string)
      ensures |path| <= 1 ==> r == ""
      ensures |path| >= 2 ==> r == Join(path[..|path| - 1], [os.Separator()])
    {
      var joined := JoinRange(path, 0, |path| - 1, os.Separator());
      assert |path| >= 2 ==> path[0..|path| - 1] == path[..|path| - 1];
      joined.value
    }

    /** `getFilename`: the last element; an empty path throws on index
        -1. */
    function GetFilename(): (r: Result<string, ScpError>)
      ensures |path| == 0 <==> r.Failure?
      ensures |path| == 0 ==> r.error == IndexOutOfBounds(-1)
      ensures |path| > 0 ==> r.value == path[|path| - 1]
    {
      if |path| == 0 then Failure(IndexOutOfBounds(-1)) else Success(path[|path| - 1])
    }

    /** `getPath`: every element, joined. */
    function GetPath(): (r: string)
      ensures r == Join(path, [os.Separator()])
    {
      JoinRangeAll(path, os.Separator());
      JoinRange(path, 0, |path|, os.Separator()).value
    }

    /** The entry `getOutputStream(size)` (`mode` is `None`) or
        `getOutputStream(size, mode)` sends: a file named after the last
        element, with the default mode when none is given. */
    function OutputEntry(size: int, mode: Option<string>): (r: Result<ScpEntry, ScpError>)
      ensures |path| == 0 ==> r == Failure(IndexOutOfBounds(-1))
      ensures |path| > 0 ==> r == NewFile(path[|path| - 1], size, if mode.None? then DEFAULT_FILE_MODE else mode.value)
    {
      var name :- GetFilename();
      if mode.None? then NewFile(name, size) else NewFile(name, size, mode.value)
    }

    /** `getInputStream`: a single-file fetch of the whole path. */
    method GetInputStream(remote: seq<byte>) returns (r: Result<ScpFileInputStream, ScpError>)
      ensures var (first, s) := ScpEngine.GetNextEntry(ScpEngine.Open(From, remote).1);
              && (r.Success? <==> first.Success?)
              && (r.Failure? ==> r.error == first.error)
              && (r.Success? ==>
                    && fresh(r.value) && r.value.Valid()
                    && r.value.scpEntry == first.value
                    && r.value.inputStream.connection.command == Command(GetPath(), From, FileOnly)
                    && r.value.inputStream.connection.Snapshot() == s)
    {
      r := ScpFileInputStream.Open(GetPath(), remote);
    }

    /** `getOutputStream(size[, mode])`: a single-file send into the
        directory part of the path, of the entry `OutputEntry` builds. */
    method GetOutputStream(size: int, mode: Option<string>, remote: seq<byte>) returns (r: Result<ScpFileOutputStream, ScpError>)
      ensures OutputEntry(size, mode).Failure? ==> r == Failure(OutputEntry(size, mode).error)
      ensures OutputEntry(size, mode).Success? ==>
                var entry := OutputEntry(size, mode).value;
                var (o0, s0) := ScpEngine.Open(To, remote);
                var (o1, s1) := ScpEngine.PutNextEntry(entry, s0);
                && (r.Success? <==> o0.Pass? && o1.Pass?)
                && (r.Success? ==>
                      && fresh(r.value) && r.value.Valid()
                      && r.value.connection.command == Command(GetDirectory(), To, FileOnly)
                      && r.value.connection.Snapshot() == s1)
    {
      var entry := OutputEntry(size, mode);
      if entry.Failure? {
        return Failure(entry.error);
      }
      r := ScpFileOutputStream.Open(GetDirectory(), entry.value, remote);
    }
  }

  /** The two-argument constructor: the destination OS is UNIX. */
  function NewScpFile(path: JavaArray<string>): (r: ScpFile)
    ensures r.path == path
    ensures r.GetPath() == Join(path, "/")
  {
    ScpFile(Unix, path)
  }

  /** A path of two or more elements is its directory, the separator and
      its file name; a one-element path is its file name alone. */
  lemma PathIsDirectoryAndFilename(f: ScpFile)
    requires |f.path| >= 1
    ensures |f.path| >= 2 ==> f.GetPath() == f.GetDirectory() + [f.os.Separator()] + f.GetFilename().value
    ensures |f.path| == 1 ==> f.GetDirectory() == "" && f.GetPath() == f.GetFilename().value
  {
    var n := |f.path|;
    if n >= 2 {
      JoinAppend(f.path[..n - 1], f.path[n - 1], [f.os.Separator()]);
      assert f.path[..n - 1] + [f.path[n - 1]] == f.path;
    }
  }

  // ---------------------------------------------------------------------
  // copyTo(ScpFile)

  /** The entry `copyTo(ScpFile)` sends to `target`, given the first entry
      its fetch read: the source's mode and size under the target's file
      name. No entry means `getMode` on null; a null mode reaches
      `standardizeMode`. */
  function CopyToEntry(first: Option<ScpEntry>, target: ScpFile): (r: Result<ScpEntry, ScpError>)
    ensures first.None? ==> r == Failure(NullReference)
  {
    if first.None? then Failure(NullReference)
    else
      var name :- target.GetFilename();
      if first.value.mode.None? then Failure(NullMode)
      else NewFile(name, first.value.size, first.value.mode.value)
  }

  /** A copy between remote files keeps the mode and the size of the
      source file and takes the target's file name. */
  lemma CopyKeepsModeAndSize(first: ScpEntry, target: ScpFile)
    requires first.Valid() && first.IsFile() && |target.path| > 0
    ensures var r := CopyToEntry(Some(first), target);
            && r.Success? && r.value.Valid() && r.value.IsFile()
            && r.value.mode == first.mode
            && r.value.size == first.size
            && r.value.name == Some(target.path[|target.path| - 1])
  {
    StandardizeModeIdempotent(first.mode.value);
  }

  // ---------------------------------------------------------------------
  // copyTo(File)

  /** Where `copyTo(File)` writes: inside the destination when that is a
      directory, under the remote entry's name; otherwise the destination
      itself. A null name is Java's `NullPointerException` from `new
      File(parent, null)`. */
  function CopyTarget(destination: seq<string>, isDirectory: bool, name: Option<string>): (r: Result<seq<string>, ScpError>)
    ensures !isDirectory ==> r == Success(destination)
    ensures isDirectory && name.Some? ==>
              && r.Success? && |r.value| == |destination| + 1
              && r.value[..|destination|] == destination && r.value[|destination|] == name.value
    ensures isDirectory && name.None? ==> r == Failure(NullReference)
  {
    if !isDirectory then Success(destination)
    else if name.None? then Failure(NullReference)
    else Success(destination + [name.value])
  }

  /** How one permission flag is set: left alone, set for the owner only,
      or set for everyone. */
  datatype Grant = Untouched | OwnerOnly | Everyone

  datatype LocalPermissions = LocalPermissions(executable: Grant, writable: Grant, readable: Grant)

  /** `(digit & bit) == bit` for a digit 0..7 and a bit 1, 2 or 4. */
  predicate HasBit(digit: int, bit: int)
    requires 0 <= digit < 8 && (bit == 1 || bit == 2 || bit == 4)
  {
    (digit / bit) % 2 == 1
  }

  /** One `if` of `copyTo(File)`: the flag is set when the owner digit has
      the bit, for everyone when the other digit has it too. */
  function GrantFor(owner: int, other: int, bit: int): (g: Grant)
    requires 0 <= owner < 8 && 0 <= other < 8 && (bit == 1 || bit == 2 || bit == 4)
  {
    if !HasBit(owner, bit) then Untouched
    else if HasBit(other, bit) then Everyone
    else OwnerOnly
  }

  /** The flags `copyTo(File)` sets from a standard four-digit mode:
      digit 1 is the owner, digit 3 everyone else; execute, write and read
      are bits 1, 2 and 4. */
  function Permissions(mode: string): (r: LocalPermissions)
    requires IsStandardMode(mode)
    ensures (r.executable != Untouched <==> HasBit(DigitValue(mode[1]), 1))
         && (r.writable != Untouched <==> HasBit(DigitValue(mode[1]), 2))
         && (r.readable != Untouched <==> HasBit(DigitValue(mode[1]), 4))
  {
    var owner := DigitValue(mode[1]);
    var other := DigitValue(mode[3]);
    LocalPermissions(GrantFor(owner, other, 1), GrantFor(owner, other, 2), GrantFor(owner, other, 4))
  }

  /** A flag is granted to everyone exactly when both the owner and the
      other digit have its bit; the group digit and the leading digit
      play no part. */
  lemma PermissionsFromOwnerAndOther(mode: string, mode2: string)
    requires IsStandardMode(mode) && IsStandardMode(mode2)
    ensures var p := Permissions(mode);
            var owner, other := DigitValue(mode[1]), DigitValue(mode[3]);
            && (p.executable == Everyone <==> HasBit(owner, 1) && HasBit(other, 1))
            && (p.writable == Everyone <==> HasBit(owner, 2) && HasBit(other, 2))
            && (p.readable == Everyone <==> HasBit(owner, 4) && HasBit(other, 4))
    ensures mode[1] == mode2[1] && mode[3] == mode2[3] ==> Permissions(mode) == Permissions(mode2)
  {
  }

  /** The default file mode 0640 makes the copy readable and writable by
      its owner only; 0755 makes it readable and executable by everyone
      and writable by the owner. */
  lemma PermissionsOfCommonModes()
    ensures Permissions("0640") == LocalPermissions(Untouched, OwnerOnly, OwnerOnly)
    ensures Permissions("0755") == LocalPermissions(Everyone, OwnerOnly, Everyone)
  {
    assert DigitValue('6') == 6 && DigitValue('0') == 0;
    assert DigitValue('7') == 7 && DigitValue('5') == 5;
  }

  /** What `copyTo(File)` decides before it copies: the local file it
      writes and the flags it sets, from the first entry of the fetch (a
      missing entry is `getName` on null). */
  function CopyToLocal(first: Option<ScpEntry>, destination: seq<string>, isDirectory: bool): (r: Result<(seq<string>, LocalPermissions), ScpError>)
    requires first.Some? ==> first.value.Valid()
    ensures first.None? ==> r == Failure(NullReference)
    ensures first.Some? && first.value.IsFile() ==>
              && r.Success?
              && r.value.0 == CopyTarget(destination, isDirectory, first.value.name).value
              && r.value.1 == Permissions(first.value.mode.value)
  {
    if first.None? then Failure(NullReference)
    else
      var target :- CopyTarget(destination, isDirectory, first.value.name);
      if first.value.mode.None? then Failure(NullReference)
      else Success((target, Permissions(first.value.mode.value)))
  }
}
