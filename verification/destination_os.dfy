/** `DestinationOs`: the path separator of the remote side, and the
    joining of path elements with it. `ScpFile` carries a nested copy of
    the same enum whose `joinPath(parts, start, count)` is identical; both
    are modelled here. */
module DestinationOses {
  import opened Wrappers
  import opened JavaText
  import opened ScpErrors

  datatype DestinationOs = Unix | Windows
  {
    function Separator(): char
    {
      if this == Unix then '/' else '\\'
    }

    /** `joinPath(parts, start, count)`: the `StringBuilder` loop over
        indexes `start` up to `end = start + count`, computed in `int`
        arithmetic, with a separator before every element but the first.
        An index outside the array throws. */
    method JoinPath(parts: JavaArray<string>, start: JavaInt, count: JavaInt) returns (r: Result<string, ScpError>)
      ensures r == JoinRange(parts, start, count, Separator())
    {
      var builder := "";
      var i := start;
      var end := Int32(start + count);
      while i < end
        invariant start <= i && (start < end ==> i <= end) && (end <= start ==> i == start)
        invariant i == start ==> builder == ""
        invariant i > start ==> 0 <= start && i <= |parts| && builder == Join(parts[start..i], [Separator()])
        decreases end - i
      {
        if i > start {
          builder := builder + [Separator()];
        }
        if i < 0 || i >= |parts| {
          return Failure(IndexOutOfBounds(i));
        }
        if i > start {
          JoinAppend(parts[start..i], parts[i], [Separator()]);
          assert parts[start..i + 1] == parts[start..i] + [parts[i]];
        } else {
          assert parts[start..i + 1] == [parts[i]];
        }
        builder := builder + parts[i];
        i := i + 1;
      }
      return Success(builder);
    }

    /** `joinPath(parts)`: every element. */
    method JoinPathAll(parts: JavaArray<string>) returns (r: string)
      ensures r == Join(parts, [Separator()])
    {
      var joined := JoinPath(parts, 0, |parts|);
      JoinRangeAll(parts, Separator());
      r := joined.value;
    }
  }

  /** What `joinPath(parts, start, count)` returns, stated without the
      loop: with `end` the wrapped `start + count`, nothing when `end` is
      not above `start`; the index that throws when the range leaves the
      array (the first one the loop reaches); otherwise the elements of
      the range joined by the separator. */
  function JoinRange(parts: JavaArray<string>, start: JavaInt, count: JavaInt, sep: char): (r: Result<string, ScpError>)
    ensures var end := Int32(start + count);
            start < end && (start < 0 || end > |parts|) <==> r.Failure?
  {
    var end := Int32(start + count);
    if end <= start then Success("")
    else if start < 0 || start >= |parts| then Failure(IndexOutOfBounds(start))
    else if end > |parts| then Failure(IndexOutOfBounds(|parts|))
    else Success(Join(parts[start..end], [sep]))
  }

  /** Without wrap-around, a count of zero or less gives the empty
      string. */
  lemma JoinRangeNone(parts: JavaArray<string>, start: JavaInt, count: JavaInt, sep: char)
    requires count <= 0 && INT_MIN <= start + count
    ensures JoinRange(parts, start, count, sep) == Success("")
  {
  }

  /** When `start + count` overflows, `end` wraps below `start` and the
      loop does not run: the empty string, even for a range far outside
      the array. */
  lemma JoinRangeOverflow(parts: JavaArray<string>, start: JavaInt, count: JavaInt, sep: char)
    requires start + count > INT_MAX
    ensures JoinRange(parts, start, count, sep) == Success("")
  {
  }

  /** The same wrap-around below `INT_MIN` makes `end` large, and the
      negative start is then reached and throws. */
  lemma JoinRangeUnderflow(parts: JavaArray<string>, start: JavaInt, count: JavaInt, sep: char)
    requires start + count < INT_MIN
    ensures JoinRange(parts, start, count, sep) == Failure(IndexOutOfBounds(start))
  {
  }

  /** A count of one gives the element itself. */
  lemma JoinRangeOne(parts: JavaArray<string>, start: JavaInt, sep: char)
    requires 0 <= start < |parts|
    ensures JoinRange(parts, start, 1, sep) == Success(parts[start])
  {
    assert parts[start..start + 1] == [parts[start]];
  }

  /** One more element adds one separator and that element. */
  lemma JoinRangeStep(parts: JavaArray<string>, start: JavaInt, count: JavaInt, sep: char)
    requires count >= 1 && 0 <= start && start + count < |parts|
    ensures JoinRange(parts, start, count + 1, sep).value
         == JoinRange(parts, start, count, sep).value + [sep] + parts[start + count]
  {
    JoinAppend(parts[start..start + count], parts[start + count], [sep]);
    assert parts[start..start + count + 1] == parts[start..start + count] + [parts[start + count]];
  }

  /** `joinPath(parts)` is `joinPath(parts, 0, parts.length)` and cannot
      fail. */
  lemma JoinRangeAll(parts: JavaArray<string>, sep: char)
    ensures JoinRange(parts, 0, |parts|, sep) == Success(Join(parts, [sep]))
  {
    assert parts[0..|parts|] == parts;
  }

  /** The joined path splits back into its elements on the separator, when
      no element holds the separator and the last is not empty. */
  lemma JoinRangeSplits(parts: JavaArray<string>, start: JavaInt, count: JavaInt, sep: char)
    requires count >= 1 && 0 <= start && start + count <= |parts|
    requires forall i :: start <= i < start + count ==> sep !in parts[i]
    requires parts[start + count - 1] != ""
    ensures Split(JoinRange(parts, start, count, sep).value, [sep]) == parts[start..start + count]
  {
    assert Int32(start + count) == start + count;
    var range := parts[start..start + count];
    assert forall i :: 0 <= i < |range| ==> range[i] == parts[start + i];
    SplitOfJoin(range, sep);
  }
}
