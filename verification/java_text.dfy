/** The few pieces of `java.lang.String`, `Integer` and `Long` behaviour the
    modelled code relies on: `split` with a literal separator, `trim`,
    `toLowerCase` on ASCII, `Integer.parseInt`/`Long.parseLong`, decimal
    rendering of numbers and `hashCode`. */
module JavaText {
  import opened Wrappers

  const INT_MIN: int := -0x8000_0000
  const INT_MAX: int := 0x7fff_ffff
  const LONG_MIN: int := -0x8000_0000_0000_0000
  const LONG_MAX: int := 0x7fff_ffff_ffff_ffff
  const TWO_32: int := 0x1_0000_0000

  /** A value of Java's `int` type. */
  type JavaInt = x: int | INT_MIN <= x <= INT_MAX

  /** A Java array: its length is an `int`. */
  type JavaArray<T> = s: seq<T> | |s| <= INT_MAX witness []

  /** Java `int` arithmetic: the mathematical result wrapped into the
      32-bit two's-complement range. */
  function Int32(x: int): (r: JavaInt)
    ensures (x - r) % TWO_32 == 0
    ensures INT_MIN <= x <= INT_MAX ==> r == x
  {
    var k := (x - INT_MIN) / TWO_32;
    assert x - INT_MIN == k * TWO_32 + (x - INT_MIN) % TWO_32;
    x - k * TWO_32
  }

  // ---------------------------------------------------------------------
  // Joining and splitting

  /** `parts` separated by `sep`; the empty list gives the empty string. */
  function Join(parts: seq<string>, sep: string): string
  {
    if |parts| == 0 then ""
    else if |parts| == 1 then parts[0]
    else parts[0] + sep + Join(parts[1..], sep)
  }

  lemma {:induction false} JoinAppend(parts: seq<string>, q: string, sep: string)
    requires |parts| >= 1
    ensures Join(parts + [q], sep) == Join(parts, sep) + sep + q
  {
    if |parts| == 1 {
      assert (parts + [q])[1..] == [q];
    } else {
      assert (parts + [q])[1..] == parts[1..] + [q];
      JoinAppend(parts[1..], q, sep);
    }
  }

  /** Every piece between left-to-right, non-overlapping occurrences of
      `sep`, trailing empty pieces included. */
  function SplitAll(s: string, sep: string): (r: seq<string>)
    requires |sep| > 0
    ensures |r| >= 1
    decreases |s|
  {
    if |s| < |sep| then [s]
    else if s[..|sep|] == sep then [""] + SplitAll(s[|sep|..], sep)
    else
      var rest := SplitAll(s[1..], sep);
      [[s[0]] + rest[0]] + rest[1..]
  }

  function DropTrailingEmpty(pieces: seq<string>): (r: seq<string>)
    ensures |r| <= |pieces| && r == pieces[..|r|]
    ensures |r| > 0 ==> r[|r| - 1] != ""
    ensures forall i :: |r| <= i < |pieces| ==> pieces[i] == ""
  {
    if |pieces| > 0 && pieces[|pieces| - 1] == "" then DropTrailingEmpty(pieces[..|pieces| - 1])
    else pieces
  }

  /** `String.split` with a literal separator and no limit: a string with
      no occurrence of the separator splits into itself (even the empty
      string); otherwise the pieces, less any trailing empty ones. */
  function Split(s: string, sep: string): seq<string>
    requires |sep| > 0
  {
    var pieces := SplitAll(s, sep);
    if |pieces| == 1 then pieces else DropTrailingEmpty(pieces)
  }

  lemma JoinCons(p: string, rest: seq<string>, sep: string)
    requires |rest| >= 1
    ensures Join([p] + rest, sep) == p + sep + Join(rest, sep)
  {
    assert ([p] + rest)[1..] == rest;
  }

  /** Joining the pieces back with the separator restores the string. */
  lemma {:induction false} SplitAllJoin(s: string, sep: string)
    requires |sep| > 0
    ensures Join(SplitAll(s, sep), sep) == s
    decreases |s|
  {
    if |s| < |sep| {
    } else if s[..|sep|] == sep {
      SplitAllJoin(s[|sep|..], sep);
      SplitAllJoinAtSeparator(s, sep);
    } else {
      SplitAllJoin(s[1..], sep);
      SplitAllJoinAtCharacter(s, sep);
    }
  }

  /** The step of `SplitAllJoin` where the string starts with the
      separator. */
  lemma SplitAllJoinAtSeparator(s: string, sep: string)
    requires |sep| > 0 && |s| >= |sep| && s[..|sep|] == sep
    requires Join(SplitAll(s[|sep|..], sep), sep) == s[|sep|..]
    ensures Join(SplitAll(s, sep), sep) == s
  {
    var rest := SplitAll(s[|sep|..], sep);
    assert SplitAll(s, sep) == [""] + rest;
    JoinConsEmpty(rest, sep);
    PrefixThenRest(s, sep);
  }

  lemma PrefixThenRest(s: string, p: string)
    requires |p| <= |s| && s[..|p|] == p
    ensures s == p + s[|p|..]
  {
    assert s == s[..|p|] + s[|p|..];
  }

  /** An empty first piece leaves just the separator in front. */
  lemma JoinConsEmpty(rest: seq<string>, sep: string)
    requires |rest| >= 1
    ensures Join([""] + rest, sep) == sep + Join(rest, sep)
  {
    JoinCons("", rest, sep);
    assert "" + sep == sep;
  }

  /** Putting a character in front of the first piece puts it in front
      of the joined string. */
  lemma JoinConsHead(c: char, rest: seq<string>, sep: string)
    requires |rest| >= 1
    ensures Join([[c] + rest[0]] + rest[1..], sep) == [c] + Join(rest, sep)
  {
    if |rest| == 1 {
      assert [[c] + rest[0]] + rest[1..] == [[c] + rest[0]];
    } else {
      var tail := Join(rest[1..], sep);
      JoinCons([c] + rest[0], rest[1..], sep);
      assert ([c] + rest[0]) + sep + tail == [c] + (rest[0] + sep + tail);
    }
  }

  /** The step of `SplitAllJoin` where the first character stays in the
      first piece. */
  lemma SplitAllJoinAtCharacter(s: string, sep: string)
    requires |sep| > 0 && |s| >= |sep| && s[..|sep|] != sep
    requires Join(SplitAll(s[1..], sep), sep) == s[1..]
    ensures Join(SplitAll(s, sep), sep) == s
  {
    var rest := SplitAll(s[1..], sep);
    assert SplitAll(s, sep) == [[s[0]] + rest[0]] + rest[1..];
    JoinConsHead(s[0], rest, sep);
    assert s == [s[0]] + s[1..];
  }

  /** A piece free of the one-character separator `c` splits into itself. */
  lemma {:induction false} SplitAllNoSeparator(p: string, c: char)
    requires c !in p
    ensures SplitAll(p, [c]) == [p]
    decreases |p|
  {
    if |p| >= 1 {
      assert p[..1] == [p[0]];
      assert p[0] in p;
      assert c !in p[1..] by {
        forall k | 0 <= k < |p[1..]| ensures p[1..][k] != c {
          assert p[1..][k] == p[k + 1];
        }
      }
      SplitAllNoSeparator(p[1..], c);
      assert [p[0]] + p[1..] == p;
    }
  }

  lemma {:induction false} SplitAllPrefix(p: string, c: char, t: string)
    requires c !in p
    ensures SplitAll(p + [c] + t, [c]) == [p] + SplitAll(t, [c])
    decreases |p|
  {
    var s := p + [c] + t;
    if |p| == 0 {
      assert s[..1] == [c];
      assert s[1..] == t;
    } else {
      assert p[0] in p;
      assert s[..1] == [p[0]];
      assert c !in p[1..] by {
        forall k | 0 <= k < |p[1..]| ensures p[1..][k] != c {
          assert p[1..][k] == p[k + 1];
        }
      }
      assert s[1..] == p[1..] + [c] + t;
      SplitAllPrefix(p[1..], c, t);
      assert [p[0]] + p[1..] == p;
    }
  }

  /** Splitting a join on a one-character separator that occurs in no
      part gives the parts back. */
  lemma {:induction false} SplitAllOfJoin(parts: seq<string>, c: char)
    requires |parts| >= 1
    requires forall i :: 0 <= i < |parts| ==> c !in parts[i]
    ensures SplitAll(Join(parts, [c]), [c]) == parts
  {
    if |parts| == 1 {
      SplitAllNoSeparator(parts[0], c);
    } else {
      SplitAllOfJoin(parts[1..], c);
      SplitAllPrefix(parts[0], c, Join(parts[1..], [c]));
      assert [parts[0]] + parts[1..] == parts;
    }
  }

  /** The round trip `split(join(parts))` that `Split` completes when no
      part holds the separator and the last part is not empty. */
  lemma SplitOfJoin(parts: seq<string>, c: char)
    requires |parts| >= 1 && parts[|parts| - 1] != ""
    requires forall i :: 0 <= i < |parts| ==> c !in parts[i]
    ensures Split(Join(parts, [c]), [c]) == parts
  {
    SplitAllOfJoin(parts, c);
  }

  // ---------------------------------------------------------------------
  // Trimming and case

  /** `String.trim`: drops leading and trailing characters up to U+0020. */
  function Trim(s: string): (r: string)
    ensures |r| <= |s|
    ensures |r| > 0 ==> r[0] > ' ' && r[|r| - 1] > ' '
    ensures (|s| == 0 || (s[0] > ' ' && s[|s| - 1] > ' ')) ==> r == s
    decreases |s|
  {
    if |s| > 0 && s[0] <= ' ' then Trim(s[1..])
    else if |s| > 0 && s[|s| - 1] <= ' ' then Trim(s[..|s| - 1])
    else s
  }

  function LowerChar(c: char): char
  {
    if 'A' <= c <= 'Z' then (c as int + 32) as char else c
  }

  /** `String.toLowerCase` on the ASCII letters. */
  function ToLower(s: string): (r: string)
    ensures |r| == |s|
    ensures forall i :: 0 <= i < |s| ==> r[i] == LowerChar(s[i])
  {
    if |s| == 0 then "" else [LowerChar(s[0])] + ToLower(s[1..])
  }

  lemma {:induction false} ToLowerIdempotent(s: string)
    ensures ToLower(ToLower(s)) == ToLower(s)
  {
    var once := ToLower(s);
    var twice := ToLower(once);
    assert |twice| == |once|;
    forall i | 0 <= i < |s| ensures twice[i] == once[i] {
      assert twice[i] == LowerChar(LowerChar(s[i]));
    }
  }

  lemma ToLowerConcat(a: string, b: string)
    ensures ToLower(a + b) == ToLower(a) + ToLower(b)
  {
    var whole, parts := ToLower(a + b), ToLower(a) + ToLower(b);
    forall i | 0 <= i < |a + b| ensures whole[i] == parts[i] {
      if i < |a| {
        assert (a + b)[i] == a[i];
      } else {
        assert (a + b)[i] == b[i - |a|];
      }
    }
  }

  /** Lowering keeps out of a string a character that is no other
      character's lower-case form. */
  lemma ToLowerKeepsOut(s: string, c: char)
    requires c !in s
    requires forall d :: LowerChar(d) == c ==> d == c
    ensures c !in ToLower(s)
  {
    var t := ToLower(s);
    forall i | 0 <= i < |t| ensures t[i] != c {
      assert s[i] != c;
    }
  }

  // ---------------------------------------------------------------------
  // Decimal numbers

  predicate IsDigit(c: char) {
    '0' <= c <= '9'
  }

  predicate AllDigits(s: string) {
    forall i :: 0 <= i < |s| ==> IsDigit(s[i])
  }

  function DigitValue(c: char): int
    requires IsDigit(c)
  {
    c as int - '0' as int
  }

  function DigitChar(d: int): (c: char)
    requires 0 <= d < 10
    ensures IsDigit(c) && DigitValue(c) == d
  {
    ('0' as int + d) as char
  }

  /** The value of a run of decimal digits, most significant first. */
  function DigitsValue(s: string): (v: nat)
    requires AllDigits(s)
  {
    if |s| == 0 then 0 else DigitsValue(s[..|s| - 1]) * 10 + DigitValue(s[|s| - 1])
  }

  /** `Integer.parseInt` (with `lo`, `hi` the `int` range) or
      `Long.parseLong` (the `long` range) on ASCII digits: an optional sign
      and at least one digit, within range; `None` where Java throws
      `NumberFormatException`. */
  function ParseInteger(s: string, lo: int, hi: int): (r: Option<int>)
    ensures r.Some? ==> lo <= r.value <= hi
    ensures r.Some? ==> |s| >= 1 && (IsDigit(s[0]) || ((s[0] == '-' || s[0] == '+') && |s| >= 2))
    ensures r.Some? ==> AllDigits(s[1..])
  {
    if |s| == 0 then None
    else if s[0] == '-' || s[0] == '+' then
      if |s| == 1 || !AllDigits(s[1..]) then None
      else
        var v: int := if s[0] == '-' then 0 - DigitsValue(s[1..]) else DigitsValue(s[1..]);
        if lo <= v <= hi then Some(v) else None
    else if AllDigits(s) then
      var v := DigitsValue(s);
      if lo <= v <= hi then Some(v) else None
    else None
  }

  function ParseInt(s: string): Option<int> {
    ParseInteger(s, INT_MIN, INT_MAX)
  }

  function ParseLong(s: string): Option<int> {
    ParseInteger(s, LONG_MIN, LONG_MAX)
  }

  /** Decimal digits of `n` with no leading zero. */
  function NatToString(n: nat): (r: string)
    ensures |r| >= 1 && AllDigits(r)
    ensures r[0] != '0' || n == 0
  {
    if n < 10 then [DigitChar(n)] else NatToString(n / 10) + [DigitChar(n % 10)]
  }

  /** Java's decimal rendering of an `int` or `long` (string concatenation,
      `toString`). */
  function IntToString(n: int): string
  {
    if n < 0 then "-" + NatToString(-n) else NatToString(n)
  }

  lemma {:induction false} DigitsValueOfNatToString(n: nat)
    ensures DigitsValue(NatToString(n)) == n
  {
    var s := NatToString(n);
    if n >= 10 {
      DigitsValueOfNatToString(n / 10);
      assert s[..|s| - 1] == NatToString(n / 10);
    }
  }

  /** Rendering a number in range and parsing it back gives the number. */
  lemma ParseIntegerRoundTrip(n: int, lo: int, hi: int)
    requires lo <= n <= hi
    ensures ParseInteger(IntToString(n), lo, hi) == Some(n)
  {
    var s := IntToString(n);
    if n < 0 {
      var d := NatToString(-n);
      assert s == "-" + d && s[0] == '-' && s[1..] == d;
      DigitsValueOfNatToString(-n);
      assert DigitsValue(s[1..]) == -n;
    } else {
      DigitsValueOfNatToString(n);
      assert IsDigit(s[0]) && AllDigits(s);
      assert DigitsValue(s) == n;
    }
  }

  function Pow10(k: nat): (r: nat)
    ensures r >= 1
  {
    if k == 0 then 1 else 10 * Pow10(k - 1)
  }

  /** A number below 10^k has at most k digits (and always at least one). */
  lemma {:induction false} NatToStringLength(n: nat, k: nat)
    requires n < Pow10(k) && k >= 1
    ensures |NatToString(n)| <= k
  {
    if n >= 10 {
      assert k >= 2;
      NatToStringLength(n / 10, k - 1);
    }
  }

  /** The rendering of a `long` has at most 20 characters. */
  lemma LongToStringLength(n: int)
    requires LONG_MIN <= n <= LONG_MAX
    ensures |IntToString(n)| <= 20
  {
    assert Pow10(3) == 1_000;
    assert Pow10(6) == 1_000_000;
    assert Pow10(9) == 1_000_000_000;
    assert Pow10(12) == 1_000_000_000_000;
    assert Pow10(15) == 1_000_000_000_000_000;
    assert Pow10(18) == 1_000_000_000_000_000_000;
    assert Pow10(19) == 10_000_000_000_000_000_000;
    if n < 0 {
      NatToStringLength(-n, 19);
    } else {
      NatToStringLength(n, 19);
    }
  }

  lemma IntToStringHasNoSeparator(n: int, c: char)
    requires c != '-' && !IsDigit(c)
    ensures c !in IntToString(n)
  {
  }

  /** A rendered number has no letters, so lowering leaves it alone. */
  lemma ToLowerOfNumber(n: int)
    ensures ToLower(IntToString(n)) == IntToString(n)
  {
    var s := IntToString(n);
    var t := ToLower(s);
    forall i | 0 <= i < |s| ensures t[i] == s[i] {
      assert s[i] == '-' || IsDigit(s[i]);
    }
  }

  // ---------------------------------------------------------------------
  // Hash codes

  /** The UTF-16 code units Java stores for one character: the character
      itself below U+10000, otherwise its surrogate pair. */
  function Utf16Units(c: char): (r: seq<int>)
    ensures c as int < 0x1_0000 ==> r == [c as int]
    ensures c as int >= 0x1_0000 ==>
              && |r| == 2
              && 0xD800 <= r[0] < 0xDC00 <= r[1] < 0xE000
              && 0x1_0000 + (r[0] - 0xD800) * 0x400 + (r[1] - 0xDC00) == c as int
  {
    var v := c as int;
    if v < 0x1_0000 then [v]
    else [0xD800 + (v - 0x1_0000) / 0x400, 0xDC00 + (v - 0x1_0000) % 0x400]
  }

  /** The `char` array of a Java `String` holding `s`. */
  function Utf16(s: string): (r: seq<int>)
    ensures |r| >= |s|
  {
    if |s| == 0 then [] else Utf16(s[..|s| - 1]) + Utf16Units(s[|s| - 1])
  }

  /** A string of characters below U+10000 is its own code units. */
  lemma {:induction false} Utf16OfBasicPlane(s: string)
    requires forall i :: 0 <= i < |s| ==> s[i] as int < 0x1_0000
    ensures |Utf16(s)| == |s|
    ensures forall i :: 0 <= i < |s| ==> Utf16(s)[i] == s[i] as int
  {
    if |s| > 0 {
      Utf16OfBasicPlane(s[..|s| - 1]);
    }
  }

  /** `u[0]*31^(n-1) + ... + u[n-1]`, reduced modulo 2^32. */
  function HashBits(u: seq<int>): (h: nat)
    ensures h < TWO_32
  {
    if |u| == 0 then 0 else (31 * HashBits(u[..|u| - 1]) + u[|u| - 1]) % TWO_32
  }

  /** `String.hashCode`: the polynomial hash of the UTF-16 code units,
      computed in `int` arithmetic. */
  function StringHashCode(s: string): (h: JavaInt)
    ensures (h - HashBits(Utf16(s))) % TWO_32 == 0
  {
    Int32(HashBits(Utf16(s)))
  }

  /** A character outside the basic plane hashes as its two surrogates:
      U+1F600 gives 31 * 0xD83D + 0xDE00. */
  lemma HashOfSupplementaryChar()
    ensures StringHashCode("\U{1F600}") == 31 * 0xD83D + 0xDE00
  {
    var s := "\U{1F600}";
    assert s[..0] == "";
    assert Utf16(s) == [0xD83D, 0xDE00];
    assert [0xD83D, 0xDE00][..1] == [0xD83D];
    assert [0xD83D][..0] == [];
  }
}
