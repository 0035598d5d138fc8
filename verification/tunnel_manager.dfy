/** `TunnelConnectionManager`: reads a tunnel configuration of
    `path|spec` entries, groups the tunnels by path into one connection
    per distinct path, builds the session settings of each path hop by hop
    (`user@host:port->user@host:port…`), and finds a tunnel by its
    destination. */
module TunnelManagement {
  import opened Wrappers
  import opened JavaText
  import opened Tunnels
  import opened Seqs

  // ---------------------------------------------------------------------
  // The comment filter of setTunnelConnectionsFromFile

  /** `\s` of `java.util.regex`: space, tab, line feed, vertical tab,
      form feed and carriage return. */
  predicate IsRegexSpace(c: char) {
    c == ' ' || c == '\t' || c == '\n' || c == '\r' || c as int == 0x0B || c as int == 0x0C
  }

  /** The line terminators, which `.` does not match. */
  predicate IsLineTerminator(c: char) {
    c == '\n' || c == '\r' || c as int == 0x85 || c as int == 0x2028 || c as int == 0x2029
  }

  /** What remains after the leading `\s*`. */
  function SkipSpaces(line: string): (r: string)
    ensures |r| <= |line| && r == line[|line| - |r|..]
    ensures forall i :: 0 <= i < |line| - |r| ==> IsRegexSpace(line[i])
    ensures r == "" || !IsRegexSpace(r[0])
  {
    if |line| > 0 && IsRegexSpace(line[0]) then SkipSpaces(line[1..]) else line
  }

  /** The pattern `^\s*(?:#.*)?$` matching the whole line: white space
      only, or white space, '#' and then anything but a line terminator. */
  predicate IsCommentLine(line: string) {
    var rest := SkipSpaces(line);
    rest == "" || (rest[0] == '#' && forall i :: 1 <= i < |rest| ==> !IsLineTerminator(rest[i]))
  }

  /** The lines the file reader keeps, in their order. */
  function ConfigLines(lines: seq<string>): (r: seq<string>)
    ensures |r| <= |lines|
  {
    if |lines| == 0 then []
    else
      var kept := ConfigLines(lines[..|lines| - 1]);
      var last := lines[|lines| - 1];
      if IsCommentLine(last) then kept else kept + [last]
  }

  /** The filter keeps every line that is not a comment and nothing
      else. */
  lemma {:induction false} ConfigLinesKeeps(lines: seq<string>)
    ensures forall l :: l in ConfigLines(lines) <==> l in lines && !IsCommentLine(l)
    decreases |lines|
  {
    if |lines| > 0 {
      var init := lines[..|lines| - 1];
      ConfigLinesKeeps(init);
      assert lines == init + [lines[|lines| - 1]];
    }
  }

  /** The reading loop of `setTunnelConnectionsFromFile`, over the lines
      `readLine` returns: comment and blank lines are skipped. */
  method ReadConfigLines(lines: seq<string>) returns (pathAndTunnels: seq<string>)
    ensures pathAndTunnels == ConfigLines(lines)
  {
    pathAndTunnels := [];
    var i := 0;
    while i < |lines|
      invariant 0 <= i <= |lines|
      invariant pathAndTunnels == ConfigLines(lines[..i])
    {
      var line := lines[i];
      assert lines[..i + 1][..i] == lines[..i];
      i := i + 1;
      if IsCommentLine(line) {
        continue;
      }
      pathAndTunnels := pathAndTunnels + [line];
    }
    assert lines[..i] == lines;
  }

  /** A line with no line terminator in it is skipped exactly when it is
      blank or its first character that is not white space is '#'. */
  lemma CommentLineIff(line: string)
    requires forall i :: 0 <= i < |line| ==> !IsLineTerminator(line[i])
    ensures IsCommentLine(line) <==>
              || (forall i :: 0 <= i < |line| ==> IsRegexSpace(line[i]))
              || (exists k :: 0 <= k < |line| && line[k] == '#' && forall j :: 0 <= j < k ==> IsRegexSpace(line[j]))
  {
    var rest := SkipSpaces(line);
    var k := |line| - |rest|;
    if rest != "" {
      assert line[k] == rest[0] && !IsRegexSpace(line[k]);
      if rest[0] == '#' {
        assert forall i :: 1 <= i < |rest| ==> rest[i] == line[k + i];
      } else {
        forall k' | 0 <= k' < |line| && line[k'] == '#'
          ensures exists j :: 0 <= j < k' && !IsRegexSpace(line[j])
        {
          assert k < k';
          assert 0 <= k < k' && !IsRegexSpace(line[k]);
        }
      }
    }
  }

  /** One more line read: kept unless it is a comment. */
  lemma ConfigLinesSnoc(lines: seq<string>, line: string)
    ensures ConfigLines(lines + [line]) ==
              if IsCommentLine(line) then ConfigLines(lines) else ConfigLines(lines) + [line]
  {
    assert (lines + [line])[..|lines|] == lines;
  }

  /** The filter keeps the order: filtering two runs of lines one after
      the other is filtering their concatenation. */
  lemma {:induction false} ConfigLinesAppend(a: seq<string>, b: seq<string>)
    ensures ConfigLines(a + b) == ConfigLines(a) + ConfigLines(b)
    decreases |b|
  {
    if |b| == 0 {
      assert a + b == a;
    } else {
      var n := |b| - 1;
      var b0, last := b[..n], b[n];
      ConfigLinesAppend(a, b0);
      AppendLast(a, b);
      ConfigLinesSnoc(a + b0, last);
      ConfigLinesSnoc(b0, last);
      AppendThree(ConfigLines(a), ConfigLines(b0), [last]);
    }
  }

  // ---------------------------------------------------------------------
  // Entries and their grouping

  /** One entry of `setTunnelConnections`: trimmed and split on '|';
      part 0 is the path, part 1 the tunnel spec, and any further part is
      ignored. */
  function ParseEntry(entry: string): (r: Result<(string, Endpoints), TunnelError>)
    ensures var parts := Split(Trim(entry), ['|']);
            && (|parts| == 0 ==> r == Failure(IndexOutOfBounds(0)))
            && (|parts| == 1 ==> r == Failure(IndexOutOfBounds(1)))
            && (|parts| >= 2 ==> (r.Success? <==> ParseSpec(parts[1]).Success?))
            && (|parts| >= 2 && r.Failure? ==> r.error == ParseSpec(parts[1]).error)
            && (r.Success? ==> |parts| >= 2 && r.value.0 == parts[0] && Success(r.value.1) == ParseSpec(parts[1]))
  {
    var parts := Split(Trim(entry), ['|']);
    if |parts| == 0 then Failure(IndexOutOfBounds(0))
    else if |parts| == 1 then Failure(IndexOutOfBounds(1))
    else
      var tunnel :- ParseSpec(parts[1]);
      Success((parts[0], tunnel))
  }

  /** Each item parsed in order by `parse`; the first item that fails
      decides the error, as an exception thrown inside a loop does. */
  function ParseEach<A, T, E>(items: seq<A>, parse: A -> Result<T, E>): (r: Result<seq<T>, E>)
    ensures r.Success? ==> |r.value| == |items|
  {
    if |items| == 0 then Success([])
    else
      var parsed :- ParseEach(items[..|items| - 1], parse);
      var last :- parse(items[|items| - 1]);
      Success(parsed + [last])
  }

  /** Every entry parsed in order; the first entry that throws decides the
      error. */
  function ParseEntries(entries: seq<string>): Result<seq<(string, Endpoints)>, TunnelError>
  {
    ParseEach(entries, ParseEntry)
  }

  /** One more item parsed. */
  lemma ParseEachStep<A, T, E>(items: seq<A>, parse: A -> Result<T, E>, i: nat, parsed: seq<T>)
    requires i < |items| && ParseEach(items[..i], parse) == Success(parsed)
    ensures ParseEach(items[..i + 1], parse)
              == if parse(items[i]).Failure? then Failure(parse(items[i]).error)
                 else Success(parsed + [parse(items[i]).value])
  {
    TakeNext(items, i);
  }

  /** A list that parses holds each item's own result, in order. */
  lemma {:induction false} ParseEachEach<A, T, E>(items: seq<A>, parse: A -> Result<T, E>)
    requires ParseEach(items, parse).Success?
    ensures forall i :: 0 <= i < |items| ==> parse(items[i]) == Success(ParseEach(items, parse).value[i])
    decreases |items|
  {
    if |items| > 0 {
      var n := |items| - 1;
      var init := items[..n];
      ParseEachEach(init, parse);
      var r0 := ParseEach(init, parse).value;
      ParseEachStep(items, parse, n, r0);
      TakeAll(items);
      forall i | 0 <= i < n ensures parse(items[i]) == Success(ParseEach(items, parse).value[i]) {
        assert init[i] == items[i];
      }
    }
  }

  /** A list that does not parse fails with the error of its first item
      that fails, every item before it parsing. */
  lemma {:induction false} ParseEachFirstError<A, T, E>(items: seq<A>, parse: A -> Result<T, E>)
    requires ParseEach(items, parse).Failure?
    ensures exists i :: 0 <= i < |items| && parse(items[i]) == Failure(ParseEach(items, parse).error)
                        && forall j :: 0 <= j < i ==> parse(items[j]).Success?
    decreases |items|
  {
    var n := |items| - 1;
    var init := items[..n];
    var err := ParseEach(items, parse).error;
    if ParseEach(init, parse).Success? {
      ParseEachEach(init, parse);
      assert parse(items[n]) == Failure(err);
      assert forall j :: 0 <= j < n ==> init[j] == items[j];
    } else {
      ParseEachFirstError(init, parse);
      var i :| 0 <= i < n && parse(init[i]) == Failure(err)
               && forall j :: 0 <= j < i ==> parse(init[j]).Success?;
      assert forall j :: 0 <= j <= i ==> init[j] == items[j];
    }
  }

  /** A failure among the first items is the failure of the whole
      list: nothing after it is parsed. */
  lemma {:induction false} ParseEachFailureExtends<A, T, E>(items: seq<A>, parse: A -> Result<T, E>, n: nat)
    requires n <= |items| && ParseEach(items[..n], parse).Failure?
    ensures ParseEach(items, parse) == ParseEach(items[..n], parse)
    decreases |items| - n
  {
    if n < |items| {
      TakeNext(items, n);
      ParseEachFailureExtends(items, parse, n + 1);
    } else {
      TakeAll(items);
    }
  }

  /** Some element of the set has this key. */
  predicate SetHas<T(==), K(==)>(group: seq<T>, key: T -> K, k: K) {
    exists t :: t in group && key(t) == k
  }

  /** No two elements of the set have the same key. */
  predicate DistinctKeys<T, K(==)>(group: seq<T>, key: T -> K) {
    forall i, j :: 0 <= i < j < |group| ==> key(group[i]) != key(group[j])
  }

  /** `HashSet.add` for elements equal exactly when their keys are: an
      element whose key is already present is not added, the one there
      stays; otherwise it goes last. A `HashSet<Tunnel>` has `SpecKey` as
      its key, since `Tunnel.equals` compares the lower-cased specs. */
  function SetAdd<T(==,!new), K(==)>(group: seq<T>, key: T -> K, e: T): (r: seq<T>)
    ensures DistinctKeys(group, key) ==> DistinctKeys(r, key)
    ensures SetHas(r, key, key(e))
    ensures forall t :: t in r <==> t in group || (t == e && !SetHas(group, key, key(e)))
  {
    if SetHas(group, key, key(e)) then group else group + [e]
  }

  /** The paths of the parsed entries. */
  function Paths<P, T>(parsed: seq<(P, T)>): set<P> {
    set i | 0 <= i < |parsed| :: parsed[i].0
  }

  /** Each path to the set of its elements, in the order they were
      added. */
  function GroupBy<P(==), T(==,!new), K(==)>(parsed: seq<(P, T)>, key: T -> K): (m: map<P, seq<T>>)
  {
    if |parsed| == 0 then map[]
    else
      var (path, e) := parsed[|parsed| - 1];
      var m := GroupBy(parsed[..|parsed| - 1], key);
      m[path := SetAdd(if path in m then m[path] else [], key, e)]
  }

  /** The `tunnelMap` of `setTunnelConnections`: each path to the set of
      its tunnels. */
  function Group(parsed: seq<(string, Endpoints)>): map<string, seq<Endpoints>>
  {
    GroupBy(parsed, SpecKey)
  }

  /** One more entry grouped. */
  lemma GroupStep<P, T(!new), K>(parsed: seq<(P, T)>, key: T -> K, entry: (P, T))
    ensures var m := GroupBy(parsed, key);
            GroupBy(parsed + [entry], key) == m[entry.0 := SetAdd(if entry.0 in m then m[entry.0] else [], key, entry.1)]
  {
    SnocTake(parsed, entry);
  }

  lemma PathsPush<P, T>(parsed: seq<(P, T)>)
    requires |parsed| > 0
    ensures Paths(parsed) == Paths(parsed[..|parsed| - 1]) + {parsed[|parsed| - 1].0}
  {
    var init := parsed[..|parsed| - 1];
    forall p | p in Paths(parsed) ensures p in Paths(init) + {parsed[|parsed| - 1].0} {
      var i :| 0 <= i < |parsed| && parsed[i].0 == p;
      if i < |parsed| - 1 {
        assert init[i] == parsed[i];
      }
    }
    forall p | p in Paths(init) ensures p in Paths(parsed) {
      var i :| 0 <= i < |init| && init[i].0 == p;
      assert parsed[i] == init[i];
    }
  }

  /** Every path of an entry is a key of the map, and nothing else is. */
  lemma {:induction false} GroupKeys<P, T(!new), K>(parsed: seq<(P, T)>, key: T -> K)
    ensures GroupBy(parsed, key).Keys == Paths(parsed)
    decreases |parsed|
  {
    if |parsed| > 0 {
      GroupKeys(parsed[..|parsed| - 1], key);
      PathsPush(parsed);
    }
  }

  /** No set holds two elements with the same key. */
  lemma {:induction false} GroupDistinct<P, T(!new), K>(parsed: seq<(P, T)>, key: T -> K)
    ensures forall path :: path in GroupBy(parsed, key) ==> DistinctKeys(GroupBy(parsed, key)[path], key)
    decreases |parsed|
  {
    if |parsed| > 0 {
      GroupDistinct(parsed[..|parsed| - 1], key);
    }
  }

  /** Every element given for a path has a key-equal element in that
      path's set: duplicates collapse, nothing is lost. */
  lemma {:induction false} GroupComplete<P, T(!new), K>(parsed: seq<(P, T)>, key: T -> K)
    ensures forall i :: 0 <= i < |parsed| ==>
              parsed[i].0 in GroupBy(parsed, key) && SetHas(GroupBy(parsed, key)[parsed[i].0], key, key(parsed[i].1))
    decreases |parsed|
  {
    if |parsed| > 0 {
      var init := parsed[..|parsed| - 1];
      var (path, e) := parsed[|parsed| - 1];
      var m := GroupBy(init, key);
      GroupComplete(init, key);
      forall i | 0 <= i < |parsed| - 1
        ensures parsed[i].0 in GroupBy(parsed, key) && SetHas(GroupBy(parsed, key)[parsed[i].0], key, key(parsed[i].1))
      {
        assert init[i] == parsed[i];
        if parsed[i].0 == path {
          var t :| t in m[path] && key(t) == key(parsed[i].1);
          assert t in GroupBy(parsed, key)[path];
        }
      }
    }
  }

  /** A set holds only elements given for its path. */
  lemma {:induction false} GroupSound<P, T(!new), K>(parsed: seq<(P, T)>, key: T -> K)
    ensures forall path, t :: path in GroupBy(parsed, key) && t in GroupBy(parsed, key)[path] ==> (path, t) in parsed
    decreases |parsed|
  {
    if |parsed| > 0 {
      var init := parsed[..|parsed| - 1];
      var (path, e) := parsed[|parsed| - 1];
      var m := GroupBy(init, key);
      GroupSound(init, key);
      forall p, t | p in GroupBy(parsed, key) && t in GroupBy(parsed, key)[p] ensures (p, t) in parsed {
        if p == path && (p !in m || t !in m[p]) {
          assert t == e;
          assert parsed[|parsed| - 1] == (p, t);
        } else {
          assert (p, t) in init;
          var k :| 0 <= k < |init| && init[k] == (p, t);
          assert parsed[k] == (p, t);
        }
      }
    }
  }

  // ---------------------------------------------------------------------
  // Hops

  /** A JSch `Proxy`: one the base factory was configured with (opaque
      here), or an `SshProxy` through the factory of the previous hop. */
  datatype Proxy = ExternalProxy(id: nat) | SshProxy(through: SessionSettings)

  /** What a session factory carries for the path: username, hostname,
      port and proxy, a null being `None`. */
  datatype SessionSettings = SessionSettings(username: Option<string>, hostname: Option<string>, port: int, proxy: Option<Proxy>)

  /** One hop, `[username@]hostname[:port]`, built from the base factory
      for the first hop and from the previous hop's factory, proxied
      through it, for every later one. The username is replaced only when
      the hop splits on '@' into exactly two parts, the port only when the
      host part splits on ':' into exactly two; otherwise they are kept from
      the factory the builder started from. */
  function BuildHop(previous: Option<SessionSettings>, base: SessionSettings, part: string): (r: Result<SessionSettings, TunnelError>)
    ensures var start := if previous.None? then base else previous.value.(proxy := Some(SshProxy(previous.value)));
            var userAtHost := Split(part, ['@']);
            && (|userAtHost| == 0 ==> r == Failure(IndexOutOfBounds(0)))
            && (r.Success? ==>
                  && |userAtHost| >= 1
                  && r.value.proxy == start.proxy
                  && (|userAtHost| == 2 ==> r.value.username == Some(userAtHost[0]))
                  && (|userAtHost| != 2 ==> r.value.username == start.username)
                  && var hostColonPort := Split(userAtHost[if |userAtHost| == 2 then 1 else 0], [':']);
                     && |hostColonPort| >= 1
                     && r.value.hostname == Some(hostColonPort[0])
                     && (|hostColonPort| == 2 ==> Some(r.value.port) == ParseInt(hostColonPort[1]))
                     && (|hostColonPort| != 2 ==> r.value.port == start.port))
  {
    var start := if previous.None? then base else previous.value.(proxy := Some(SshProxy(previous.value)));
    var userAtHost := Split(part, ['@']);
    if |userAtHost| == 0 then Failure(IndexOutOfBounds(0))
    else
      var username := if |userAtHost| == 2 then Some(userAtHost[0]) else start.username;
      var hostname := if |userAtHost| == 2 then userAtHost[1] else userAtHost[0];
      var hostColonPort := Split(hostname, [':']);
      if |hostColonPort| == 0 then Failure(IndexOutOfBounds(0))
      else if |hostColonPort| == 2 then
        var port :- ParsePort(hostColonPort[1]);
        Success(SessionSettings(username, Some(hostColonPort[0]), port, start.proxy))
      else
        Success(SessionSettings(username, Some(hostColonPort[0]), start.port, start.proxy))
  }

  /** The loop of `SessionFactoryCache.getSessionFactory` over the hops:
      hop k is looked up in the cache under hops 0..k joined by "->" and
      built when absent. No hop at all leaves the factory null. */
  function Walk(cache: map<string, SessionSettings>, base: SessionSettings, hops: seq<string>): (r: Result<Option<SessionSettings>, TunnelError>)
    ensures r.Success? ==> (r.value.Some? <==> |hops| > 0)
  {
    if |hops| == 0 then Success(None)
    else
      var previous :- Walk(cache, base, hops[..|hops| - 1]);
      var key := Join(hops, "->");
      if key in cache then Success(Some(cache[key]))
      else
        var hop :- BuildHop(previous, base, hops[|hops| - 1]);
        Success(Some(hop))
  }

  /** The key of hop i: hops 0..i joined by the separator. */
  lemma JoinNext(parts: seq<string>, i: nat, sep: string)
    requires i < |parts|
    ensures Join(parts[..i + 1], sep) == if i == 0 then parts[0] else Join(parts[..i], sep) + sep + parts[i]
  {
    TakeNext(parts, i);
    if i > 0 {
      JoinAppend(parts[..i], parts[i], sep);
    }
  }

  /** One more hop of the walk: the cached factory of the path so far, or
      one built on the previous hop's. */
  lemma WalkStep(cache: map<string, SessionSettings>, base: SessionSettings, hops: seq<string>, i: nat, previous: Option<SessionSettings>)
    requires i < |hops| && Walk(cache, base, hops[..i]) == Success(previous)
    ensures var key := Join(hops[..i + 1], "->");
            var built := BuildHop(previous, base, hops[i]);
            Walk(cache, base, hops[..i + 1])
              == if key in cache then Success(Some(cache[key]))
                 else if built.Failure? then Failure(built.error)
                 else Success(Some(built.value))
  {
    TakeNext(hops, i);
  }

  /** A failure at an earlier hop is the failure of the whole path. */
  lemma {:induction false} WalkFailureExtends(cache: map<string, SessionSettings>, base: SessionSettings, hops: seq<string>, n: nat)
    requires n <= |hops| && Walk(cache, base, hops[..n]).Failure?
    ensures Walk(cache, base, hops) == Walk(cache, base, hops[..n])
    decreases |hops| - n
  {
    if n < |hops| {
      assert hops[..n + 1][..n] == hops[..n];
      WalkFailureExtends(cache, base, hops, n + 1);
    } else {
      assert hops[..n] == hops;
    }
  }

  /** The chain of hops built without any cache: each hop from the one
      before it. */
  function Chain(base: SessionSettings, hops: seq<string>): (r: Result<Option<SessionSettings>, TunnelError>)
  {
    if |hops| == 0 then Success(None)
    else
      var previous :- Chain(base, hops[..|hops| - 1]);
      var hop :- BuildHop(previous, base, hops[|hops| - 1]);
      Success(Some(hop))
  }

  /** The cache is never written, so every path is resolved as a fresh
      chain of hops. */
  lemma {:induction false} EmptyCacheBuildsChain(base: SessionSettings, hops: seq<string>)
    ensures Walk(map[], base, hops) == Chain(base, hops)
    decreases |hops|
  {
    if |hops| > 0 {
      EmptyCacheBuildsChain(base, hops[..|hops| - 1]);
    }
  }

  /** The settings for a configured path. */
  function SessionFactoryFor(base: SessionSettings, path: string): Result<Option<SessionSettings>, TunnelError>
  {
    Walk(map[], base, Split(path, "->"))
  }

  /** The first hop starts from the base factory and keeps its proxy. */
  lemma FirstHopFromBase(base: SessionSettings, hop: string)
    requires Chain(base, [hop]).Success?
    ensures Chain(base, [hop]).value.Some?
    ensures Chain(base, [hop]).value.value.proxy == base.proxy
  {
    assert [hop][..0] == [];
  }

  /** Every later hop is proxied through the factory of the hop before
      it. */
  lemma LaterHopThroughPrevious(base: SessionSettings, hops: seq<string>, hop: string)
    requires |hops| >= 1 && Chain(base, hops + [hop]).Success?
    ensures Chain(base, hops).Success? && Chain(base, hops).value.Some?
    ensures Chain(base, hops + [hop]).value.value.proxy == Some(SshProxy(Chain(base, hops).value.value))
  {
    assert (hops + [hop])[..|hops|] == hops;
  }

  /** How many `SshProxy` hops stand in front of a factory. */
  function ProxyDepth(s: SessionSettings): nat
  {
    if s.proxy.Some? && s.proxy.value.SshProxy? then 1 + ProxyDepth(s.proxy.value.through) else 0
  }

  /** A path of n hops puts n - 1 SSH proxies in front of the base
      factory's own. */
  lemma {:induction false} ChainDepth(base: SessionSettings, hops: seq<string>)
    requires |hops| >= 1 && Chain(base, hops).Success?
    ensures Chain(base, hops).value.Some?
    ensures ProxyDepth(Chain(base, hops).value.value) == ProxyDepth(base) + |hops| - 1
    decreases |hops|
  {
    AppendLast([], hops);
    var init := hops[..|hops| - 1];
    if |hops| == 1 {
      FirstHopFromBase(base, hops[0]);
    } else {
      LaterHopThroughPrevious(base, init, hops[|hops| - 1]);
      ChainDepth(base, init);
    }
  }

  /** A hop written out in full, `user@host:port`, sets exactly that
      username, hostname and port. */
  lemma FullHopRoundTrip(previous: Option<SessionSettings>, base: SessionSettings, user: string, host: string, port: int)
    requires '@' !in user && '@' !in host && ':' !in host && INT_MIN <= port <= INT_MAX
    ensures var r := BuildHop(previous, base, user + "@" + host + ":" + IntToString(port));
            && r.Success?
            && r.value.username == Some(user) && r.value.hostname == Some(host) && r.value.port == port
  {
    var digits := IntToString(port);
    var rest := host + ":" + digits;
    IntToStringHasNoSeparator(port, ':');
    IntToStringHasNoSeparator(port, '@');
    SplitTwo(host, digits, ':');
    SplitTwo(user, rest, '@');
    AppendFour(user + "@", host, ":", digits);
    ParseIntegerRoundTrip(port, INT_MIN, INT_MAX);
  }

  /** Two pieces joined by a separator that neither holds split back
      into the two, when the second is not empty. */
  lemma SplitTwo(a: string, b: string, c: char)
    requires c !in a && c !in b && b != ""
    ensures Split(a + [c] + b, [c]) == [a, b]
  {
    JoinCons(a, [b], [c]);
    assert [a] + [b] == [a, b];
    SplitOfJoin([a, b], c);
  }

  /** A bare hostname keeps the username and the port of the factory the
      hop starts from: a later hop inherits them from the hop before. */
  lemma BareHostInherits(previous: SessionSettings, base: SessionSettings, host: string)
    requires '@' !in host && ':' !in host
    ensures var r := BuildHop(Some(previous), base, host);
            && r.Success?
            && r.value == SessionSettings(previous.username, Some(host), previous.port, Some(SshProxy(previous)))
  {
    SplitAllNoSeparator(host, '@');
    SplitAllNoSeparator(host, ':');
  }

  // ---------------------------------------------------------------------
  // Connections

  /** A `TunnelConnection` as the manager builds it: the session settings
      of its path and its tunnels. */
  datatype TunnelConnection = TunnelConnection(sessionFactory: Option<SessionSettings>, tunnels: seq<Endpoints>)

  predicate MatchesDestination(t: Endpoints, hostname: string, port: int) {
    t.destinationHostname == hostname && t.destinationPort == port
  }

  /** `TunnelConnection.getTunnel(hostname, port)`: its first tunnel to
      that destination. */
  function ConnectionTunnel(c: TunnelConnection, hostname: string, port: int): (r: Option<Endpoints>)
    ensures r.None? <==> forall t :: t in c.tunnels ==> !MatchesDestination(t, hostname, port)
    ensures r.Some? ==> exists i :: 0 <= i < |c.tunnels| && c.tunnels[i] == r.value
                          && MatchesDestination(r.value, hostname, port)
                          && forall j :: 0 <= j < i ==> !MatchesDestination(c.tunnels[j], hostname, port)
  {
    FirstMatch(c.tunnels, hostname, port)
  }

  function FirstMatch(tunnels: seq<Endpoints>, hostname: string, port: int): (r: Option<Endpoints>)
    ensures r.None? <==> forall t :: t in tunnels ==> !MatchesDestination(t, hostname, port)
    ensures r.Some? ==> exists i :: 0 <= i < |tunnels| && tunnels[i] == r.value
                          && MatchesDestination(r.value, hostname, port)
                          && forall j :: 0 <= j < i ==> !MatchesDestination(tunnels[j], hostname, port)
  {
    if |tunnels| == 0 then None
    else if MatchesDestination(tunnels[0], hostname, port) then Some(tunnels[0])
    else
      var r := FirstMatch(tunnels[1..], hostname, port);
      assert forall t :: t in tunnels <==> t == tunnels[0] || t in tunnels[1..];
      if r.Some? then
        var i :| 0 <= i < |tunnels[1..]| && tunnels[1..][i] == r.value
                 && forall j :: 0 <= j < i ==> !MatchesDestination(tunnels[1..][j], hostname, port);
        assert tunnels[i + 1] == r.value;
        assert forall j :: 1 <= j < i + 1 ==> tunnels[j] == tunnels[1..][j - 1];
        r
      else r
  }

  /** The first loop of `setTunnelConnections`: each entry trimmed, split
      on '|' and its spec parsed, its tunnel added to the set of its
      path. The first entry that throws ends the loop with its error. */
  method GroupTunnels(pathAndSpecList: seq<string>) returns (r: Result<map<string, seq<Endpoints>>, TunnelError>)
    ensures ParseEntries(pathAndSpecList).Failure? ==> r == Failure(ParseEntries(pathAndSpecList).error)
    ensures ParseEntries(pathAndSpecList).Success? ==> r == Success(Group(ParseEntries(pathAndSpecList).value))
  {
    var tunnelMap: map<string, seq<Endpoints>> := map[];
    ghost var parsed: seq<(string, Endpoints)> := [];
    var i := 0;
    while i < |pathAndSpecList|
      invariant 0 <= i <= |pathAndSpecList|
      invariant ParseEntries(pathAndSpecList[..i]) == Success(parsed)
      invariant tunnelMap == Group(parsed)
    {
      ParseEachStep(pathAndSpecList, ParseEntry, i, parsed);
      var pathAndSpec := Split(Trim(pathAndSpecList[i]), ['|']);
      if |pathAndSpec| == 0 {
        ParseEachFailureExtends(pathAndSpecList, ParseEntry, i + 1);
        return Failure(IndexOutOfBounds(0));
      }
      var tunnelList := if pathAndSpec[0] in tunnelMap then tunnelMap[pathAndSpec[0]] else [];
      if |pathAndSpec| == 1 {
        ParseEachFailureExtends(pathAndSpecList, ParseEntry, i + 1);
        return Failure(IndexOutOfBounds(1));
      }
      var tunnel := ParseSpec(pathAndSpec[1]);
      if tunnel.Failure? {
        ParseEachFailureExtends(pathAndSpecList, ParseEntry, i + 1);
        return Failure(tunnel.error);
      }
      ghost var entry := (pathAndSpec[0], tunnel.value);
      GroupStep(parsed, SpecKey, entry);
      tunnelMap := tunnelMap[pathAndSpec[0] := SetAdd(tunnelList, SpecKey, tunnel.value)];
      parsed := parsed + [entry];
      i := i + 1;
    }
    TakeAll(pathAndSpecList);
    return Success(tunnelMap);
  }

  /** The connection built for one path of the map: the settings of its
      hops and its tunnels. */
  function ConnectionFor(base: SessionSettings, groups: map<string, seq<Endpoints>>, path: string): (r: Result<TunnelConnection, TunnelError>)
    requires path in groups
    ensures r.Success? <==> SessionFactoryFor(base, path).Success?
    ensures r.Success? ==> r.value.sessionFactory == SessionFactoryFor(base, path).value && r.value.tunnels == groups[path]
  {
    var sessionFactory :- SessionFactoryFor(base, path);
    Success(TunnelConnection(sessionFactory, groups[path]))
  }

  /** `conns` holds the connections of the distinct `paths` of the map,
      one each, in the same order. */
  predicate BuiltFor(base: SessionSettings, groups: map<string, seq<Endpoints>>, paths: seq<string>, conns: seq<TunnelConnection>) {
    && |conns| == |paths|
    && (forall i, j :: 0 <= i < j < |paths| ==> paths[i] != paths[j])
    && forall i :: 0 <= i < |paths| ==> paths[i] in groups && ConnectionFor(base, groups, paths[i]) == Success(conns[i])
  }

  /** One more path connected. */
  lemma BuiltForPush(base: SessionSettings, groups: map<string, seq<Endpoints>>, paths: seq<string>, conns: seq<TunnelConnection>,
                     path: string, c: TunnelConnection)
    requires BuiltFor(base, groups, paths, conns) && path in groups && path !in paths
    requires SessionFactoryFor(base, path).Success? && c == TunnelConnection(SessionFactoryFor(base, path).value, groups[path])
    ensures BuiltFor(base, groups, paths + [path], conns + [c])
  {
    SnocTake(paths, path);
    SnocTake(conns, c);
  }

  /** Every connected path's hops could be built. */
  lemma BuiltForConnected(base: SessionSettings, groups: map<string, seq<Endpoints>>, paths: seq<string>, conns: seq<TunnelConnection>)
    requires BuiltFor(base, groups, paths, conns)
    ensures forall path :: path in paths ==> SessionFactoryFor(base, path).Success?
  {
    forall path | path in paths ensures SessionFactoryFor(base, path).Success? {
      var i :| 0 <= i < |paths| && paths[i] == path;
    }
  }

  class SessionFactoryCache {
    const defaultSessionFactory: SessionSettings
    /** Looked up by `getSessionFactory` but never written to. */
    var sessionFactoryByPath: map<string, SessionSettings>

    constructor (baseSessionFactory: SessionSettings)
      ensures defaultSessionFactory == baseSessionFactory && sessionFactoryByPath == map[]
    {
      defaultSessionFactory := baseSessionFactory;
      sessionFactoryByPath := map[];
    }

    /** `getSessionFactory(path)`: the path split on "->", then hop by hop
        either the cached factory of the path so far or one built on the
        previous hop's. */
    method GetSessionFactory(path: string) returns (r: Result<Option<SessionSettings>, TunnelError>)
      ensures r == Walk(sessionFactoryByPath, defaultSessionFactory, Split(path, "->"))
    {
      var parts := Split(path, "->");
      var sessionFactory: Option<SessionSettings> := None;
      var key: Option<string> := None;
      var i := 0;
      while i < |parts|
        invariant 0 <= i <= |parts|
        invariant Walk(sessionFactoryByPath, defaultSessionFactory, parts[..i]) == Success(sessionFactory)
        invariant key == if i == 0 then None else Some(Join(parts[..i], "->"))
      {
        var part := parts[i];
        JoinNext(parts, i, "->");
        WalkStep(sessionFactoryByPath, defaultSessionFactory, parts, i, sessionFactory);
        key := if key.None? then Some(part) else Some(key.value + "->" + part);
        if key.value in sessionFactoryByPath {
          sessionFactory := Some(sessionFactoryByPath[key.value]);
          i := i + 1;
          continue;
        }
        var built := BuildHop(sessionFactory, defaultSessionFactory, part);
        if built.Failure? {
          WalkFailureExtends(sessionFactoryByPath, defaultSessionFactory, parts, i + 1);
          return Failure(built.error);
        }
        sessionFactory := Some(built.value);
        i := i + 1;
      }
      TakeAll(parts);
      return Success(sessionFactory);
    }
  }

  class TunnelConnectionManager {
    const baseSessionFactory: SessionSettings
    /** Null until `setTunnelConnections` runs. */
    var tunnelConnections: Option<seq<TunnelConnection>>
    /** The path each connection was built for, in the same order. */
    ghost var connectionPaths: seq<string>

    /** The one-argument constructor: no connections yet. */
    constructor (baseSessionFactory: SessionSettings)
      ensures this.baseSessionFactory == baseSessionFactory && tunnelConnections.None?
    {
      this.baseSessionFactory := baseSessionFactory;
      tunnelConnections := None;
      connectionPaths := [];
    }

    /** The state `setTunnelConnections` leaves for the grouped tunnels
        and its outcome: the list is set and holds, one per path, each
        path's connection, in the order the paths were taken from the map.
        It passes exactly when every path's hops can be built, and then
        every path has its connection; otherwise it fails with the error of
        a path not yet connected. */
    ghost predicate ConnectedTo(groups: map<string, seq<Endpoints>>, r: Outcome<TunnelError>)
      reads this
    {
      && tunnelConnections.Some?
      && BuiltFor(baseSessionFactory, groups, connectionPaths, tunnelConnections.value)
      && (r.Pass? <==> forall path :: path in groups ==> SessionFactoryFor(baseSessionFactory, path).Success?)
      && (r.Pass? ==> forall path :: path in connectionPaths <==> path in groups)
      && (r.Fail? ==> exists path :: path in groups && path !in connectionPaths
                                     && SessionFactoryFor(baseSessionFactory, path) == Failure(r.error))
    }

    /** `setTunnelConnections`: groups the entries' tunnels by path, then
        builds one connection per distinct path. An entry that throws
        leaves the connections as they were. */
    method SetTunnelConnections(pathAndSpecList: seq<string>) returns (r: Outcome<TunnelError>)
      modifies this
      ensures ParseEntries(pathAndSpecList).Failure? ==>
                && r == Fail(ParseEntries(pathAndSpecList).error)
                && tunnelConnections == old(tunnelConnections)
      ensures ParseEntries(pathAndSpecList).Success? ==> ConnectedTo(Group(ParseEntries(pathAndSpecList).value), r)
    {
      var grouped := GroupTunnels(pathAndSpecList);
      if grouped.Failure? {
        return Fail(grouped.error);
      }
      r := BuildConnections(grouped.value);
    }

    /** The second loop of `setTunnelConnections`: the list is replaced
        by an empty one before the loop, then each path of the map, in the
        map's key order (left open here), gets the settings of its hops and
        its tunnels. A path whose hops throw ends the loop, leaving the
        connections built so far. */
    method BuildConnections(tunnelMap: map<string, seq<Endpoints>>) returns (r: Outcome<TunnelError>)
      modifies this
      ensures ConnectedTo(tunnelMap, r)
    {
      tunnelConnections := Some([]);
      connectionPaths := [];
      var sessionFactoryCache := new SessionFactoryCache(baseSessionFactory);
      var remaining := tunnelMap.Keys;
      while remaining != {}
        invariant remaining <= tunnelMap.Keys
        invariant tunnelConnections.Some?
        invariant BuiltFor(baseSessionFactory, tunnelMap, connectionPaths, tunnelConnections.value)
        invariant forall path :: path in connectionPaths <==> path in tunnelMap && path !in remaining
        invariant sessionFactoryCache.sessionFactoryByPath == map[]
        invariant sessionFactoryCache.defaultSessionFactory == baseSessionFactory
        decreases |remaining|
      {
        var path :| path in remaining;
        var sessionFactory := sessionFactoryCache.GetSessionFactory(path);
        if sessionFactory.Failure? {
          return Fail(sessionFactory.error);
        }
        var connection := TunnelConnection(sessionFactory.value, tunnelMap[path]);
        BuiltForPush(baseSessionFactory, tunnelMap, connectionPaths, tunnelConnections.value, path, connection);
        tunnelConnections := Some(tunnelConnections.value + [connection]);
        connectionPaths := connectionPaths + [path];
        remaining := remaining - {path};
      }
      BuiltForConnected(baseSessionFactory, tunnelMap, connectionPaths, tunnelConnections.value);
      return Pass;
    }

    /** `getTunnel(hostname, port)`: the first connection, in list order,
        that has a tunnel to that destination gives it; none gives null.
        Before any connections are set the list is null. */
    method GetTunnel(destinationHostname: string, destinationPort: int) returns (r: Result<Option<Endpoints>, TunnelError>)
      ensures tunnelConnections.None? ==> r == Failure(NullReference)
      ensures tunnelConnections.Some? ==> r.Success?
      ensures tunnelConnections.Some? && r.value.None? ==>
                forall i :: 0 <= i < |tunnelConnections.value| ==>
                  ConnectionTunnel(tunnelConnections.value[i], destinationHostname, destinationPort).None?
      ensures tunnelConnections.Some? && r.value.Some? ==>
                exists i :: 0 <= i < |tunnelConnections.value|
                  && ConnectionTunnel(tunnelConnections.value[i], destinationHostname, destinationPort) == r.value
                  && forall j :: 0 <= j < i ==>
                       ConnectionTunnel(tunnelConnections.value[j], destinationHostname, destinationPort).None?
    {
      if tunnelConnections.None? {
        return Failure(NullReference);
      }
      var connections := tunnelConnections.value;
      var i := 0;
      while i < |connections|
        invariant 0 <= i <= |connections|
        invariant forall j :: 0 <= j < i ==> ConnectionTunnel(connections[j], destinationHostname, destinationPort).None?
      {
        var tunnel := ConnectionTunnel(connections[i], destinationHostname, destinationPort);
        if tunnel.Some? {
          return Success(tunnel);
        }
        i := i + 1;
      }
      return Success(None);
    }
  }
}
