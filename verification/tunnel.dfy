/** `Tunnel`: one local port forward. It is written as a spec string
    `[alias:][localPort:]host:port`, rendered back by `toString`, and two
    tunnels are equal when their lower-cased spec strings are. */
module Tunnels {
  import opened Wrappers
  import opened JavaText
  import opened Seqs

  /** What the tunnel code throws: `NumberFormatException` from
      `Integer.parseInt` (with the text it refused),
      `ArrayIndexOutOfBoundsException` from an index past the parts of a
      split, and `NullPointerException`. */
  datatype TunnelError = NumberFormat(input: string) | IndexOutOfBounds(index: int) | NullReference

  /** The four configured values of a tunnel; a missing local alias is
      Java's `null`. */
  datatype Endpoints = Endpoints(localAlias: Option<string>, localPort: int, destinationHostname: string, destinationPort: int)
  {
    /** Both ports fit Java's `int`. */
    predicate Valid() {
      INT_MIN <= localPort <= INT_MAX && INT_MIN <= destinationPort <= INT_MAX
    }

    /** No ':' inside the alias or the host, so the rendering splits back
        into its fields. */
    predicate Separable() {
      (localAlias.Some? ==> ':' !in localAlias.value) && ':' !in destinationHostname
    }

    /** The alias and the host lower-cased: what equality looks at. */
    function Lowered(): (r: Endpoints)
      ensures r.localPort == localPort && r.destinationPort == destinationPort
      ensures r.localAlias.Some? <==> localAlias.Some?
    {
      Endpoints(if localAlias.None? then None else Some(ToLower(localAlias.value)),
                localPort, ToLower(destinationHostname), destinationPort)
    }
  }

  /** `Integer.parseInt` as the constructor uses it: a refused text
      throws `NumberFormatException`. */
  function ParsePort(s: string): (r: Result<int, TunnelError>)
    ensures r.Success? <==> ParseInt(s).Some?
    ensures r.Success? ==> r.value == ParseInt(s).value && INT_MIN <= r.value <= INT_MAX
    ensures r.Failure? ==> r.error == NumberFormat(s)
  {
    var p := ParseInt(s);
    if p.None? then Failure(NumberFormat(s)) else Success(p.value)
  }

  /** The spec-string constructor: the spec is split on ':'. Four parts
      are alias, local port, host and port; three leave the alias null;
      any other count is host and port on local port 0, so that fewer than
      two parts index past the array. The ports are parsed left to
      right. */
  function ParseSpec(spec: string): (r: Result<Endpoints, TunnelError>)
    ensures r.Success? ==> r.value.Valid()
    ensures var parts := Split(spec, [':']);
            && (|parts| <= 1 ==> r == Failure(IndexOutOfBounds(|parts|)))
            && (|parts| == 4 ==> (r.Success? <==> ParseInt(parts[1]).Some? && ParseInt(parts[3]).Some?))
            && (|parts| == 4 && r.Success? ==>
                  && r.value.localAlias == Some(parts[0]) && Some(r.value.localPort) == ParseInt(parts[1])
                  && r.value.destinationHostname == parts[2] && Some(r.value.destinationPort) == ParseInt(parts[3]))
            && (|parts| == 3 ==> (r.Success? <==> ParseInt(parts[0]).Some? && ParseInt(parts[2]).Some?))
            && (|parts| == 3 && r.Success? ==>
                  && r.value.localAlias.None? && Some(r.value.localPort) == ParseInt(parts[0])
                  && r.value.destinationHostname == parts[1] && Some(r.value.destinationPort) == ParseInt(parts[2]))
            && (|parts| == 2 || |parts| >= 5 ==> (r.Success? <==> ParseInt(parts[1]).Some?))
            && (|parts| == 2 || |parts| >= 5 ==> r.Success? ==>
                  && r.value.localAlias.None? && r.value.localPort == 0
                  && r.value.destinationHostname == parts[0] && Some(r.value.destinationPort) == ParseInt(parts[1]))
  {
    var parts := Split(spec, [':']);
    if |parts| == 4 then
      var localPort :- ParsePort(parts[1]);
      var destinationPort :- ParsePort(parts[3]);
      Success(Endpoints(Some(parts[0]), localPort, parts[2], destinationPort))
    else if |parts| == 3 then
      var localPort :- ParsePort(parts[0]);
      var destinationPort :- ParsePort(parts[2]);
      Success(Endpoints(None, localPort, parts[1], destinationPort))
    else if |parts| <= 1 then
      Failure(IndexOutOfBounds(|parts|))
    else
      var destinationPort :- ParsePort(parts[1]);
      Success(Endpoints(None, 0, parts[0], destinationPort))
  }

  /** The local-port field of the rendering: the configured port, or
      `(0)` and the assigned port once one is set. */
  function LocalPortText(localPort: int, assignedLocalPort: int): string
  {
    if assignedLocalPort == 0 then IntToString(localPort) else "(0)" + IntToString(assignedLocalPort)
  }

  /** The fields the rendering joins with ':'. */
  function Fields(e: Endpoints, assignedLocalPort: int): (r: seq<string>)
    ensures |r| == if e.localAlias.Some? then 4 else 3
  {
    (if e.localAlias.None? then [] else [e.localAlias.value])
      + [LocalPortText(e.localPort, assignedLocalPort), e.destinationHostname, IntToString(e.destinationPort)]
  }

  /** `toString`: the optional alias and ':', the local port text, then
      ':', the host, ':' and the port. That is the fields joined by ':'. */
  function Render(e: Endpoints, assignedLocalPort: int): string
  {
    (if e.localAlias.None? then "" else e.localAlias.value + ":")
      + LocalPortText(e.localPort, assignedLocalPort)
      + ":" + e.destinationHostname + ":" + IntToString(e.destinationPort)
  }

  /** The rendering is the fields joined by ':'. */
  lemma RenderJoinsFields(e: Endpoints, assignedLocalPort: int)
    ensures Render(e, assignedLocalPort) == Join(Fields(e, assignedLocalPort), [':'])
  {
    var local := LocalPortText(e.localPort, assignedLocalPort);
    var tail := IntToString(e.destinationPort);
    var host := e.destinationHostname;
    JoinThree(local, host, tail);
    if e.localAlias.None? {
      assert Fields(e, assignedLocalPort) == [local, host, tail];
      assert "" + local == local;
    } else {
      var alias := e.localAlias.value;
      JoinCons(alias, [local, host, tail], [':']);
      assert [alias] + [local, host, tail] == [alias, local, host, tail];
      AppendFour(alias + ":", local + ":" + host, ":", tail);
    }
  }

  lemma JoinThree(a: string, b: string, c: string)
    ensures Join([a, b, c], [':']) == a + ":" + b + ":" + c
  {
    JoinCons(a, [b, c], [':']);
    JoinCons(b, [c], [':']);
    assert [a] + [b, c] == [a, b, c];
    assert [b] + [c] == [b, c];
  }

  /** `getSpec` of a tunnel never given an assigned port: its rendering,
      lower-cased. Equality and the hash code are defined on it. */
  function SpecKey(e: Endpoints): string
  {
    ToLower(Render(e, 0))
  }

  // ---------------------------------------------------------------------
  // Properties of the spec string

  /** An unassigned tunnel whose alias and host hold no ':' renders to a
      spec that parses back into the same four values: four parts with an
      alias, three without. */
  lemma SpecRoundTrip(e: Endpoints)
    requires e.Valid() && e.Separable()
    ensures ParseSpec(Render(e, 0)) == Success(e)
  {
    var fields := Fields(e, 0);
    IntToStringHasNoSeparator(e.localPort, ':');
    IntToStringHasNoSeparator(e.destinationPort, ':');
    assert forall i :: 0 <= i < |fields| ==> ':' !in fields[i];
    RenderJoinsFields(e, 0);
    SplitOfJoin(fields, ':');
    ParseIntegerRoundTrip(e.localPort, INT_MIN, INT_MAX);
    ParseIntegerRoundTrip(e.destinationPort, INT_MIN, INT_MAX);
  }

  /** Once a port is assigned the rendering is no longer a spec: its
      local-port field `(0)…` is refused by `Integer.parseInt`. */
  lemma AssignedRenderDoesNotParse(e: Endpoints, assignedLocalPort: int)
    requires e.Valid() && e.Separable() && assignedLocalPort != 0
    ensures ParseSpec(Render(e, assignedLocalPort)) == Failure(NumberFormat(LocalPortText(e.localPort, assignedLocalPort)))
  {
    var fields := Fields(e, assignedLocalPort);
    var local := LocalPortText(e.localPort, assignedLocalPort);
    IntToStringHasNoSeparator(assignedLocalPort, ':');
    IntToStringHasNoSeparator(e.destinationPort, ':');
    assert ':' !in local by {
      assert local == "(0)" + IntToString(assignedLocalPort);
    }
    assert forall i :: 0 <= i < |fields| ==> ':' !in fields[i];
    RenderJoinsFields(e, assignedLocalPort);
    SplitOfJoin(fields, ':');
    assert local[0] == '(';
    assert ParseInt(local).None?;
  }

  /** The first example in the constructor's documentation: no local
      port means port 0. */
  lemma DocumentedTwoPartSpec(spec: string)
    requires spec == "foobar:1234"
    ensures ParseSpec(spec) == Success(Endpoints(None, 0, "foobar", 1234))
  {
    var host, port := "foobar", 1234;
    RenderDigits(port);
    ParseTwoParts(host, port);
    assert spec == host + ":" + IntToString(port);
  }

  /** The second example: a local port and no alias. */
  lemma DocumentedThreePartSpec(spec: string)
    requires spec == "1234:foobar:1234"
    ensures ParseSpec(spec) == Success(Endpoints(None, 1234, "foobar", 1234))
  {
    var e := Endpoints(None, 1234, "foobar", 1234);
    ThreePartText(spec, e);
    ParsesAs(spec, e);
  }

  lemma ThreePartText(spec: string, e: Endpoints)
    requires spec == "1234:foobar:1234" && e == Endpoints(None, 1234, "foobar", 1234)
    ensures spec == Render(e, 0)
  {
    RenderDigits(1234);
    RenderUnassigned(e, "1234", "1234");
  }

  /** The third example: alias and local port. */
  lemma DocumentedFourPartSpec(spec: string)
    requires spec == "local_foobar:1234:foobar:1234"
    ensures ParseSpec(spec) == Success(Endpoints(Some("local_foobar"), 1234, "foobar", 1234))
  {
    var e := Endpoints(Some("local_foobar"), 1234, "foobar", 1234);
    FourPartText(spec, e);
    ParsesAs(spec, e);
  }

  lemma FourPartText(spec: string, e: Endpoints)
    requires spec == "local_foobar:1234:foobar:1234" && e == Endpoints(Some("local_foobar"), 1234, "foobar", 1234)
    ensures spec == Render(e, 0)
  {
    RenderDigits(1234);
    RenderUnassigned(e, "1234", "1234");
    var rest := "1234:foobar:1234";
    assert rest == "1234" + ":" + "foobar" + ":" + "1234";
    assert spec == "local_foobar" + ":" + rest;
    AppendFour("local_foobar" + ":", "1234" + ":" + "foobar", ":", "1234");
  }

  lemma ParsesAs(spec: string, e: Endpoints)
    requires e.Valid() && e.Separable() && spec == Render(e, 0)
    ensures ParseSpec(spec) == Success(e)
  {
    SpecRoundTrip(e);
  }

  /** `host:port` parses into that host and port on local port 0. */
  lemma ParseTwoParts(host: string, port: int)
    requires ':' !in host && INT_MIN <= port <= INT_MAX
    ensures ParseSpec(host + ":" + IntToString(port)) == Success(Endpoints(None, 0, host, port))
  {
    var parts := [host, IntToString(port)];
    IntToStringHasNoSeparator(port, ':');
    JoinCons(host, [IntToString(port)], [':']);
    assert [host] + [IntToString(port)] == parts;
    SplitOfJoin(parts, ':');
    ParseIntegerRoundTrip(port, INT_MIN, INT_MAX);
  }

  lemma RenderUnassigned(e: Endpoints, local: string, tail: string)
    requires IntToString(e.localPort) == local && IntToString(e.destinationPort) == tail
    ensures e.localAlias.None? ==> Render(e, 0) == local + ":" + e.destinationHostname + ":" + tail
    ensures e.localAlias.Some? ==> Render(e, 0) == e.localAlias.value + ":" + local + ":" + e.destinationHostname + ":" + tail
  {
    if e.localAlias.None? {
      assert "" + local == local;
    }
  }

  lemma RenderDigits(n: int)
    requires n == 1234
    ensures IntToString(n) == "1234"
  {
    assert NatToString(1) == "1";
    assert NatToString(12) == "12";
    assert NatToString(123) == "123";
  }

  /** Lower-casing the rendering lower-cases the alias and the host and
      leaves the rest alone. */
  lemma ToLowerRender(e: Endpoints)
    ensures SpecKey(e) == Render(e.Lowered(), 0)
  {
    var prefix := if e.localAlias.None? then "" else e.localAlias.value + ":";
    var local, host, tail := IntToString(e.localPort), e.destinationHostname, IntToString(e.destinationPort);
    assert Render(e, 0) == prefix + local + ":" + host + ":" + tail;
    ToLowerSix(prefix, local, ":", host, ":", tail);
    ToLowerOfNumber(e.localPort);
    ToLowerOfNumber(e.destinationPort);
    ToLowerColon();
    if e.localAlias.Some? {
      ToLowerConcat(e.localAlias.value, ":");
    } else {
      assert ToLower("") == "";
    }
  }

  lemma ToLowerSix(p: string, a: string, b: string, c: string, d: string, f: string)
    ensures ToLower(p + a + b + c + d + f) == ToLower(p) + ToLower(a) + ToLower(b) + ToLower(c) + ToLower(d) + ToLower(f)
  {
    ToLowerConcat(p + a + b + c + d, f);
    ToLowerConcat(p + a + b + c, d);
    ToLowerConcat(p + a + b, c);
    ToLowerConcat(p + a, b);
    ToLowerConcat(p, a);
  }

  lemma ToLowerColon()
    ensures ToLower(":") == ":"
  {
  }

  /** Lowering keeps ':' out of the alias and the host. */
  lemma LoweredSeparable(e: Endpoints)
    requires e.Separable()
    ensures e.Lowered().Separable()
  {
    assert forall d :: LowerChar(d) == ':' ==> d == ':';
    ToLowerKeepsOut(e.destinationHostname, ':');
    if e.localAlias.Some? {
      ToLowerKeepsOut(e.localAlias.value, ':');
    }
  }

  /** Two unassigned tunnels are equal exactly when they agree on both
      ports and on the alias and the host up to letter case. */
  lemma SpecKeyEqualIff(a: Endpoints, b: Endpoints)
    requires a.Valid() && a.Separable() && b.Valid() && b.Separable()
    ensures SpecKey(a) == SpecKey(b) <==> a.Lowered() == b.Lowered()
  {
    ToLowerRender(a);
    ToLowerRender(b);
    if SpecKey(a) == SpecKey(b) {
      LoweredSeparable(a);
      LoweredSeparable(b);
      SpecRoundTrip(a.Lowered());
      SpecRoundTrip(b.Lowered());
    }
  }

  /** Tunnels that differ only in letter case are equal and hash alike. */
  lemma CaseInsensitiveEquality(a: Endpoints, b: Endpoints)
    requires a.Lowered() == b.Lowered()
    ensures SpecKey(a) == SpecKey(b)
    ensures StringHashCode(SpecKey(a)) == StringHashCode(SpecKey(b))
  {
    ToLowerRender(a);
    ToLowerRender(b);
  }

  // ---------------------------------------------------------------------
  // The object

  class Tunnel {
    const localAlias: Option<string>
    const localPort: int
    const destinationHostname: string
    const destinationPort: int
    /** Set once the forward is bound; 0 while it is not. */
    var assignedLocalPort: int
    /** The cached `getSpec`; `None` until first asked for. */
    var spec: Option<string>

    function Configured(): Endpoints
    {
      Endpoints(localAlias, localPort, destinationHostname, destinationPort)
    }

    /** `Tunnel(localAlias, localPort, destinationHostname,
        destinationPort)`; the shorter constructors pass a null alias and,
        without a local port, port 0. */
    constructor (localAlias: Option<string>, localPort: int, destinationHostname: string, destinationPort: int)
      ensures Configured() == Endpoints(localAlias, localPort, destinationHostname, destinationPort)
      ensures assignedLocalPort == 0 && spec.None?
    {
      this.localAlias := localAlias;
      this.localPort := localPort;
      this.destinationHostname := destinationHostname;
      this.destinationPort := destinationPort;
      assignedLocalPort := 0;
      spec := None;
    }

    /** `Tunnel(spec)`: the constructor throws where `ParseSpec` fails. */
    static method FromSpec(spec: string) returns (r: Result<Tunnel, TunnelError>)
      ensures r.Failure? ==> ParseSpec(spec) == Failure(r.error)
      ensures r.Success? ==> ParseSpec(spec) == Success(r.value.Configured())
      ensures r.Success? ==> fresh(r.value) && r.value.assignedLocalPort == 0 && r.value.spec.None?
    {
      var e := ParseSpec(spec);
      if e.Failure? {
        return Failure(e.error);
      }
      var t := new Tunnel(e.value.localAlias, e.value.localPort, e.value.destinationHostname, e.value.destinationPort);
      return Success(t);
    }

    /** `getAssignedLocalPort`: the bound port once there is one, the
        configured port before. */
    function GetAssignedLocalPort(): (p: int)
      reads this
      ensures assignedLocalPort != 0 ==> p == assignedLocalPort
      ensures assignedLocalPort == 0 ==> p == localPort
    {
      if assignedLocalPort == 0 then localPort else assignedLocalPort
    }

    /** `toString` of the current state. */
    function ToString(): (s: string)
      reads this
      ensures s == Render(Configured(), assignedLocalPort)
    {
      Render(Configured(), assignedLocalPort)
    }

    /** What `getSpec` answers from this state: the cached value, or the
        lower-cased rendering when nothing is cached. */
    function CurrentSpec(): string
      reads this
    {
      if spec.Some? then spec.value else ToLower(ToString())
    }

    /** `getSpec`: computes the spec on first use and caches it. */
    method GetSpec() returns (s: string)
      modifies this
      ensures s == old(CurrentSpec())
      ensures old(spec).Some? ==> s == old(spec).value
      ensures old(spec).None? ==> s == ToLower(Render(Configured(), assignedLocalPort))
      ensures spec == Some(s) && assignedLocalPort == old(assignedLocalPort)
    {
      if spec.None? {
        spec := Some(ToLower(ToString()));
      }
      s := spec.value;
    }

    /** `setAssignedLocalPort`: records the bound port; a spec already
        cached stays as it was. */
    method SetAssignedLocalPort(port: int)
      modifies this
      ensures assignedLocalPort == port && spec == old(spec)
      ensures GetAssignedLocalPort() == if port == 0 then localPort else port
    {
      assignedLocalPort := port;
    }

    /** `equals`: a non-null tunnel with the same spec; both specs are
        cached on the way. */
    method Equals(other: Tunnel?) returns (b: bool)
      modifies this, other
      ensures other == null ==> !b && spec == old(spec)
      ensures other != null ==> (b <==> old(CurrentSpec()) == old(other.CurrentSpec()))
      ensures other != null ==> spec == Some(old(CurrentSpec())) && other.spec == Some(old(other.CurrentSpec()))
      ensures assignedLocalPort == old(assignedLocalPort)
      ensures other != null ==> other.assignedLocalPort == old(other.assignedLocalPort)
    {
      if other == null {
        return false;
      }
      var mine := GetSpec();
      var theirs := other.GetSpec();
      b := mine == theirs;
    }

    /** `hashCode`: `String.hashCode` of the spec, which it caches. */
    method HashCode() returns (h: int)
      modifies this
      ensures h == StringHashCode(old(CurrentSpec()))
      ensures spec == Some(old(CurrentSpec())) && assignedLocalPort == old(assignedLocalPort)
    {
      var s := GetSpec();
      h := StringHashCode(s);
    }
  }
}
