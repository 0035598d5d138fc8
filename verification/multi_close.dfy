/** `MultiCloseException`: an `IOException` that gathers the exceptions of
    several `close` calls, and the close-everything loop of the file system
    provider that throws it only when some `close` failed. */
module MultiClose {
  import opened Wrappers
  import opened Seqs

  /** The errors among the outcomes, in order. */
  function Failures<E>(outcomes: seq<Outcome<E>>): (r: seq<E>)
    ensures |r| <= |outcomes|
  {
    if |outcomes| == 0 then []
    else
      var last := outcomes[|outcomes| - 1];
      Failures(outcomes[..|outcomes| - 1]) + (if last.Fail? then [last.error] else [])
  }

  /** No error gathered exactly when every call passed. */
  lemma {:induction false} FailuresEmptyIff<E>(outcomes: seq<Outcome<E>>)
    ensures Failures(outcomes) == [] <==> forall i :: 0 <= i < |outcomes| ==> outcomes[i].Pass?
    decreases |outcomes|
  {
    if |outcomes| > 0 {
      var n := |outcomes| - 1;
      FailuresEmptyIff(outcomes[..n]);
      assert forall i :: 0 <= i < n ==> outcomes[..n][i] == outcomes[i];
    }
  }

  /** The indices of the failing calls among the first n. */
  function FailingBefore<E>(outcomes: seq<Outcome<E>>, n: nat): set<nat>
    requires n <= |outcomes|
  {
    set i: nat | i < n && outcomes[i].Fail?
  }

  lemma FailingBeforeNext<E>(outcomes: seq<Outcome<E>>, n: nat)
    requires n < |outcomes|
    ensures |FailingBefore(outcomes, n + 1)| == |FailingBefore(outcomes, n)| + (if outcomes[n].Fail? then 1 else 0)
  {
    var before := FailingBefore(outcomes, n);
    assert n !in before;
    if outcomes[n].Fail? {
      assert FailingBefore(outcomes, n + 1) == before + {n};
    } else {
      assert FailingBefore(outcomes, n + 1) == before;
    }
  }

  lemma FailingBeforeTake<E>(outcomes: seq<Outcome<E>>, n: nat)
    requires n <= |outcomes|
    ensures FailingBefore(outcomes[..n], n) == FailingBefore(outcomes, n)
  {
    assert forall i :: 0 <= i < n ==> outcomes[..n][i] == outcomes[i];
  }

  /** Each failing call gives exactly one error. */
  lemma {:induction false} FailuresCount<E>(outcomes: seq<Outcome<E>>)
    ensures |Failures(outcomes)| == |FailingBefore(outcomes, |outcomes|)|
    decreases |outcomes|
  {
    if |outcomes| > 0 {
      var n := |outcomes| - 1;
      var init := outcomes[..n];
      FailuresCount(init);
      FailingBeforeTake(outcomes, n);
      FailingBeforeNext(outcomes, n);
      AppendLast([], outcomes);
      FailuresSnoc(init, outcomes[n]);
    }
  }

  /** Each error gathered is that of a failing call, and each failing
      call's error is gathered. */
  lemma {:induction false} FailuresMembers<E>(outcomes: seq<Outcome<E>>)
    ensures forall e :: e in Failures(outcomes) <==> Fail(e) in outcomes
    decreases |outcomes|
  {
    if |outcomes| > 0 {
      var n := |outcomes| - 1;
      var init := outcomes[..n];
      FailuresMembers(init);
      assert outcomes == init + [outcomes[n]];
    }
  }

  /** One more call: its error, if any, goes last. */
  lemma FailuresSnoc<E>(outcomes: seq<Outcome<E>>, o: Outcome<E>)
    ensures Failures(outcomes + [o]) == Failures(outcomes) + (if o.Fail? then [o.error] else [])
  {
    SnocTake(outcomes, o);
  }

  /** Gathering over two runs of calls is gathering over each in turn. */
  lemma {:induction false} FailuresAppend<E>(a: seq<Outcome<E>>, b: seq<Outcome<E>>)
    ensures Failures(a + b) == Failures(a) + Failures(b)
    decreases |b|
  {
    if |b| == 0 {
      assert a + b == a;
    } else {
      var n := |b| - 1;
      FailuresAppend(a, b[..n]);
      AppendLast(a, b);
      FailuresSnoc(a + b[..n], b[n]);
      FailuresSnoc(b[..n], b[n]);
      AppendThree(Failures(a), Failures(b[..n]), if b[n].Fail? then [b[n].error] else []);
    }
  }

  class MultiCloseException<E> {
    /** Null until the first cause is added. */
    var causes: Option<seq<E>>

    /** The causes added so far, the empty list while there is none. */
    ghost function Causes(): seq<E>
      reads this
    {
      if causes.None? then [] else causes.value
    }

    /** The list exists only once a cause has been added to it. */
    ghost predicate Valid()
      reads this
    {
      causes.Some? ==> |causes.value| > 0
    }

    constructor ()
      ensures causes.None? && Valid()
    {
      causes := None;
    }

    /** `add(e)`: the list is created on first use; `e` goes at its end
        and every earlier cause stays where it was. */
    method Add(e: E)
      modifies this
      requires Valid()
      ensures Valid() && causes.Some?
      ensures Causes() == old(Causes()) + [e]
      ensures |Causes()| == |old(Causes())| + 1
    {
      if causes.None? {
        causes := Some([]);
      }
      causes := Some(causes.value + [e]);
    }

    /** `getCauses()`: null before any `add`, afterwards every cause added,
        in the order added. */
    function GetCauses(): (r: Option<seq<E>>)
      reads this
      ensures Valid() ==> (r.None? <==> Causes() == [])
      ensures r.Some? ==> r.value == Causes()
    {
      causes
    }
  }

  /** `UnixSshFileSystemProvider.close`: every file system is closed in
      turn, `outcomes[i]` standing for what the i-th `close` did; each
      exception is added to one `MultiCloseException`, created at the first
      failure, and that exception is thrown (returned here) only when it
      exists. */
  method CloseAll<E>(outcomes: seq<Outcome<E>>) returns (toThrow: MultiCloseException?<E>)
    ensures toThrow == null <==> forall i :: 0 <= i < |outcomes| ==> outcomes[i].Pass?
    ensures toThrow != null ==> fresh(toThrow) && toThrow.Valid() && toThrow.GetCauses() == Some(Failures(outcomes))
  {
    toThrow := null;
    var i := 0;
    while i < |outcomes|
      invariant 0 <= i <= |outcomes|
      invariant toThrow == null <==> Failures(outcomes[..i]) == []
      invariant toThrow != null ==> fresh(toThrow) && toThrow.Valid() && toThrow.Causes() == Failures(outcomes[..i])
    {
      assert outcomes[..i + 1][..i] == outcomes[..i];
      if outcomes[i].Fail? {
        if toThrow == null {
          toThrow := new MultiCloseException();
        }
        toThrow.Add(outcomes[i].error);
      }
      i := i + 1;
    }
    assert outcomes[..i] == outcomes;
    FailuresEmptyIff(outcomes);
  }
}
