/** A step that may fail, run a given number of times and stopped by the
    first failure, which is kept: the shape of a Java loop that pops and
    completes the entries of a stack inside one `try`. These facts hold
    whatever the step does. */
module Unwinding {
  import opened Wrappers

  /** Run `step` up to `n` times; the first failure stops the run. */
  function RunAll<S, E>(step: S -> (Outcome<E>, S), s: S, n: nat): (Outcome<E>, S)
    decreases n
  {
    if n == 0 then (Pass, s)
    else
      var (o, s1) := step(s);
      if o.Fail? then (o, s1) else RunAll(step, s1, n - 1)
  }

  /** How many steps `RunAll` takes. */
  function Steps<S, E>(step: S -> (Outcome<E>, S), s: S, n: nat): (k: nat)
    ensures k <= n
    decreases n
  {
    if n == 0 then 0
    else if step(s).0.Fail? then 1
    else 1 + Steps(step, step(s).1, n - 1)
  }

  /** The state after `n` steps, whatever their outcomes. */
  function Unwind<S, E>(step: S -> (Outcome<E>, S), s: S, n: nat): S
    decreases n
  {
    if n == 0 then s else Unwind(step, step(s).1, n - 1)
  }

  /** The first `n` steps all pass. */
  predicate CompletesAll<S, E>(step: S -> (Outcome<E>, S), s: S, n: nat)
    decreases n
  {
    n == 0 || (step(s).0.Pass? && CompletesAll(step, step(s).1, n - 1))
  }

  /** A run of `k` steps ends in the state `k` steps reach; every step but
      the last passed; a failure is the last step's; the run passes
      exactly when all `n` steps pass. */
  lemma {:induction false} RunAllFirstFailure<S, E>(step: S -> (Outcome<E>, S), s: S, n: nat)
    ensures var r := RunAll(step, s, n);
            var k := Steps(step, s, n);
            && r.1 == Unwind(step, s, k)
            && (r.0.Pass? <==> k == n && CompletesAll(step, s, n))
            && (r.0.Fail? ==> 0 < k && CompletesAll(step, s, k - 1) && r.0 == step(Unwind(step, s, k - 1)).0)
    decreases n
  {
    if n > 0 && step(s).0.Pass? {
      RunAllFirstFailure(step, step(s).1, n - 1);
    }
  }
}
