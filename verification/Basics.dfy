/** Values shared by the components: options, addresses, the clock unit, and runs.

A component is modelled as a state changed by operations. A `Run` lists the
operations performed so far, the latest outermost, each with the clock reading
it was given. Times are integers in nanoseconds.
*/
module Basics {

  datatype Option<+T> = None | Some(value: T)

  datatype IpAddr = IpAddr(bits: nat)

  const SECOND: int := 1_000_000_000

  /** Time from `earlier` to `now`, zero when `earlier` lies in the future. */
  function Elapsed(now: int, earlier: int): int {
    if now < earlier then 0 else now - earlier
  }

  datatype Run<Op> =
    | Start(at: int)
    | Then(before: Run<Op>, now: int, op: Op)

  function Clock<Op>(run: Run<Op>): int {
    match run
    case Start(at) => at
    case Then(_, now, _) => now
  }

  /** The clock never goes back. */
  predicate Monotone<Op>(run: Run<Op>) {
    match run
    case Start(_) => true
    case Then(before, now, _) => Clock(before) <= now && Monotone(before)
  }

  /** `later` continues `run`. */
  predicate Continues<Op(==)>(later: Run<Op>, run: Run<Op>) {
    later == run || (later.Then? && Continues(later.before, run))
  }

  lemma {:induction false} ContinuesClock<Op>(later: Run<Op>, run: Run<Op>)
    requires Monotone(later) && Continues(later, run)
    ensures Monotone(run) && Clock(run) <= Clock(later)
  {
    if later != run {
      ContinuesClock(later.before, run);
    }
  }

  lemma SubsetSize<T>(small: set<T>, big: set<T>)
    requires small <= big
    ensures |small| <= |big|
  {
    assert big == small + (big - small);
  }

  lemma UnionSize<T>(a: set<T>, b: set<T>, union: set<T>)
    requires forall x :: x in a ==> x !in b
    requires forall x :: x in union <==> x in a || x in b
    ensures |union| == |a| + |b|
  {
    assert union == a + b;
    assert a !! b;
  }
}
