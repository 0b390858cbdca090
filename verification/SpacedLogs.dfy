/** Logs of event times, and what their spacing says about any time interval.

Two limiters in the system count events in windows that restart on demand; a
third keeps the recent times themselves. All three guarantees have the same
shape: entries far enough apart in the log are far enough apart in time, so an
interval cannot hold too many of them.
*/
module SpacedLogs {
  import opened Basics

  ghost predicate Ordered(log: seq<int>) {
    forall i, j :: 0 <= i <= j < |log| ==> log[i] <= log[j]
  }

  /** Entries at least `gap` positions apart are at least `width` apart in time. */
  ghost predicate Spaced(log: seq<int>, gap: int, width: int) {
    forall i, j :: 0 <= i < |log| && 0 <= j < |log| && i + gap <= j ==> log[i] + width <= log[j]
  }

  /** Positions of the entries in the half-open interval [lo, lo + width). */
  ghost function Within(log: seq<int>, lo: int, width: int): set<int> {
    set i | 0 <= i < |log| && lo <= log[i] < lo + width
  }

  /** The integers lo, lo + 1, ..., lo + n - 1. */
  ghost function Range(lo: int, n: nat): (range: set<int>)
    ensures |range| == n
    ensures forall i :: i in range <==> lo <= i < lo + n
  {
    if n == 0 then {} else Range(lo, n - 1) + {lo + n - 1}
  }

  /** No interval of length `width` holds more than `gap` entries. */
  lemma SpacedCount(log: seq<int>, gap: nat, width: int, lo: int)
    requires Spaced(log, gap, width)
    ensures |Within(log, lo, width)| <= gap
  {
    var inside := Within(log, lo, width);
    var least := 0;
    while least < |log| && least !in inside
      invariant 0 <= least <= |log|
      invariant forall i :: 0 <= i < least ==> i !in inside
    {
      least := least + 1;
    }
    SubsetSize(inside, Range(least, gap));
  }

  /** A counting window: `count` entries logged since it opened at `start`. */
  datatype Window = Window(count: nat, start: int)

  /** Position of the first entry of the window that ends the log. */
  function Opening(log: seq<int>, w: Window): int {
    |log| - w.count
  }

  /** The log ends with exactly the entries counted by `w`, the window opened at
  its first entry, and everything at least `cap` entries older is at least
  `width` older than the opening. */
  ghost predicate Tracks(log: seq<int>, w: Window, cap: nat, width: int) {
    && 1 <= w.count <= cap
    && w.count <= |log|
    && log[Opening(log, w)] == w.start
    && Settled(log, Opening(log, w), cap, width, w.start)
  }

  /** Entries `cap` or more before position `upto` are `width` older than `now`. */
  ghost predicate Settled(log: seq<int>, upto: int, cap: nat, width: int, now: int) {
    forall i :: 0 <= i < |log| && i <= upto - cap ==> log[i] + width <= now
  }

  /** A window that has run its width leaves only settled entries behind. */
  lemma WindowRunsOut(log: seq<int>, w: Window, cap: nat, width: int, now: int)
    requires Ordered(log) && Tracks(log, w, cap, width)
    requires w.start + width <= now
    ensures Settled(log, |log|, cap, width, now)
  {
    forall i | 0 <= i < |log| && i <= |log| - cap
      ensures log[i] + width <= now
    {
      assert log[i] <= log[Opening(log, w)];
    }
  }

  /** Opening a window with a new entry keeps the log spaced. */
  lemma OpenWindow(log: seq<int>, cap: nat, width: int, now: int)
    requires Ordered(log) && Spaced(log, 2 * cap - 1, width) && cap >= 1
    requires |log| > 0 ==> log[|log| - 1] <= now
    requires Settled(log, |log|, cap, width, now)
    ensures Ordered(log + [now]) && Spaced(log + [now], 2 * cap - 1, width)
    ensures Tracks(log + [now], Window(1, now), cap, width)
  {
  }

  /** Counting one more entry in a window that is not full keeps the log spaced. */
  lemma ExtendWindow(log: seq<int>, w: Window, cap: nat, width: int, now: int)
    requires Ordered(log) && Spaced(log, 2 * cap - 1, width) && width >= 0
    requires Tracks(log, w, cap, width) && w.count < cap
    requires log[|log| - 1] <= now
    ensures Ordered(log + [now]) && Spaced(log + [now], 2 * cap - 1, width)
    ensures Tracks(log + [now], Window(w.count + 1, w.start), cap, width)
  {
    assert log[Opening(log, w)] <= log[|log| - 1];
  }

  /** `n` entries at the same time. */
  function Times(at: int, n: nat): (log: seq<int>)
    ensures |log| == n && forall i :: 0 <= i < n ==> log[i] == at
  {
    if n == 0 then [] else Times(at, n - 1) + [at]
  }

  lemma NoTimes(log: seq<int>, at: int)
    ensures log + Times(at, 0) == log
  {
  }

  lemma TimesThenOne(log: seq<int>, at: int, n: nat)
    ensures log + Times(at, n) + [at] == log + Times(at, n + 1)
  {
  }

  lemma {:induction false} TimesThenTimes(log: seq<int>, at: int, a: nat, b: nat)
    ensures log + Times(at, a) + Times(at, b) == log + Times(at, a + b)
  {
    if b == 0 {
      NoTimes(log + Times(at, a), at);
    } else {
      TimesThenTimes(log, at, a, b - 1);
      TimesThenOne(log + Times(at, a), at, b - 1);
      TimesThenOne(log, at, a + b - 1);
    }
  }

  lemma OneThenTimes(log: seq<int>, at: int, n: nat)
    ensures log + [at] + Times(at, n) == log + Times(at, n + 1)
  {
    assert Times(at, 1) == [at];
    TimesThenTimes(log, at, 1, n);
  }

  /** Two full windows: one that opens at 0 and is filled at its very end, and one that
  opens and is filled right after. */
  function TwoWindows(cap: nat, width: int): seq<int>
    requires cap >= 1
  {
    [0] + Times(width - 1, cap - 1) + [width] + Times(width, cap - 1)
  }

  /** Together they put 2 cap - 1 entries into one interval. */
  lemma TwoWindowsCount(cap: nat, width: nat)
    requires cap >= 1 && width >= 2
    ensures |Within(TwoWindows(cap, width), 1, width)| == 2 * cap - 1
  {
    assert Within(TwoWindows(cap, width), 1, width) == Range(1, 2 * cap - 1);
  }
}
