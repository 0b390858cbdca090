/** The edge router's bounded reader of a request head.

Bytes are characters, one per byte. How the network splits the client's bytes into
reads is a plan the proofs quantify over.
*/
module RequestHead {
  type Bytes = string

  const MAX_HEADER_BYTES: nat := 16 * 1024
  const CHUNK: nat := 2048
  const TERMINATOR: Bytes := "\r\n\r\n"

  /** A terminator ends right before position `end`. */
  predicate EndsAt(s: Bytes, end: int) {
    4 <= end <= |s| && s[end - 4..end] == TERMINATOR
  }

  predicate HasTerminator(s: Bytes) {
    exists end :: 4 <= end <= |s| && EndsAt(s, end)
  }

  /** The header block is the first `end` bytes. */
  ghost predicate IsHeadEnd(s: Bytes, end: int) {
    EndsAt(s, end) && forall e :: e < end ==> !EndsAt(s, e)
  }

  /** What the environment does when asked for bytes: deliver up to `wanted` of them,
  or fail (an I/O error, or the deadline for the head). */
  datatype Read = Data(wanted: nat) | Fails

  type Plan = nat -> Read

  /** Bytes delivered by a read at position `pos`: at least one unless the stream is
  over, at most a chunk. */
  function Delivered(s: Bytes, pos: nat, wanted: nat): (n: nat)
    requires pos <= |s|
    ensures pos + n <= |s| && n <= CHUNK
    ensures n == 0 <==> pos == |s|
  {
    var atLeastOne := if wanted == 0 then 1 else wanted;
    var chunk := if atLeastOne > CHUNK then CHUNK else atLeastOne;
    if pos + chunk <= |s| then chunk else |s| - pos
  }

  datatype Outcome = Complete | TooLong | UnexpectedEof | Aborted

  /** Read on from position `pos`, the `k`-th read next: where it stops, and why. */
  function ReadFrom(s: Bytes, plan: Plan, k: nat, pos: nat): (nat, Outcome)
    requires pos <= |s|
    decreases |s| - pos
  {
    if HasTerminator(s[..pos]) then (pos, Complete)
    else if pos > MAX_HEADER_BYTES then (pos, TooLong)
    else
      match plan(k)
      case Fails => (pos, Aborted)
      case Data(wanted) =>
        var n := Delivered(s, pos, wanted);
        if n == 0 then (pos, UnexpectedEof) else ReadFrom(s, plan, k + 1, pos + n)
  }

  /** The decrypted stream of one client. */
  class Client {
    const data: Bytes
    const plan: Plan
    var pos: nat
    var received: nat

    constructor (data: Bytes, plan: Plan)
      ensures this.data == data && this.plan == plan && pos == 0 && received == 0
    {
      this.data := data;
      this.plan := plan;
      pos, received := 0, 0;
    }

    method Receive() returns (ok: bool, chunk: Bytes)
      requires pos <= |data|
      modifies this
      ensures received == old(received) + 1 && old(pos) <= pos <= |data|
      ensures ok == plan(old(received)).Data?
      ensures chunk == data[old(pos)..pos]
      ensures pos == old(pos) + if ok then Delivered(data, old(pos), plan(old(received)).wanted) else 0
    {
      var next := plan(received);
      received := received + 1;
      match next
      case Fails => return false, "";
      case Data(wanted) =>
        var n := Delivered(data, pos, wanted);
        ok, chunk := true, data[pos..pos + n];
        pos := pos + n;
    }
  }

  /** Read until the end of the header block, appending everything read to the
  buffer. */
  method ReadRequestHead(client: Client) returns (buf: Bytes, outcome: Outcome)
    requires client.pos == 0 && client.received == 0
    modifies client
    ensures client.pos <= |client.data| && buf == client.data[..client.pos]
    ensures (client.pos, outcome) == ReadHead(client.data, client.plan)
  {
    buf := "";
    while true
      invariant client.pos <= |client.data| && buf == client.data[..client.pos]
      invariant ReadFrom(client.data, client.plan, client.received, client.pos) ==
                ReadFrom(client.data, client.plan, 0, 0)
      decreases |client.data| - client.pos
    {
      if HasTerminator(buf) {
        return buf, Complete;
      }
      if |buf| > MAX_HEADER_BYTES {
        return buf, TooLong;
      }
      var ok, chunk := client.Receive();
      if !ok {
        return buf, Aborted;
      }
      if chunk == "" {
        return buf, UnexpectedEof;
      }
      buf := buf + chunk;
    }
  }

  // ---- Chunking ------------------------------------------------------------------

  /** A prefix shows the terminator exactly when it covers the header block. */
  lemma PrefixHasTerminator(s: Bytes, end: int, pos: nat)
    requires IsHeadEnd(s, end) && pos <= |s|
    ensures HasTerminator(s[..pos]) <==> end <= pos
  {
    if end <= pos {
      assert s[..pos][end - 4..end] == s[end - 4..end];
      assert EndsAt(s[..pos], end);
    } else if HasTerminator(s[..pos]) {
      var e :| 4 <= e <= pos && EndsAt(s[..pos], e);
      assert s[..pos][e - 4..e] == s[e - 4..e];
      assert EndsAt(s, e);
    }
  }

  /** However the stream is split, the buffer stays bounded, success means the whole
  header block is in it, and only a failing read can prevent success if the block is
  short enough. */
  lemma {:induction false} ReadOutcome(s: Bytes, plan: Plan, k: nat, pos: nat)
    requires pos <= |s| && pos <= MAX_HEADER_BYTES + CHUNK
    ensures pos <= ReadFrom(s, plan, k, pos).0 <= |s|
    ensures ReadFrom(s, plan, k, pos).0 <= MAX_HEADER_BYTES + CHUNK
    ensures ReadFrom(s, plan, k, pos).1 == Complete ==> HasTerminator(s[..ReadFrom(s, plan, k, pos).0])
    ensures (exists end :: IsHeadEnd(s, end) && end <= MAX_HEADER_BYTES + 1) ==>
              ReadFrom(s, plan, k, pos).1 in {Complete, Aborted}
    ensures (forall i :: plan(i).Data?) ==> ReadFrom(s, plan, k, pos).1 != Aborted
    decreases |s| - pos
  {
    if exists end :: IsHeadEnd(s, end) && end <= MAX_HEADER_BYTES + 1 {
      var end :| IsHeadEnd(s, end) && end <= MAX_HEADER_BYTES + 1;
      PrefixHasTerminator(s, end, pos);
    }
    if !HasTerminator(s[..pos]) && pos <= MAX_HEADER_BYTES && plan(k).Data? {
      var n := Delivered(s, pos, plan(k).wanted);
      if n > 0 {
        ReadOutcome(s, plan, k + 1, pos + n);
      }
    }
  }

  /** Reading the head from the start of the stream. */
  function ReadHead(s: Bytes, plan: Plan): (r: (nat, Outcome))
    ensures r.0 <= |s|
  {
    ReadOutcome(s, plan, 0, 0);
    ReadFrom(s, plan, 0, 0)
  }

  /** The reader stops within MAX_HEADER_BYTES + CHUNK bytes; unless a read fails before,
  it succeeds for every chunking if the header block ends within MAX_HEADER_BYTES + 1,
  and for none if the block ends beyond MAX_HEADER_BYTES + CHUNK. */
  lemma ChunkingIndependence(s: Bytes, plan: Plan, end: int)
    requires IsHeadEnd(s, end)
    ensures ReadHead(s, plan).0 <= MAX_HEADER_BYTES + CHUNK
    ensures ReadHead(s, plan).1 == Complete ==> end <= ReadHead(s, plan).0 <= |s|
    ensures end <= MAX_HEADER_BYTES + 1 && ReadHead(s, plan).1 != Aborted ==> ReadHead(s, plan).1 == Complete
    ensures (forall i :: plan(i).Data?) ==> ReadHead(s, plan).1 != Aborted
    ensures end > MAX_HEADER_BYTES + CHUNK ==> ReadHead(s, plan).1 != Complete
  {
    ReadOutcome(s, plan, 0, 0);
    PrefixHasTerminator(s, end, ReadHead(s, plan).0);
  }

  lemma PrefixWithoutTerminator(s: Bytes, pos: nat)
    requires pos <= |s| && forall end :: !EndsAt(s, end)
    ensures !HasTerminator(s[..pos])
  {
    forall end ensures !EndsAt(s[..pos], end) {
      if 4 <= end <= pos {
        assert s[..pos][end - 4..end] == s[end - 4..end];
        assert !EndsAt(s, end);
      }
    }
  }

  /** Without a terminator no chunking succeeds. */
  lemma NoHeadNoSuccess(s: Bytes, plan: Plan)
    requires forall end :: !EndsAt(s, end)
    ensures ReadHead(s, plan).1 != Complete
  {
    ReadOutcome(s, plan, 0, 0);
    PrefixWithoutTerminator(s, ReadHead(s, plan).0);
  }

  lemma {:induction false} EndWithoutHead(s: Bytes, plan: Plan, k: nat, pos: nat)
    requires pos <= |s| && (forall end :: !EndsAt(s, end)) && ReadFrom(s, plan, k, pos).1 != Aborted
    ensures ReadFrom(s, plan, k, pos).1 ==
            if pos > MAX_HEADER_BYTES || |s| > MAX_HEADER_BYTES then TooLong else UnexpectedEof
    decreases |s| - pos
  {
    PrefixWithoutTerminator(s, pos);
    if pos <= MAX_HEADER_BYTES {
      var n := Delivered(s, pos, plan(k).wanted);
      if n > 0 {
        EndWithoutHead(s, plan, k + 1, pos + n);
      }
    }
  }

  /** Without a terminator, and unless a read fails before, a stream longer than
  MAX_HEADER_BYTES is too long and any other ends unexpectedly, for every chunking. */
  lemma NoHeadOutcome(s: Bytes, plan: Plan)
    requires (forall end :: !EndsAt(s, end)) && ReadHead(s, plan).1 != Aborted
    ensures ReadHead(s, plan).1 == if |s| > MAX_HEADER_BYTES then TooLong else UnexpectedEof
  {
    EndWithoutHead(s, plan, 0, 0);
  }

  /** Full chunks are the most generous reads: they succeed exactly up to
  MAX_HEADER_BYTES + CHUNK. */
  lemma {:induction false} FullChunks(s: Bytes, end: int, k: nat, pos: nat)
    requires IsHeadEnd(s, end) && pos <= |s| && pos <= MAX_HEADER_BYTES + CHUNK
    requires pos < end ==> pos % CHUNK == 0
    ensures end <= MAX_HEADER_BYTES + CHUNK ==> ReadFrom(s, _ => Data(CHUNK), k, pos).1 == Complete
    decreases |s| - pos
  {
    PrefixHasTerminator(s, end, pos);
    if pos < end && pos <= MAX_HEADER_BYTES {
      var n := Delivered(s, pos, CHUNK);
      FullChunks(s, end, k + 1, pos + n);
    }
  }

  /** Single bytes are the least generous: they succeed exactly up to
  MAX_HEADER_BYTES + 1. */
  lemma {:induction false} SingleBytes(s: Bytes, end: int, k: nat, pos: nat)
    requires IsHeadEnd(s, end) && pos <= |s| && pos <= MAX_HEADER_BYTES + 1
    ensures end > MAX_HEADER_BYTES + 1 ==> ReadFrom(s, _ => Data(1), k, pos).1 == TooLong
    decreases |s| - pos
  {
    PrefixHasTerminator(s, end, pos);
    if end > MAX_HEADER_BYTES + 1 && pos <= MAX_HEADER_BYTES {
      SingleBytes(s, end, k + 1, pos + 1);
    }
  }

  /** Both limits are sharp: between them the outcome depends on the chunking. */
  lemma LimitsAreSharp(s: Bytes, end: int)
    requires IsHeadEnd(s, end)
    ensures ReadHead(s, _ => Data(CHUNK)).1 == Complete <==> end <= MAX_HEADER_BYTES + CHUNK
    ensures ReadHead(s, _ => Data(1)).1 == Complete <==> end <= MAX_HEADER_BYTES + 1
  {
    FullChunks(s, end, 0, 0);
    SingleBytes(s, end, 0, 0);
    ChunkingIndependence(s, _ => Data(CHUNK), end);
    ChunkingIndependence(s, _ => Data(1), end);
  }

  // ---- Exactly which chunkings succeed ---------------------------------------------

  /** The position after `k` reads; a failing one delivers nothing. */
  function Boundary(s: Bytes, plan: Plan, k: nat): (pos: nat)
    ensures pos <= |s|
  {
    if k == 0 then 0
    else
      var before := Boundary(s, plan, k - 1);
      match plan(k - 1)
      case Fails => before
      case Data(wanted) => before + Delivered(s, before, wanted)
  }

  lemma {:induction false} BoundaryGrows(s: Bytes, plan: Plan, j: nat, k: nat)
    requires j <= k
    ensures Boundary(s, plan, j) <= Boundary(s, plan, k)
  {
    if j < k {
      BoundaryGrows(s, plan, j, k - 1);
    }
  }

  /** The reader stops at the first boundary that covers the header block or exceeds
  the limit. */
  lemma {:induction false} StopsAtBoundary(s: Bytes, plan: Plan, end: int, k: nat) returns (m: nat)
    requires IsHeadEnd(s, end) && ReadFrom(s, plan, k, Boundary(s, plan, k)).1 != Aborted
    ensures m >= k && ReadFrom(s, plan, k, Boundary(s, plan, k)).0 == Boundary(s, plan, m)
    ensures forall j: nat :: k <= j < m ==> Boundary(s, plan, j) < end && Boundary(s, plan, j) <= MAX_HEADER_BYTES
    ensures if ReadFrom(s, plan, k, Boundary(s, plan, k)).1 == Complete
            then end <= Boundary(s, plan, m)
            else
              && ReadFrom(s, plan, k, Boundary(s, plan, k)).1 == TooLong
              && MAX_HEADER_BYTES < Boundary(s, plan, m) < end
    decreases |s| - Boundary(s, plan, k)
  {
    var pos := Boundary(s, plan, k);
    PrefixHasTerminator(s, end, pos);
    m := k;
    if pos < end && pos <= MAX_HEADER_BYTES {
      assert Boundary(s, plan, k + 1) == pos + Delivered(s, pos, plan(k).wanted);
      m := StopsAtBoundary(s, plan, end, k + 1);
    }
  }

  /** Unless a read fails before, the reader succeeds exactly when no read ends beyond
  MAX_HEADER_BYTES but before the end of the header block; and then it has read less
  than a chunk too many. */
  lemma CompleteExactly(s: Bytes, plan: Plan, end: int)
    requires IsHeadEnd(s, end) && ReadHead(s, plan).1 != Aborted
    ensures ReadHead(s, plan).1 == Complete <==>
            forall k: nat :: !(MAX_HEADER_BYTES < Boundary(s, plan, k) < end)
    ensures ReadHead(s, plan).1 == Complete ==> end <= ReadHead(s, plan).0 < end + CHUNK
    ensures ReadHead(s, plan).1 != Complete ==> ReadHead(s, plan).1 == TooLong
  {
    var m := StopsAtBoundary(s, plan, end, 0);
    if ReadHead(s, plan).1 == Complete {
      forall k: nat ensures !(MAX_HEADER_BYTES < Boundary(s, plan, k) < end) {
        if k >= m {
          BoundaryGrows(s, plan, m, k);
        }
      }
      assert Boundary(s, plan, m) <= Boundary(s, plan, m - 1) + CHUNK;
    }
  }

  /** Single bytes up to the last one of the header block, then the rest up to `pos`. */
  function StopPlan(end: nat, pos: nat): Plan
    requires end <= pos
  {
    k => Data(if k + 1 < end then 1 else pos - end + 1)
  }

  lemma {:induction false} StopPlanStops(s: Bytes, end: nat, pos: nat, k: nat)
    requires IsHeadEnd(s, end) && end <= MAX_HEADER_BYTES + 1 && end <= pos <= |s| && pos < end + CHUNK && k < end
    ensures ReadFrom(s, StopPlan(end, pos), k, k) == (pos, Complete)
    decreases end - k
  {
    PrefixHasTerminator(s, end, k);
    if k + 1 < end {
      StopPlanStops(s, end, pos, k + 1);
    } else {
      PrefixHasTerminator(s, end, pos);
    }
  }

  /** The reader can stop at every position from the end of the header block on that is
  less than a chunk away. */
  lemma CanStopAt(s: Bytes, end: nat, pos: nat)
    requires IsHeadEnd(s, end) && end <= MAX_HEADER_BYTES + 1 && end <= pos <= |s| && pos < end + CHUNK
    ensures ReadHead(s, StopPlan(end, pos)) == (pos, Complete)
  {
    StopPlanStops(s, end, pos, 0);
  }
}
