/** The session gate of protected tunnels: find the grant cookie in what was read,
check it, and only then replay the bytes and splice the rest. */
module SessionGate {
  import opened Basics
  import opened RequestHead

  // ---- Text ------------------------------------------------------------------------

  predicate IsSpace(c: char) {
    c == ' ' || '\t' <= c <= '\r'
  }

  function TrimStart(s: string): string {
    if s != "" && IsSpace(s[0]) then TrimStart(s[1..]) else s
  }

  function TrimEnd(s: string): string {
    if s != "" && IsSpace(s[|s| - 1]) then TrimEnd(s[..|s| - 1]) else s
  }

  function Trim(s: string): string {
    TrimEnd(TrimStart(s))
  }

  function Lower(c: char): char {
    if 'A' <= c <= 'Z' then c - 'A' + 'a' else c
  }

  predicate EqualIgnoringCase(a: string, b: string) {
    |a| == |b| && forall i :: 0 <= i < |a| ==> Lower(a[i]) == Lower(b[i])
  }

  /** The parts before and after the first `sep`. */
  function SplitOnce(s: string, sep: char): Option<(string, string)> {
    if s == "" then None
    else if s[0] == sep then Some(("", s[1..]))
    else
      match SplitOnce(s[1..], sep)
      case None => None
      case Some((before, after)) => Some(([s[0]] + before, after))
  }

  /** All the parts between separators; one part if there are none. */
  function Split(s: string, sep: char): (parts: seq<string>)
    ensures |parts| >= 1
  {
    if s == "" then [""]
    else if s[0] == sep then [""] + Split(s[1..], sep)
    else
      Prepend(s[0], Split(s[1..], sep))
  }

  function Prepend(c: char, parts: seq<string>): seq<string>
    requires |parts| >= 1
  {
    [[c] + parts[0]] + parts[1..]
  }

  lemma PrependAppend(c: char, a: seq<string>, b: seq<string>)
    requires |a| >= 1
    ensures Prepend(c, a + b) == Prepend(c, a) + b
  {
  }

  // ---- The cookie --------------------------------------------------------------------

  function PairValue(pair: string, name: string): Option<string> {
    match SplitOnce(Trim(pair), '=')
    case None => None
    case Some((key, value)) => if Trim(key) == name then Some(Trim(value)) else None
  }

  function FirstPair(pairs: seq<string>, name: string): Option<string> {
    if pairs == [] then None
    else
      var value := PairValue(pairs[0], name);
      if value.Some? then value else FirstPair(pairs[1..], name)
  }

  function LineCookie(line: string, name: string): Option<string> {
    match SplitOnce(line, ':')
    case None => None
    case Some((key, value)) =>
      if EqualIgnoringCase(Trim(key), "cookie") then FirstPair(Split(value, ';'), name) else None
  }

  function FirstCookie(lines: seq<string>, name: string): Option<string> {
    if lines == [] then None
    else
      var value := LineCookie(lines[0], name);
      if value.Some? then value else FirstCookie(lines[1..], name)
  }

  /** The value of the first cookie called `name` in any line. Carriage returns before
  line ends need no removal, as values are trimmed. */
  function Cookie(head: string, name: string): Option<string> {
    FirstCookie(Split(head, '\n'), name)
  }

  method CookieFromRequestHead(head: string, name: string) returns (found: Option<string>)
    ensures found == Cookie(head, name)
  {
    var lines := Split(head, '\n');
    for i := 0 to |lines|
      invariant FirstCookie(lines, name) == FirstCookie(lines[i..], name)
    {
      var field := SplitOnce(lines[i], ':');
      if field.None? || !EqualIgnoringCase(Trim(field.value.0), "cookie") {
        continue;
      }
      var pairs := Split(field.value.1, ';');
      for j := 0 to |pairs|
        invariant FirstPair(pairs, name) == FirstPair(pairs[j..], name)
      {
        var pair := SplitOnce(Trim(pairs[j]), '=');
        if pair.Some? && Trim(pair.value.0) == name {
          return Some(Trim(pair.value.1));
        }
      }
    }
    return None;
  }

  lemma SplitFront(s: string, sep: char)
    requires s != ""
    ensures Split(s, sep) == if s[0] == sep then [""] + Split(s[1..], sep) else Prepend(s[0], Split(s[1..], sep))
  {
  }

  lemma FrontOfAppend(c: char, sep: char, x: seq<string>, y: seq<string>)
    requires |x| >= 1
    ensures (if c == sep then [""] + (x + y) else Prepend(c, x + y)) ==
            (if c == sep then [""] + x else Prepend(c, x)) + y
  {
    if c == sep {
      assert [""] + (x + y) == ([""] + x) + y;
    } else {
      PrependAppend(c, x, y);
    }
  }

  /** Splitting works separately on both sides of a separator. */
  lemma {:induction false} SplitAppend(a: string, b: string, sep: char)
    requires b != "" && b[0] == sep
    ensures Split(a + b, sep) == Split(a, sep) + Split(b[1..], sep)
  {
    if a == "" {
      assert a + b == b;
      SplitFront(b, sep);
    } else {
      assert (a + b)[1..] == a[1..] + b && (a + b)[0] == a[0];
      SplitAppend(a[1..], b, sep);
      SplitFront(a, sep);
      SplitFront(a + b, sep);
      FrontOfAppend(a[0], sep, Split(a[1..], sep), Split(b[1..], sep));
    }
  }

  lemma {:induction false} FirstCookieAppend(a: seq<string>, b: seq<string>, name: string)
    ensures FirstCookie(a + b, name) ==
            if FirstCookie(a, name).Some? then FirstCookie(a, name) else FirstCookie(b, name)
  {
    if a == [] {
      assert a + b == b;
    } else {
      FirstCookieAppend(a[1..], b, name);
      assert (a + b)[1..] == a[1..] + b;
    }
  }

  /** Bytes read beyond the header block are searched too, but only after the block
  itself. */
  lemma CookieOfPrefix(s: Bytes, end: int, pos: nat, name: string)
    requires IsHeadEnd(s, end) && end <= pos <= |s|
    ensures Cookie(s[..pos], name) ==
            if Cookie(s[..end], name).Some? then Cookie(s[..end], name) else Cookie(s[end..pos], name)
  {
    var block, more := s[..end - 1], s[end..pos];
    assert s[end - 1] == s[end - 4..end][3] == '\n';
    assert s[..end] == block + ['\n'] && s[..pos] == block + (['\n'] + more);
    assert ['\n'][1..] == "" && (['\n'] + more)[1..] == more;
    SplitAppend(block, ['\n'], '\n');
    SplitAppend(block, ['\n'] + more, '\n');
    FirstCookieAppend(Split(block, '\n'), [""], name);
    FirstCookieAppend(Split(block, '\n'), Split(more, '\n'), name);
    assert LineCookie("", name) == None;
    assert FirstCookie([""], name) == None;
  }

  /** A reader that may stop at any of the positions up to `last` finds the header
  block's own cookie exactly if the block has one or no extra bytes have any. */
  lemma CookieIsFromBlockExactly(s: Bytes, end: int, last: nat, name: string)
    requires IsHeadEnd(s, end) && end <= last <= |s|
    ensures (forall pos :: end <= pos <= last ==> Cookie(s[..pos], name) == Cookie(s[..end], name)) <==>
            Cookie(s[..end], name).Some? || forall pos :: end <= pos <= last ==> Cookie(s[end..pos], name) == None
  {
    forall pos | end <= pos <= last
      ensures Cookie(s[..pos], name) ==
              if Cookie(s[..end], name).Some? then Cookie(s[..end], name) else Cookie(s[end..pos], name)
    {
      CookieOfPrefix(s, end, pos, name);
    }
  }

  // ---- The connection ----------------------------------------------------------------

  const COOKIE_NAME: string := "fdns_session"

  datatype Grant = Granted | Denied | LookupFailed

  datatype Dial = Connected | Refused | TimedOut

  /** What the rest of the world does during one connection. */
  datatype World = World(
    protectedTunnel: bool,
    plan: Plan,
    grants: string -> Grant,  // the live session grants of the tunnel, by token
    dial: Dial,
    replayFails: Option<nat>, // the replay breaks off after so many bytes
    spliced: nat)             // bytes copied before the splice ends

  datatype Status = BadRequest | InternalError | Forbidden | BadGateway | GatewayTimeout | Spliced

  function Authorize(w: World, buf: Bytes): Grant {
    match Cookie(buf, COOKIE_NAME)
    case None => Denied
    case Some(token) => w.grants(token)
  }

  function AtMost(n: nat, limit: nat): nat {
    if n <= limit then n else limit
  }

  /** Dial the slot, replay the first `pos` bytes and splice the rest: what the slot
  receives. */
  function Forward(w: World, s: Bytes, pos: nat): (Bytes, Status)
    requires pos <= |s|
  {
    match w.dial
    case Refused => ("", BadGateway)
    case TimedOut => ("", GatewayTimeout)
    case Connected =>
      if pos > 0 && w.replayFails.Some? then (s[..AtMost(w.replayFails.value, pos)], BadGateway)
      else (s[..pos] + s[pos..pos + AtMost(w.spliced, |s| - pos)], Spliced)
  }

  function Handle(w: World, s: Bytes): (Bytes, Status) {
    if !w.protectedTunnel then Forward(w, s, 0)
    else
      var (pos, outcome) := ReadHead(s, w.plan);
      if outcome != Complete then ("", BadRequest)
      else
        match Authorize(w, s[..pos])
        case LookupFailed => ("", InternalError)
        case Denied => ("", Forbidden)
        case Granted => Forward(w, s, pos)
  }

  method HandleConnection(client: Client, w: World) returns (slot: Bytes, status: Status)
    requires client.pos == 0 && client.received == 0 && client.plan == w.plan
    modifies client
    ensures (slot, status) == Handle(w, client.data)
  {
    var replay := "";
    if w.protectedTunnel {
      var outcome;
      replay, outcome := ReadRequestHead(client);
      if outcome != Complete {
        return "", BadRequest;
      }
      var token := CookieFromRequestHead(replay, COOKIE_NAME);
      var authorized := Denied;
      if token.Some? {
        authorized := w.grants(token.value);
        if authorized == LookupFailed {
          return "", InternalError;
        }
      }
      if authorized != Granted {
        return "", Forbidden;
      }
    }
    match w.dial {
      case Refused => return "", BadGateway;
      case TimedOut => return "", GatewayTimeout;
      case Connected =>
    }
    slot := "";
    if replay != "" {
      if w.replayFails.Some? {
        assert forall n: nat :: n <= |replay| ==> replay[..n] == client.data[..n];
        return replay[..AtMost(w.replayFails.value, |replay|)], BadGateway;
      }
      slot := slot + replay;
    }
    assert slot == client.data[..client.pos];
    slot := slot + client.data[client.pos..client.pos + AtMost(w.spliced, |client.data| - client.pos)];
    return slot, Spliced;
  }

  /** The slot receives a prefix of the client's bytes, each once and in order: all of
  them if the splice runs to the end, none if the connection is refused. */
  lemma ForwardedOnceInOrder(w: World, s: Bytes)
    ensures
      var (slot, status) := Handle(w, s);
      && slot <= s
      && (status == Spliced && w.spliced >= |s| ==> slot == s)
      && (status in {BadRequest, InternalError, Forbidden, GatewayTimeout} ==> slot == "")
  {
    ForwardIsPrefix(w, s, 0);
    ForwardIsPrefix(w, s, ReadHead(s, w.plan).0);
  }

  lemma ForwardIsPrefix(w: World, s: Bytes, pos: nat)
    requires pos <= |s|
    ensures
      var (slot, status) := Forward(w, s, pos);
      slot <= s && (status == Spliced && w.spliced >= |s| ==> slot == s)
  {
    var n := AtMost(w.spliced, |s| - pos);
    assert s[..pos] + s[pos..pos + n] == s[..pos + n];
    assert s[..|s|] == s;
  }

  /** The slot of an unprotected tunnel receives whatever the splice carries, and the client
  is told how the dial went: no plan, cookie, grant or replay matters. */
  lemma UnprotectedIsForwarded(w: World, s: Bytes)
    requires !w.protectedTunnel
    ensures Handle(w, s) ==
            match w.dial
            case Connected => (s[..AtMost(w.spliced, |s|)], Spliced)
            case Refused => ("", BadGateway)
            case TimedOut => ("", GatewayTimeout)
  {
    var n := AtMost(w.spliced, |s|);
    assert s[..0] + s[0..0 + n] == s[..n];
  }

  /** A protected tunnel lets nobody through whose head was not read, was not granted, or
  could not be looked up, and tells them so. */
  lemma ProtectedRefusesExactly(w: World, s: Bytes)
    requires w.protectedTunnel
    ensures
      var (pos, outcome) := ReadHead(s, w.plan);
      var status := Handle(w, s).1;
      && (status == BadRequest <==> outcome != Complete)
      && (status == Forbidden <==> outcome == Complete && Authorize(w, s[..pos]) == Denied)
      && (status == InternalError <==> outcome == Complete && Authorize(w, s[..pos]) == LookupFailed)
      && (status in {BadRequest, Forbidden, InternalError} ==> Handle(w, s).0 == "")
  {
  }

  /** After a grant the slot receives the bytes that were read and then whatever the splice
  carries, as one prefix of the client's bytes; or, if the replay breaks off, a part of
  those that were read. */
  lemma GrantedIsForwarded(w: World, s: Bytes, end: int)
    requires w.protectedTunnel && IsHeadEnd(s, end) && ReadHead(s, w.plan).1 == Complete
    requires Authorize(w, s[..ReadHead(s, w.plan).0]) == Granted
    ensures
      var pos := ReadHead(s, w.plan).0;
      Handle(w, s) ==
        match w.dial
        case Refused => ("", BadGateway)
        case TimedOut => ("", GatewayTimeout)
        case Connected =>
          (match w.replayFails
           case None => (s[..pos + AtMost(w.spliced, |s| - pos)], Spliced)
           case Some(n) => (s[..AtMost(n, pos)], BadGateway))
  {
    ChunkingIndependence(s, w.plan, end);
    var pos := ReadHead(s, w.plan).0;
    var n := AtMost(w.spliced, |s| - pos);
    assert s[..pos] + s[pos..pos + n] == s[..pos + n];
  }

  /** Nothing reaches the slot of a protected tunnel unless a complete header block was
  read within bounds and a cookie in it, or read along with it, names a live grant. */
  lemma GateHolds(w: World, s: Bytes)
    requires w.protectedTunnel && Handle(w, s).0 != ""
    ensures
      var (pos, outcome) := ReadHead(s, w.plan);
      && outcome == Complete && pos <= |s| && pos <= MAX_HEADER_BYTES + CHUNK
      && HasTerminator(s[..pos])
      && Cookie(s[..pos], COOKIE_NAME).Some?
      && w.grants(Cookie(s[..pos], COOKIE_NAME).value) == Granted
  {
    ReadOutcome(s, w.plan, 0, 0);
    var pos := ReadHead(s, w.plan).0;
    assert Authorize(w, s[..pos]) == Granted;
  }

  // ---- Exactly when the answer does not depend on the chunking -------------------------

  /** Chunkings in which no read fails before the head is complete or too long all get
  the same answer. */
  ghost predicate SameAnswer(w: World, s: Bytes) {
    forall one: Plan, two: Plan :: ReadHead(s, one).1 != Aborted && ReadHead(s, two).1 != Aborted ==>
      Handle(w.(plan := one), s).1 == Handle(w.(plan := two), s).1
  }

  /** What a client whose head was read is told. */
  function Answer(w: World, grant: Grant): Status {
    match grant
    case LookupFailed => InternalError
    case Denied => Forbidden
    case Granted =>
      match w.dial
      case Refused => BadGateway
      case TimedOut => GatewayTimeout
      case Connected => if w.replayFails.Some? then BadGateway else Spliced
  }

  lemma AnswerToHead(w: World, s: Bytes, plan: Plan, end: int)
    requires w.protectedTunnel && IsHeadEnd(s, end) && ReadHead(s, plan).1 == Complete
    ensures Handle(w.(plan := plan), s).1 == Answer(w, Authorize(w, s[..ReadHead(s, plan).0])) != BadRequest
  {
    ChunkingIndependence(s, plan, end);
  }

  lemma AnswerAt(w: World, s: Bytes, end: nat, pos: nat)
    requires w.protectedTunnel && IsHeadEnd(s, end) && end <= MAX_HEADER_BYTES + 1
    requires end <= pos <= |s| && pos < end + CHUNK
    ensures ReadHead(s, StopPlan(end, pos)).1 != Aborted
    ensures Handle(w.(plan := StopPlan(end, pos)), s).1 == Answer(w, Authorize(w, s[..pos]))
  {
    CanStopAt(s, end, pos);
    AnswerToHead(w, s, StopPlan(end, pos), end);
  }

  /** Every position at which the reader can stop leads to the same authorization. */
  ghost predicate SameGrant(w: World, s: Bytes, end: nat)
    requires end <= |s|
  {
    forall pos: nat :: end <= pos <= |s| && pos < end + CHUNK ==> Authorize(w, s[..pos]) == Authorize(w, s[..end])
  }

  lemma SameGrantSameAnswer(w: World, s: Bytes, end: nat, plan: Plan)
    requires w.protectedTunnel && IsHeadEnd(s, end) && end <= MAX_HEADER_BYTES + 1 && SameGrant(w, s, end)
    requires ReadHead(s, plan).1 != Aborted
    ensures Handle(w.(plan := plan), s).1 == Answer(w, Authorize(w, s[..end]))
  {
    ChunkingIndependence(s, plan, end);
    CompleteExactly(s, plan, end);
    AnswerToHead(w, s, plan, end);
  }

  /** The answer does not depend on how the bytes were split exactly when the header
  block is too long for every chunking, or short enough for every chunking and each
  position less than a chunk beyond its end leads to the same authorization. */
  lemma GateIgnoresChunkingExactly(w: World, s: Bytes, end: nat)
    requires w.protectedTunnel && IsHeadEnd(s, end)
    ensures SameAnswer(w, s) <==>
            || end > MAX_HEADER_BYTES + CHUNK
            || (end <= MAX_HEADER_BYTES + 1 && SameGrant(w, s, end))
  {
    if end > MAX_HEADER_BYTES + CHUNK {
      forall plan: Plan ensures Handle(w.(plan := plan), s).1 == BadRequest {
        ChunkingIndependence(s, plan, end);
      }
    } else if end > MAX_HEADER_BYTES + 1 {
      var full: Plan, single: Plan := _ => Data(CHUNK), _ => Data(1);
      LimitsAreSharp(s, end);
      ChunkingIndependence(s, single, end);
      AnswerToHead(w, s, full, end);
      assert Handle(w.(plan := single), s).1 == BadRequest;
    } else if SameGrant(w, s, end) {
      forall plan: Plan | ReadHead(s, plan).1 != Aborted
        ensures Handle(w.(plan := plan), s).1 == Answer(w, Authorize(w, s[..end]))
      {
        SameGrantSameAnswer(w, s, end, plan);
      }
    } else {
      var pos: nat :| end <= pos <= |s| && pos < end + CHUNK && Authorize(w, s[..pos]) != Authorize(w, s[..end]);
      AnswerAt(w, s, end, end);
      AnswerAt(w, s, end, pos);
    }
  }
}
