/** The cookie search finds what a well-formed Cookie header says: the first value
given for the name. */
module CookieRoundTrip {
  import opened Basics
  import opened RequestHead
  import opened SessionGate

  datatype Pair = Pair(key: string, value: string)

  /** Text without separators of pairs or lines, and without white space. */
  predicate Plain(s: string) {
    forall c :: c in s ==> !IsSpace(c) && c != ';'
  }

  predicate WellFormed(pair: Pair) {
    Plain(pair.key) && Plain(pair.value) && '=' !in pair.key
  }

  function Render(pair: Pair): string {
    pair.key + "=" + pair.value
  }

  function RenderAll(pairs: seq<Pair>): string
    requires pairs != []
  {
    if |pairs| == 1 then Render(pairs[0]) else Render(pairs[0]) + ("; " + RenderAll(pairs[1..]))
  }

  function HeaderLine(pairs: seq<Pair>): string
    requires pairs != []
  {
    "Cookie:" + (" " + RenderAll(pairs))
  }

  function FirstValue(pairs: seq<Pair>, name: string): Option<string> {
    if pairs == [] then None
    else if pairs[0].key == name then Some(pairs[0].value)
    else FirstValue(pairs[1..], name)
  }

  lemma {:induction false} SplitWithoutSeparator(s: string, sep: char)
    requires sep !in s
    ensures Split(s, sep) == [s]
  {
    if s != "" {
      SplitWithoutSeparator(s[1..], sep);
      assert [s[0]] + s[1..] == s;
    }
  }

  lemma {:induction false} SplitOnceAtFirst(a: string, b: string, sep: char)
    requires sep !in a && b != "" && b[0] == sep
    ensures SplitOnce(a + b, sep) == Some((a, b[1..]))
  {
    if a == "" {
      assert a + b == b;
    } else {
      SplitOnceAtFirst(a[1..], b, sep);
      assert (a + b)[1..] == a[1..] + b;
      assert [a[0]] + a[1..] == a;
    }
  }

  lemma TrimTight(s: string)
    requires s == "" || (!IsSpace(s[0]) && !IsSpace(s[|s| - 1]))
    ensures Trim(s) == s
  {
  }

  /** Nothing but white space. */
  predicate Blank(s: string) {
    forall i :: 0 <= i < |s| ==> IsSpace(s[i])
  }

  lemma {:induction false} TrimStartBlank(lead: string, s: string)
    requires Blank(lead) && s != "" && !IsSpace(s[0])
    ensures TrimStart(lead + s) == s
  {
    if lead == "" {
      assert lead + s == s;
    } else {
      assert (lead + s)[1..] == lead[1..] + s;
      TrimStartBlank(lead[1..], s);
    }
  }

  lemma {:induction false} TrimEndBlank(s: string, trail: string)
    requires Blank(trail) && s != "" && !IsSpace(s[|s| - 1])
    ensures TrimEnd(s + trail) == s
  {
    if trail == "" {
      assert s + trail == s;
    } else {
      assert (s + trail)[..|s + trail| - 1] == s + trail[..|trail| - 1];
      TrimEndBlank(s, trail[..|trail| - 1]);
    }
  }

  lemma TrimPadding(lead: string, s: string, trail: string)
    requires Blank(lead) && Blank(trail) && s != "" && !IsSpace(s[0]) && !IsSpace(s[|s| - 1])
    ensures Trim(lead + s + trail) == s
  {
    assert lead + s + trail == lead + (s + trail);
    TrimStartBlank(lead, s + trail);
    TrimEndBlank(s, trail);
  }

  /** One rendered pair, with any white space before and behind it, gives its value. */
  lemma PairRoundTrip(pair: Pair, lead: string, trail: string, name: string)
    requires WellFormed(pair) && Blank(lead) && Blank(trail)
    ensures PairValue(lead + Render(pair) + trail, name) == if pair.key == name then Some(pair.value) else None
  {
    var text := Render(pair);
    assert text[0] == '=' || text[0] in pair.key;
    assert !IsSpace(text[0]) && !IsSpace(text[|text| - 1]);
    TrimPadding(lead, text, trail);
    assert text == pair.key + ("=" + pair.value);
    SplitOnceAtFirst(pair.key, "=" + pair.value, '=');
    assert ("=" + pair.value)[1..] == pair.value;
    TrimTight(pair.key);
    TrimTight(pair.value);
  }

  /** So does a pair with white space around its equals sign. */
  lemma SpacedPairRoundTrip(pair: Pair, before: string, after: string, name: string)
    requires WellFormed(pair) && pair.key != "" && pair.value != "" && Blank(before) && Blank(after)
    ensures PairValue((pair.key + before) + ("=" + (after + pair.value)), name) ==
            if pair.key == name then Some(pair.value) else None
  {
    var key, rest := pair.key + before, "=" + (after + pair.value);
    var text := key + rest;
    assert text[0] == pair.key[0] && text[|text| - 1] == pair.value[|pair.value| - 1];
    TrimTight(text);
    SplitOnceAtFirst(key, rest, '=');
    assert rest[1..] == after + pair.value;
    TrimPadding("", pair.key, before);
    TrimPadding(after, pair.value, "");
    assert "" + pair.key + before == key && after + pair.value + "" == after + pair.value;
  }

  lemma RenderedIsPlain(pair: Pair, lead: string, trail: string)
    requires WellFormed(pair) && Blank(lead) && Blank(trail)
    ensures ';' !in lead + Render(pair) + trail
  {
  }

  lemma FirstPairStep(first: string, rest: seq<string>, name: string)
    ensures FirstPair([first] + rest, name) ==
            if PairValue(first, name).Some? then PairValue(first, name) else FirstPair(rest, name)
  {
    assert ([first] + rest)[1..] == rest;
  }

  lemma SplitFirst(first: string, more: string, sep: char)
    requires sep !in first && more != "" && more[0] == sep
    ensures Split(first + more, sep) == [first] + Split(more[1..], sep)
  {
    SplitWithoutSeparator(first, sep);
    SplitAppend(first, more, sep);
  }

  lemma AppendAssociates(a: string, b: string, c: string)
    ensures a + (b + c) == (a + b) + c
  {
  }

  /** The parts of a rendered list: its first pair, then the parts of the others. */
  lemma SplitRendered(pairs: seq<Pair>, lead: string, trail: string)
    requires |pairs| >= 2 && WellFormed(pairs[0]) && Blank(lead)
    ensures Split(lead + RenderAll(pairs) + trail, ';') ==
            [lead + Render(pairs[0])] + Split(" " + RenderAll(pairs[1..]) + trail, ';')
  {
    var first, rest := lead + Render(pairs[0]), RenderAll(pairs[1..]);
    RenderedIsPlain(pairs[0], lead, "");
    assert first + "" == first;
    Regroup(lead, Render(pairs[0]), rest, trail);
    SplitFirst(first, "; " + rest + trail, ';');
    assert ("; " + rest + trail)[1..] == " " + rest + trail;
  }

  lemma Regroup(lead: string, pair: string, rest: string, trail: string)
    ensures lead + (pair + ("; " + rest)) + trail == (lead + pair) + ("; " + rest + trail)
  {
    AppendAssociates(lead, pair, "; " + rest);
    AppendAssociates(lead + pair, "; " + rest, trail);
  }

  lemma {:induction false} PairsRoundTrip(pairs: seq<Pair>, lead: string, trail: string, name: string)
    requires pairs != [] && (forall p :: p in pairs ==> WellFormed(p)) && Blank(lead) && Blank(trail)
    ensures FirstPair(Split(lead + RenderAll(pairs) + trail, ';'), name) == FirstValue(pairs, name)
  {
    if |pairs| == 1 {
      var only := lead + Render(pairs[0]) + trail;
      RenderedIsPlain(pairs[0], lead, trail);
      SplitWithoutSeparator(only, ';');
      PairRoundTrip(pairs[0], lead, trail, name);
      FirstPairStep(only, [], name);
      assert [only] + [] == [only] && pairs[1..] == [];
    } else {
      var first := lead + Render(pairs[0]);
      assert first + "" == first;
      SplitRendered(pairs, lead, trail);
      PairRoundTrip(pairs[0], lead, "", name);
      FirstPairStep(first, Split(" " + RenderAll(pairs[1..]) + trail, ';'), name);
      PairsRoundTrip(pairs[1..], " ", trail, name);
    }
  }

  // ---- Header lines ----------------------------------------------------------------------

  /** The letters of "cookie", each in either case. */
  predicate SpellsCookie(h: string) {
    |h| == 6 && forall i :: 0 <= i < 6 ==> h[i] == "cookie"[i] || h[i] == "COOKIE"[i]
  }

  lemma SpelledIsCookie(h: string)
    ensures EqualIgnoringCase(h, "cookie") <==> SpellsCookie(h)
  {
    if SpellsCookie(h) {
      forall i | 0 <= i < 6 ensures Lower(h[i]) == Lower("cookie"[i]) {
      }
    }
    if EqualIgnoringCase(h, "cookie") {
      forall i | 0 <= i < 6 ensures h[i] == "cookie"[i] || h[i] == "COOKIE"[i] {
        assert Lower(h[i]) == "cookie"[i];
      }
    }
  }

  lemma HeaderName(h: string, value: string, name: string)
    requires ':' !in h && Trim(h) == h
    ensures LineCookie(h + (":" + value), name) ==
            if SpellsCookie(h) then FirstPair(Split(value, ';'), name) else None
  {
    SplitOnceAtFirst(h, ":" + value, ':');
    assert (":" + value)[1..] == value;
    SpelledIsCookie(h);
  }

  /** A Cookie line, its name in any mixture of cases, gives the first value for the name;
  with any white space at its end. */
  lemma LineRoundTrip(h: string, pairs: seq<Pair>, trail: string, name: string)
    requires SpellsCookie(h) && Blank(trail)
    requires pairs != [] && forall p :: p in pairs ==> WellFormed(p)
    ensures LineCookie(h + (":" + (" " + RenderAll(pairs) + trail)), name) == FirstValue(pairs, name)
  {
    TrimTight(h);
    assert ':' !in h by {
      forall i | 0 <= i < 6 ensures h[i] != ':' {
      }
    }
    HeaderName(h, " " + RenderAll(pairs) + trail, name);
    PairsRoundTrip(pairs, " ", trail, name);
  }

  /** A line of any other header gives no cookie, whatever its value looks like. */
  lemma OtherHeaderGivesNone(h: string, value: string, name: string)
    requires ':' !in h && Trim(h) == h && !SpellsCookie(h)
    ensures LineCookie(h + (":" + value), name) == None
  {
    HeaderName(h, value, name);
  }

  lemma {:induction false} RenderedOnOneLine(pairs: seq<Pair>)
    requires pairs != [] && forall p :: p in pairs ==> WellFormed(p)
    ensures '\n' !in RenderAll(pairs)
  {
    assert pairs[0] in pairs;
    if |pairs| > 1 {
      RenderedOnOneLine(pairs[1..]);
    }
  }

  /** In a request head, the search finds the value the Cookie line gives, provided the
  lines before it give none; lines end with a carriage return and a line feed. */
  lemma HeadRoundTrip(before: string, pairs: seq<Pair>, after: string, name: string)
    requires pairs != [] && forall p :: p in pairs ==> WellFormed(p)
    requires Cookie(before, name) == None && FirstValue(pairs, name).Some?
    ensures Cookie(before + ("\n" + (HeaderLine(pairs) + "\r" + ("\n" + after))), name) == FirstValue(pairs, name)
  {
    var line := HeaderLine(pairs) + "\r";
    RenderedOnOneLine(pairs);
    SplitWithoutSeparator(line, '\n');
    SplitAppend(line, "\n" + after, '\n');
    SplitAppend(before, "\n" + (line + ("\n" + after)), '\n');
    assert ("\n" + after)[1..] == after;
    assert ("\n" + (line + ("\n" + after)))[1..] == line + ("\n" + after);
    FirstCookieAppend(Split(before, '\n'), [line] + Split(after, '\n'), name);
    FirstCookieAppend([line], Split(after, '\n'), name);
    LineRoundTrip("Cookie", pairs, "\r", name);
    HeaderLineParts(pairs, "\r");
    assert FirstCookie([line], name) == LineCookie(line, name);
  }

  lemma HeaderLineParts(pairs: seq<Pair>, trail: string)
    requires pairs != []
    ensures HeaderLine(pairs) + trail == "Cookie" + (":" + (" " + RenderAll(pairs) + trail))
  {
  }

  // ---- A cookie behind the header block ------------------------------------------------

  lemma HeadEndMore(block: Bytes, more: Bytes)
    requires IsHeadEnd(block, |block|)
    ensures IsHeadEnd(block + more, |block|)
  {
    forall e | e <= |block| ensures EndsAt(block + more, e) == EndsAt(block, e) {
      if 4 <= e {
        assert (block + more)[e - 4..e] == block[e - 4..e];
      }
    }
  }

  lemma CookieOfLine(token: string)
    requires WellFormed(Pair(COOKIE_NAME, token))
    ensures Cookie(HeaderLine([Pair(COOKIE_NAME, token)]), COOKIE_NAME) == Some(token)
  {
    var pairs := [Pair(COOKIE_NAME, token)];
    RenderedOnOneLine(pairs);
    SplitWithoutSeparator(HeaderLine(pairs), '\n');
    LineRoundTrip("Cookie", pairs, "", COOKIE_NAME);
    HeaderLineParts(pairs, "");
    assert HeaderLine(pairs) + "" == HeaderLine(pairs);
    assert pairs[0].key == COOKIE_NAME;
  }

  lemma {:induction false} ByteByByte(s: Bytes, end: nat, k: nat)
    requires IsHeadEnd(s, end) && k <= end <= MAX_HEADER_BYTES + 1
    ensures ReadFrom(s, _ => Data(1), k, k) == (end, Complete)
    decreases end - k
  {
    PrefixHasTerminator(s, end, k);
    if k < end {
      ByteByByte(s, end, k + 1);
    }
  }

  lemma AllAtOnce(s: Bytes, end: nat)
    requires IsHeadEnd(s, end) && |s| <= CHUNK
    ensures ReadHead(s, _ => Data(CHUNK)) == (|s|, Complete)
  {
    PrefixHasTerminator(s, end, 0);
    PrefixHasTerminator(s, end, |s|);
    assert Delivered(s, 0, CHUNK) == |s|;
    assert ReadFrom(s, _ => Data(CHUNK), 1, |s|) == (|s|, Complete);
  }

  /** A request head without the cookie, followed by what looks like a Cookie line with a
  granted token: read byte by byte it is forbidden, read at once it is let through. */
  lemma ChunkingDecides(w: World, block: Bytes, token: string)
    requires w.protectedTunnel && w.dial == Connected && w.replayFails == None && w.grants(token) == Granted
    requires IsHeadEnd(block, |block|) && Cookie(block, COOKIE_NAME) == None
    requires WellFormed(Pair(COOKIE_NAME, token))
    requires |block + HeaderLine([Pair(COOKIE_NAME, token)])| <= CHUNK
    ensures
      var s := block + HeaderLine([Pair(COOKIE_NAME, token)]);
      && Handle(w.(plan := _ => Data(1)), s).1 == Forbidden
      && Handle(w.(plan := _ => Data(CHUNK)), s).1 == Spliced
  {
    var line := HeaderLine([Pair(COOKIE_NAME, token)]);
    var s, end := block + line, |block|;
    HeadEndMore(block, line);
    ByteByByte(s, end, 0);
    AllAtOnce(s, end);
    assert s[..end] == block && s[..|s|] == s && s[end..|s|] == line;
    CookieOfLine(token);
    CookieOfPrefix(s, end, |s|, COOKIE_NAME);
    AnswerToHead(w, s, _ => Data(1), end);
    AnswerToHead(w, s, _ => Data(CHUNK), end);
  }

  /** The shortest such head: an empty header block. */
  lemma EmptyBlock()
    ensures IsHeadEnd(TERMINATOR, |TERMINATOR|) && Cookie(TERMINATOR, COOKIE_NAME) == None
  {
    SplitWithoutSeparator("\r", '\n');
    SplitAppend("\r", "\n", '\n');
    SplitAppend("\r", "\n\r\n", '\n');
    assert "\n"[1..] == "" && "\n\r\n"[1..] == "\r" + "\n" && TERMINATOR == "\r" + "\n\r\n";
    FirstCookieAppend(["\r"], ["\r"] + [""], COOKIE_NAME);
    FirstCookieAppend(["\r"], [""], COOKIE_NAME);
    assert SplitOnce(""[..0], ':') == None && "\r"[1..] == "";
    assert LineCookie("\r", COOKIE_NAME) == None && LineCookie("", COOKIE_NAME) == None;
    assert FirstCookie(["\r"], COOKIE_NAME) == None && FirstCookie([""], COOKIE_NAME) == None;
  }
}
