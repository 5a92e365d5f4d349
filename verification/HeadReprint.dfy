/** The other direction of the round trip: whatever the parser accepts without folding consists of
    printable parts, and printing them canonically parses back to the same parts. */
module HeadReprint {
  import opened Bytes
  import opened Types
  import opened HeadSpec
  import opened HeadRuns
  import opened HeadSpans
  import opened HeadPrint

  lemma FieldLineShapely(s: seq<byte>, h: Header, brk: nat, end: nat)
    requires FieldLine(s, h, brk, end)
    ensures Inside(s, h) && Shapely(FieldAt(s, h))
  {
    var f := FieldAt(s, h);
    assert forall k :: 0 <= k < |f.name| ==> f.name[k] == s[h.name + k];
    assert forall k :: 0 <= k < |f.value| ==> f.value[k] == s[h.value + k];
  }

  lemma {:induction false} TiledShapely(s: seq<byte>, lo: nat, hi: nat, hs: seq<Header>)
    requires Tiled(s, lo, hi, hs)
    ensures forall i :: 0 <= i < |hs| ==> Inside(s, hs[i]) && Shapely(FieldAt(s, hs[i]))
    decreases |hs|
  {
    hide FieldLine, FieldAt, Inside, Shapely;
    if hs != [] {
      var init, h := hs[..|hs| - 1], hs[|hs| - 1];
      TiledShapely(s, lo, h.name, init);
      var brk: nat :| FieldLine(s, h, brk, hi);
      FieldLineShapely(s, h, brk, hi);
      forall i | 0 <= i < |hs|
        ensures Inside(s, hs[i]) && Shapely(FieldAt(s, hs[i]))
      {
        assert i < |init| ==> hs[i] == init[i];
      }
    }
  }

  lemma RequestStartValid(s: seq<byte>, policy: Policy)
    requires !policy.allowSpacesInUri
    requires ParseRequestLine(s, 0, policy).status == Ok
    ensures var line := ParseRequestLine(s, 0, policy).line;
            LineInside(s, line) && ValidStart(StartAt(s, line))
  {
    hide ParseRequestLine;
    RequestLineFills(s, policy);
    var line := ParseRequestLine(s, 0, policy).line;
    var verb, target := s[0..line.methodLen], s[line.path..line.path + line.pathLen];
    assert forall k :: 0 <= k < |verb| ==> verb[k] == s[k];
    assert forall k :: 0 <= k < |target| ==> target[k] == s[line.path + k];
  }

  lemma StatusStartValid(s: seq<byte>, policy: Policy)
    requires ParseStatusLine(s, 0, policy).status == Ok
    ensures var line := ParseStatusLine(s, 0, policy).line;
            LineInside(s, line) && ValidStart(StartAt(s, line))
  {
    var l := LineAt(s, 0, policy);
    var line := ParseStatusLine(s, 0, policy).line;
    var text := s[0..l.len];
    var reason := s[13..13 + line.reasonLen];
    assert forall k :: 0 <= k < |reason| ==> reason[k] == text[13 + k];
  }

  /** The parts of an accepted head are valid: tokens for names, trimmed text for values. */
  lemma AcceptedIsShapely(mode: Mode, s: seq<byte>, policy: Policy)
    requires mode != HeadersMode && policy.rejectObsFold
    requires mode == RequestMode ==> !policy.allowSpacesInUri
    requires OneShot(mode, s, MAX_HEADERS, policy).status == Ok
    ensures var o := OneShot(mode, s, MAX_HEADERS, policy);
            && LineInside(s, o.state.line) && ValidStart(StartAt(s, o.state.line))
            && ModeOf(StartAt(s, o.state.line)) == mode
            && |o.state.headers| <= MAX_HEADERS
            && forall i :: 0 <= i < |o.state.headers| ==> Shapely(FieldAt(s, o.state.headers[i]))
  {
    hide ParseRequestLine, ParseStatusLine, ParseBlock, LineInside, ValidStart, FieldAt, Inside, Shapely, Tiled;
    var r := ParseStartLine(mode, s, 0, policy);
    if mode == RequestMode {
      RequestStartValid(s, policy);
    } else {
      StatusStartValid(s, policy);
    }
    NothingTiles(s, r.end);
    var last := BlockTiles(s, r.end, r.end, [], MAX_HEADERS, policy);
    TiledShapely(s, r.end, last, OneShot(mode, s, MAX_HEADERS, policy).state.headers);
  }

  lemma NothingTiles(s: seq<byte>, at: nat)
    ensures Tiled(s, at, at, [])
  {
  }

  lemma PrintedOverlongStep(s: seq<byte>, pos: nat, f: Field, hs: seq<Header>, max: nat, policy: Policy)
    requires Shapely(f) && !Fits(f) && Carries(s, pos, FieldTextOf(f) + CRLF)
    ensures ParseBlock(s, pos, hs, max, policy).status == TooLong
  {
    hide FieldStep, FoldStep, Shapely;
    PrintedFieldParts(f);
    PrintedLine(s, pos, FieldTextOf(f), policy);
    assert s[pos] == FieldTextOf(f)[0];
  }

  /** A canonical block with a line over the limit is too long. */
  lemma {:induction false} PrintedOverlongBlock(s: seq<byte>, pos: nat, fs: seq<Field>, hs: seq<Header>, max: nat,
        policy: Policy)
    requires forall i :: 0 <= i < |fs| ==> Shapely(fs[i])
    requires exists i :: 0 <= i < |fs| && !Fits(fs[i])
    requires |hs| + |fs| <= max && Carries(s, pos, PrintFields(fs) + CRLF)
    ensures ParseBlock(s, pos, hs, max, policy).status == TooLong
    decreases |fs|
  {
    hide HeaderStep, ParseBlock, Shapely, Fits, FieldTextOf;
    var t := FieldTextOf(fs[0]) + CRLF;
    var rest := PrintFields(fs[1..]) + CRLF;
    assert PrintFields(fs) + CRLF == t + rest;
    CarriesParts(s, pos, t, rest);
    if Fits(fs[0]) {
      ShapelyAndFits(fs[0]);
      PrintedHeaderStep(s, pos, fs[0], hs, max, policy);
      BlockUnfolds(s, pos, hs, max, policy);
      var i :| 0 <= i < |fs| && !Fits(fs[i]);
      assert fs[1..][i - 1] == fs[i];
      PrintedOverlongBlock(s, pos + |t|, fs[1..], hs + [SpanOf(fs[0], pos)], max, policy);
    } else {
      PrintedOverlongStep(s, pos, fs[0], hs, max, policy);
    }
  }

  lemma ShapelyAndFits(f: Field)
    requires Shapely(f) && Fits(f)
    ensures ValidField(f)
  {
  }

  lemma PrintedOverlong(st: Start, fs: seq<Field>, rest: seq<byte>, policy: Policy)
    requires ValidStart(st) && |fs| <= MAX_HEADERS
    requires forall i :: 0 <= i < |fs| ==> Shapely(fs[i])
    requires exists i :: 0 <= i < |fs| && !Fits(fs[i])
    ensures OneShot(ModeOf(st), PrintHead(st, fs) + rest, MAX_HEADERS, policy).status == TooLong
  {
    hide ParseStartLine, ParseBlock, StartTextOf, ValidStart, Shapely, Fits, StartAt, LineInside;
    var s := PrintHead(st, fs) + rest;
    var a := StartTextOf(st) + CRLF;
    var b := PrintFields(fs) + CRLF;
    assert s == a + (b + rest);
    assert s[0..|s|] == s;
    assert Carries(s, 0, a + (b + rest));
    CarriesParts(s, 0, a, b + rest);
    CarriesParts(s, |a|, b, rest);
    PrintedStart(s, st, policy);
    PrintedOverlongBlock(s, |a|, fs, [], MAX_HEADERS, policy);
  }

  /** Canonicalising an accepted head changes none of its parts, exactly when every canonical
      header line keeps the limit. NoRoomForTheSpace below shows an accepted head where one does not. */
  lemma ReprintParsesTheSame(mode: Mode, s: seq<byte>, rest: seq<byte>, policy: Policy)
    requires mode != HeadersMode && policy.rejectObsFold
    requires mode == RequestMode ==> !policy.allowSpacesInUri
    requires OneShot(mode, s, MAX_HEADERS, policy).status == Ok
    ensures LineInside(s, OneShot(mode, s, MAX_HEADERS, policy).state.line)
    ensures ValidStart(StartAt(s, OneShot(mode, s, MAX_HEADERS, policy).state.line))
    ensures var o := OneShot(mode, s, MAX_HEADERS, policy);
            var st, fs := StartAt(s, o.state.line), FieldsAt(s, o.state.headers);
            var s2 := PrintHead(st, fs) + rest;
            var o2 := OneShot(mode, s2, MAX_HEADERS, policy);
            && (o2.status == Ok <==> forall i :: 0 <= i < |fs| ==> Fits(fs[i]))
            && (o2.status == Ok ==>
                  && o2.consumed == |PrintHead(st, fs)|
                  && LineInside(s2, o2.state.line) && StartAt(s2, o2.state.line) == st
                  && FieldsAt(s2, o2.state.headers) == fs)
  {
    hide OneShot, PrintHead, LineInside, StartAt, ValidStart, FieldAt, Shapely, Fits;
    AcceptedIsShapely(mode, s, policy);
    var o := OneShot(mode, s, MAX_HEADERS, policy);
    var st, fs := StartAt(s, o.state.line), FieldsAt(s, o.state.headers);
    if forall i :: 0 <= i < |fs| ==> Fits(fs[i]) {
      ParsePrinted(st, fs, rest, policy);
    } else {
      PrintedOverlong(st, fs, rest, policy);
    }
  }

  /** A line of exactly the limit whose CR but not LF has arrived is too long. */
  lemma CrAtLimit(s: seq<byte>, pos: nat, t: seq<byte>, policy: Policy)
    requires NoLf(t) && Carries(s, pos, t + [CR]) && |s| == pos + |t| + 1
    ensures LineAt(s, pos, policy).Unterminated?
    ensures s[pos] == (t + [CR])[0]
  {
    forall k | pos <= k < |s|
      ensures s[k] != LF
    {
      assert s[k] == (t + [CR])[k - pos];
    }
  }

  lemma AppendCarries(a: seq<byte>, b: seq<byte>)
    ensures Carries(a + b, |a|, b)
  {
  }

  /** What the parser makes of a line of text t behind the fields hs. */
  predicate TakesLine(t: seq<byte>, hs: seq<Header>, max: nat, policy: Policy)
    requires t != []
  {
    if IsLws(t[0]) then !policy.rejectObsFold && FoldStep(t, 0, 0, hs).Next?
    else FieldStep(t, 0, 0, hs, max).Next?
  }

  lemma TakenAnywhere(t: seq<byte>, pos: nat, next: nat, hs: seq<Header>, max: nat)
    ensures FieldStep(t, pos, next, hs, max).Next? <==> FieldStep(t, 0, 0, hs, max).Next?
    ensures FoldStep(t, pos, next, hs).Next? <==> FoldStep(t, 0, 0, hs).Next?
  {
  }

  lemma LimitLineSteps(s: seq<byte>, pos: nat, t: seq<byte>, hs: seq<Header>, max: nat, policy: Policy)
    requires NoLf(t) && 0 < |t| <= MAX_HEADER_LINE && Carries(s, pos, t + CRLF)
    ensures pos + |t| + 2 <= |s|
    ensures var step := HeaderStep(s, pos, hs, max, policy);
            && (step.Next? <==> TakesLine(t, hs, max, policy))
            && (step.Next? ==> step.pos == pos + |t| + 2)
            && (step.Stop? ==> step.status == Error || step.status == TooManyHeaders)
  {
    hide FieldStep, FoldStep, LineAt, NoLf, Carries;
    PrintedLine(s, pos, t, policy);
    assert s[pos] == s[pos..pos + |t|][0];
    TakenAnywhere(t, pos, pos + |t| + 2, hs, max);
  }

  lemma UnterminatedTooLong(s: seq<byte>, pos: nat, t: seq<byte>, hs: seq<Header>, max: nat, policy: Policy)
    requires NoLf(t) && |t| == MAX_HEADER_LINE
    requires Carries(s, pos, t + [CR]) && |s| == pos + MAX_HEADER_LINE + 1
    ensures ParseBlock(s, pos, hs, max, policy).status
            == if policy.rejectObsFold && IsLws(t[0]) then Error else TooLong
  {
    hide FieldStep, FoldStep, LineAt, NoLf;
    CrAtLimit(s, pos, t, policy);
  }

  lemma BlockUnfoldsStop(s: seq<byte>, pos: nat, hs: seq<Header>, max: nat, policy: Policy)
    requires pos < |s| && HeaderStep(s, pos, hs, max, policy).Stop?
    ensures ParseBlock(s, pos, hs, max, policy).status == HeaderStep(s, pos, hs, max, policy).status
  {
    hide HeaderStep;
  }

  /** The head so far: all its lines are complete, and the parser waits for a header line. */
  predicate AtLineStart(mode: Mode, head: seq<byte>, max: nat, policy: Policy) {
    var o := OneShot(mode, head, max, policy);
    o.status == Incomplete && o.state.phase == AtHeaders && o.state.cursor == |head|
  }

  /** Behind any head whose lines so far are complete, in every mode, and for every line of exactly
      the limit, fields with or without a space and continuations alike: with its CR but not yet its
      LF it is too long, unless folding is refused already; with both, the parser waits for more
      exactly when it takes the line. */
  lemma LimitLineRecovers(mode: Mode, head: seq<byte>, t: seq<byte>, max: nat, policy: Policy)
    requires AtLineStart(mode, head, max, policy)
    requires NoLf(t) && |t| == MAX_HEADER_LINE
    ensures OneShot(mode, head + (t + [CR]), max, policy).status
            == if policy.rejectObsFold && IsLws(t[0]) then Error else TooLong
    ensures var hs := OneShot(mode, head, max, policy).state.headers;
            var o := OneShot(mode, head + (t + CRLF), max, policy);
            && (o.status == Incomplete <==> TakesLine(t, hs, max, policy))
            && (o.status == Incomplete ==> AtLineStart(mode, head + (t + CRLF), max, policy))
            && (o.status != Incomplete ==> o.status == Error || o.status == TooManyHeaders)
  {
    hide OneShot, ParseBlock, HeaderStep, Carries, ParseStartLine, NoLf, TakesLine;
    var st := OneShot(mode, head, max, policy).state;
    var u, v := head + (t + [CR]), head + (t + CRLF);
    AppendCarries(head, t + [CR]);
    AppendCarries(head, t + CRLF);
    UnterminatedTooLong(u, |head|, t, st.headers, max, policy);
    ResumeAgrees(mode, head, u, max, policy);
    LimitLineSteps(v, |head|, t, st.headers, max, policy);
    ResumeAgrees(mode, head, v, max, policy);
    var step := HeaderStep(v, |head|, st.headers, max, policy);
    if step.Next? {
      BlockUnfolds(v, |head|, st.headers, max, policy);
      NothingLeft(v, step.headers, max, policy);
    } else {
      BlockUnfoldsStop(v, |head|, st.headers, max, policy);
    }
  }

  /** The parser takes the canonical line of a field while there is room. */
  lemma FieldLineIsTaken(f: Field, hs: seq<Header>, max: nat, policy: Policy)
    requires ValidField(f) && |hs| < max
    ensures var t := FieldTextOf(f); NoLf(t) && t != [] && !IsLws(t[0]) && TakesLine(t, hs, max, policy)
  {
    PrintedFieldParts(f);
    PrintedFieldStep(f, 0, 0, hs, max);
  }

  lemma NothingLeft(s: seq<byte>, hs: seq<Header>, max: nat, policy: Policy)
    ensures ParseBlock(s, |s|, hs, max, policy) == Block(Incomplete, |s|, hs)
  {
  }

  /** The same for every request line of exactly the limit, spaces in the target included. */
  lemma LimitRequestLineRecovers(t: seq<byte>, max: nat, policy: Policy)
    requires NoLf(t) && |t| == MAX_REQUEST_LINE
    ensures OneShot(RequestMode, t + [CR], max, policy).status == TooLong
    ensures var line := RequestLineOf(t, 0, policy);
            var o := OneShot(RequestMode, t + CRLF, max, policy);
            && (o.status == Incomplete <==> line.RequestLine?)
            && (o.status == Incomplete ==> o.state == HeadState(AtHeaders, MAX_REQUEST_LINE + 2, line, []))
            && (o.status != Incomplete ==> o.status == Error)
  {
    hide HeaderStep, RequestLineOf, LineAt, NoLf, Carries;
    var u, v := t + [CR], t + CRLF;
    AppendCarries([], u);
    AppendCarries([], v);
    assert [] + u == u && [] + v == v;
    CrAtLimit(u, 0, t, policy);
    PrintedLine(v, 0, t, policy);
    NothingLeft(v, [], max, policy);
  }

  // ----- an accepted head whose canonical form is too long

  /** A header line without the space. */
  function TightTextOf(f: Field): seq<byte> {
    f.name + [COLON] + f.value
  }

  lemma TightParts(f: Field)
    requires Shapely(f)
    ensures var t, n := TightTextOf(f), |f.name|;
            && NoLf(t) && t != [] && !IsLws(t[0])
            && Find(t, 0, |t|, COLON) == n && AllToken(t, 0, n)
            && SkipLws(t, n + 1, |t|) == n + 1 && TrimLws(t, n + 1, |t|) == |t|
            && AllText(t, n + 1, |t|)
  {
    var t, n := TightTextOf(f), |f.name|;
    assert forall k :: 0 <= k < n ==> t[k] == f.name[k];
    assert t[n] == COLON;
    assert forall k :: n + 1 <= k < |t| ==> t[k] == f.value[k - n - 1];
    if f.value != [] {
      assert t[n + 1] == f.value[0] && t[|t| - 1] == f.value[|f.value| - 1];
    }
  }

  function TightSpan(f: Field, pos: nat): Header {
    Header(pos, |f.name|, pos + |f.name| + 1, |f.value|)
  }

  lemma TightFieldStep(f: Field, pos: nat, next: nat)
    requires Shapely(f)
    ensures FieldStep(TightTextOf(f), pos, next, [], MAX_HEADERS) == Next(next, [TightSpan(f, pos)])
  {
    TightParts(f);
    assert [] + [TightSpan(f, pos)] == [TightSpan(f, pos)];
  }

  lemma TightStep(s: seq<byte>, pos: nat, f: Field, policy: Policy)
    requires Shapely(f) && |TightTextOf(f)| <= MAX_HEADER_LINE
    requires Carries(s, pos, TightTextOf(f) + CRLF)
    ensures pos + |TightTextOf(f)| + 2 <= |s|
    ensures HeaderStep(s, pos, [], MAX_HEADERS, policy)
            == Next(pos + |TightTextOf(f)| + 2, [TightSpan(f, pos)])
  {
    hide FieldStep, TightTextOf, Shapely, NoLf, LineAt, TightSpan;
    TightParts(f);
    PrintedLine(s, pos, TightTextOf(f), policy);
    TightFieldStep(f, pos, pos + |TightTextOf(f)| + 2);
    assert s[pos] == TightTextOf(f)[0];
  }

  /** A request or response with a single header line without the space. */
  function TightHead(st: Start, f: Field): seq<byte>
    requires ValidStart(st)
  {
    StartTextOf(st) + CRLF + (TightTextOf(f) + CRLF + CRLF)
  }

  /** A line of exactly the limit without a space behind the colon is accepted, but has no room for
      the canonical space: the canonical form of its head is too long. */
  lemma NoRoomForTheSpace(st: Start, f: Field, rest: seq<byte>, policy: Policy)
    requires ValidStart(st) && Shapely(f) && |TightTextOf(f)| == MAX_HEADER_LINE
    ensures var s := TightHead(st, f);
            var o := OneShot(ModeOf(st), s, MAX_HEADERS, policy);
            && o.status == Ok && o.consumed == |s|
            && LineInside(s, o.state.line) && StartAt(s, o.state.line) == st
            && FieldsAt(s, o.state.headers) == [f] && !Fits(f)
    ensures OneShot(ModeOf(st), PrintHead(st, [f]) + rest, MAX_HEADERS, policy).status == TooLong
  {
    hide OneShot, ParseStartLine, ParseBlock, StartTextOf, ValidStart, Shapely, StartAt, LineInside, PrintHead;
    assert !Fits([f][0]);
    PrintedOverlong(st, [f], rest, policy);
    TightAccepted(st, f, policy);
  }

  lemma TightAccepted(st: Start, f: Field, policy: Policy)
    requires ValidStart(st) && Shapely(f) && |TightTextOf(f)| == MAX_HEADER_LINE
    ensures var s := TightHead(st, f);
            var o := OneShot(ModeOf(st), s, MAX_HEADERS, policy);
            && o.status == Ok && o.consumed == |s|
            && LineInside(s, o.state.line) && StartAt(s, o.state.line) == st
            && FieldsAt(s, o.state.headers) == [f]
  {
    hide ParseStartLine, ParseBlock, HeaderStep, StartTextOf, ValidStart, Shapely, StartAt, LineInside, TightTextOf,
         FieldAt;
    var s := TightHead(st, f);
    var a, t := StartTextOf(st) + CRLF, TightTextOf(f) + CRLF;
    assert s == [] + s;
    AppendCarries([], s);
    CarriesParts(s, 0, a, t + CRLF);
    CarriesParts(s, |a|, t, CRLF);
    CarriesParts(s, |a|, TightTextOf(f), CRLF);
    PrintedStart(s, st, policy);
    TightStep(s, |a|, f, policy);
    BlockUnfolds(s, |a|, [], MAX_HEADERS, policy);
    PrintedEnd(s, |a| + |t|, [TightSpan(f, |a|)], MAX_HEADERS, policy);
    TightReadsBack(s, |a|, f);
  }

  lemma TightReadsBack(s: seq<byte>, pos: nat, f: Field)
    requires Carries(s, pos, TightTextOf(f))
    ensures FieldAt(s, TightSpan(f, pos)) == f
  {
    CarriesParts(s, pos, f.name + [COLON], f.value);
    CarriesParts(s, pos, f.name, [COLON]);
  }

  /** Such requests exist: a one-letter name and 8190 letters of text. */
  lemma NoRoomHappens(policy: Policy)
    ensures exists s ::
              var o := OneShot(RequestMode, s, MAX_HEADERS, policy);
              && o.status == Ok && LineInside(s, o.state.line) && ValidStart(StartAt(s, o.state.line))
              && var canonical := PrintHead(StartAt(s, o.state.line), FieldsAt(s, o.state.headers));
                 OneShot(RequestMode, canonical, MAX_HEADERS, policy).status == TooLong
  {
    hide OneShot, PrintHead, TightHead, LineInside, StartAt, FieldsAt;
    var st := RequestStart(GET, [47], Http11);
    var f := Field([97], Letters(MAX_HEADER_LINE - 2));
    LettersAreText(MAX_HEADER_LINE - 2);
    assert |TightTextOf(f)| == MAX_HEADER_LINE && Token(f.name);
    assert Token(st.verb);
    NoRoomForTheSpace(st, f, [], policy);
    assert PrintHead(st, [f]) + [] == PrintHead(st, [f]);
    var s := TightHead(st, f);
    assert OneShot(RequestMode, s, MAX_HEADERS, policy).status == Ok;
  }

  lemma LettersAreText(n: nat)
    ensures AllText(Letters(n), 0, |Letters(n)|) && Trimmed(Letters(n))
  {
  }
}
