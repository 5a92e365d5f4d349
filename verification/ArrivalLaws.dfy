/** What a connection hands up: the consumer of module Arrival takes the same requests as one that
    sees the whole stream, and exactly which lists of requests survive every arrival schedule. */
module ArrivalLaws {
  import opened Bytes
  import opened Types
  import opened HeadSpec
  import opened HeadRuns
  import opened HeadPrint
  import opened HeadReprint
  import opened SemanticsSpec
  import opened Pipeline
  import opened Arrival
  import opened ArrivalCuts
  import C = ChunkSpec
  import G = ChunkGrammar

  // ----- the whole stream at once

  lemma FreshMove(wire: seq<byte>, policy: Policy)
    ensures MoveOn(FRESH, wire, policy) == AfterHead(OneShot(RequestMode, wire, MAX_HEADERS, policy), wire, policy)
  {
    hide OneShot, MoveOn, AfterHead;
    FreshIsConsistent(policy);
    HeadingIsOneShot(FRESH, wire, policy);
    assert [] + wire == wire;
  }

  /** Reading a body after a head is two moves that end where TakeBody ends. */
  lemma BodyByMoves(wire: seq<byte>, start: Start, fields: seq<Field>, n: nat, policy: Policy)
    requires 0 < n <= |wire| && start.RequestStart?
    requires RequestAccepted(FactsOf(fields), start.version, policy.rejectTeCl)
    ensures LengthsOk(FactsOf(fields).cl)
    ensures var m := MoveOn(BodyOf(start, fields, policy), wire[n..], policy);
            var t := TakeBody(wire, start, fields, n);
            && (t.Got? ==> m == Go([t.r], FRESH, wire[t.used..]))
            && (t.Stuck? ==> m.Stay? && m.conn != FRESH)
  {
    hide FactsOf, RequestAccepted, RequestFraming, C.Run, OneShot, Advance;
    AcceptedLengths(FactsOf(fields), start.version, policy.rejectTeCl);
    var framing := RequestFraming(FactsOf(fields), start.version, 0);
    match framing.mode {
      case NoBody =>
        assert wire[n..][..0] == [] && wire[n..][0..] == wire[n..];
        assert [] + wire[n..][..0] == [];
      case FixedBody =>
        var k := framing.contentLength;
        if k <= |wire| - n {
          assert wire[n..][..k] == wire[n..n + k] && wire[n..][k..] == wire[n + k..];
          assert [] + wire[n..n + k] == wire[n..n + k];
        }
      case ChunkedBody =>
        var r := C.Run(C.Start(true), wire[n..]);
        if r.Complete? && r.used <= |wire| - n {
          assert wire[n..][r.used..] == wire[n + r.used..];
          assert [] + r.out == r.out;
        }
      case UntilClose =>
    }
  }

  /** One request of the stream is two moves of the connection. */
  lemma OneByMoves(wire: seq<byte>, policy: Policy)
    ensures var m := MoveOn(FRESH, wire, policy);
            var t := TakeOne(wire, policy);
            && (m.Stay? ==> t.Stuck? && (m.conn == FRESH <==> wire == []))
            && (m.Go? ==>
                  var m2 := MoveOn(m.conn, m.rest, policy);
                  && m.received == []
                  && (t.Got? ==> m2 == Go([t.r], FRESH, wire[t.used..]))
                  && (t.Stuck? ==> m2.Stay? && m2.conn != FRESH && wire != []))
  {
    hide OneShot, MoveOn, FactsOf, RequestAccepted, StartAt, FieldsAt, LineInside, BodyOf, TakeBody;
    FreshMove(wire, policy);
    FreshAlone(policy);
    var o := OneShot(RequestMode, wire, MAX_HEADERS, policy);
    var m := MoveOn(FRESH, wire, policy);
    if m.Go? {
      var start, fields := StartAt(wire, o.state.line), FieldsAt(wire, o.state.headers);
      if start.RequestStart? && RequestAccepted(FactsOf(fields), start.version, policy.rejectTeCl) {
        BodyByMoves(wire, start, fields, o.consumed, policy);
      } else {
        NoBodyBreaks(start, fields, policy);
        BrokenStays(m.rest, policy);
      }
    }
  }

  lemma FreshAlone(policy: Policy)
    ensures OneShot(RequestMode, [], MAX_HEADERS, policy) == Outcome(Incomplete, Initial(RequestMode), 0)
  {
  }

  lemma NoBodyBreaks(start: Start, fields: seq<Field>, policy: Policy)
    requires !(start.RequestStart? && RequestAccepted(FactsOf(fields), start.version, policy.rejectTeCl))
    ensures BodyOf(start, fields, policy) == Broken
  {
  }

  /** On any octets at all, well formed or not, a fresh connection hands up exactly the requests
      that the loop over the whole stream takes, and it is fresh again exactly when that loop
      leaves nothing over. */
  lemma {:induction false} ArriveIsDrain(wire: seq<byte>, policy: Policy)
    ensures Arrive(FRESH, wire, policy).received == Drain(wire, policy).received
    ensures Arrive(FRESH, wire, policy).conn == FRESH <==> Drain(wire, policy).rest == []
    decreases |wire|
  {
    hide MoveOn, Arrive, TakeOne, Drain, Behind;
    var m := MoveOn(FRESH, wire, policy);
    var t := TakeOne(wire, policy);
    OneByMoves(wire, policy);
    ArriveUnfolds(FRESH, wire, policy);
    DrainUnfolds(wire, policy);
    if m.Go? {
      ArriveUnfolds(m.conn, m.rest, policy);
      var m2 := MoveOn(m.conn, m.rest, policy);
      if t.Got? {
        var later := Arrive(FRESH, wire[t.used..], policy);
        ArriveIsDrain(wire[t.used..], policy);
        BehindTwice([], [t.r], later);
        assert [] + [t.r] == [t.r];
        BehindKeepsConn([t.r], later);
      } else {
        BehindTwice([], [], Progress(m2.conn, []));
      }
    }
  }

  /** And so it does however they arrive, unless a piece ends between the CR and the LF of a head
      line of exactly the limit. */
  lemma PiecesMatchDrain(pieces: seq<seq<byte>>, policy: Policy)
    requires pieces != []
    requires forall k :: 0 < k < |pieces| ==> !CutsLine(FRESH, C.Flatten(pieces[..k]), C.Flatten(pieces[k..]), policy)
    ensures var p, d := ArriveAll(FRESH, pieces, policy), Drain(C.Flatten(pieces), policy);
            p.received == d.received && (p.conn == FRESH <==> d.rest == [])
  {
    hide Arrive, ArriveAll, Drain, Consistent, Tight, HeadAt, C.Flatten;
    FreshIsConsistent(policy);
    forall k | 0 < k < |pieces|
      ensures !BadBoundary(FRESH, pieces, k, policy)
    {
    }
    AnySchedule(FRESH, pieces, policy);
    ArriveIsDrain(C.Flatten(pieces), policy);
  }

  /** In particular all of a serialised list. */
  lemma WholeListArrives(ms: seq<Message>, policy: Policy)
    requires AllWellFormed(ms, policy)
    ensures Arrive(FRESH, SerializeAll(ms, policy), policy) == Progress(FRESH, AllReceived(ms, policy))
  {
    hide Arrive, Drain, SerializeAll, WellFormed, ReceivedOf;
    PipelineRoundTrip(ms, policy);
    ArriveIsDrain(SerializeAll(ms, policy), policy);
  }

  // ----- partial messages

  /** No line of the head takes up its whole limit. */
  predicate Roomy(m: Message)
    requires ValidStart(m.start)
  {
    && |StartTextOf(m.start)| < MAX_REQUEST_LINE
    && forall k :: 0 <= k < |m.fields| ==> |FieldTextOf(m.fields[k])| < MAX_HEADER_LINE
  }

  predicate AllRoomy(ms: seq<Message>, policy: Policy)
    requires AllWellFormed(ms, policy)
  {
    forall k :: 0 <= k < |ms| ==> Roomy(ms[k])
  }

  /** Part of a line, perhaps with its CR, is unfinished. */
  lemma PartialLine(s: seq<byte>, pos: nat, t: seq<byte>, policy: Policy)
    requires NoLf(t) && pos < |s| && s[pos..] <= t + CRLF && |s| - pos < |t| + 2
    ensures LineAt(s, pos, policy).Unterminated?
    ensures t != [] ==> s[pos] == t[0]
    ensures t == [] ==> s[pos] == CR
  {
    forall k | pos <= k < |s|
      ensures s[k] == (t + CRLF)[k - pos] != LF
    {
      assert s[k] == s[pos..][k - pos];
    }
  }

  /** A header section cut off anywhere is incomplete. */
  lemma {:induction false} PartialBlock(s: seq<byte>, pos: nat, fs: seq<Field>, hs: seq<Header>, max: nat,
                                        policy: Policy)
    requires ValidFields(fs) && |hs| + |fs| <= max
    requires forall k :: 0 <= k < |fs| ==> |FieldTextOf(fs[k])| < MAX_HEADER_LINE
    requires pos <= |s| && s[pos..] < PrintFields(fs) + CRLF
    ensures ParseBlock(s, pos, hs, max, policy).status == Incomplete
    decreases |fs|
  {
    hide HeaderStep, ValidField, FieldTextOf, ParseBlock, SpansOf, PrintFields, Carries, NoLf;
    if pos == |s| {
      NothingLeft(s, hs, max, policy);
    } else if fs == [] {
      NoFieldsPrinted(pos);
      assert [] + CRLF == CRLF;
      EmptyNoLf();
      PartialLineStops(s, pos, [], hs, max, policy);
    } else {
      FieldsUnfold(fs, pos);
      var t := FieldTextOf(fs[0]) + CRLF;
      var rest := PrintFields(fs[1..]) + CRLF;
      ValidIsShapely(fs[0]);
      PrintedFieldParts(fs[0]);
      if |s| - pos < |t| {
        PrefixOfFirst(s[pos..], t, rest);
        PartialLineStops(s, pos, FieldTextOf(fs[0]), hs, max, policy);
      } else {
        PrefixPastFirst(s, pos, t, rest);
        PrintedHeaderStep(s, pos, fs[0], hs, max, policy);
        BlockUnfolds(s, pos, hs, max, policy);
        PartialBlock(s, pos + |t|, fs[1..], hs + [SpanOf(fs[0], pos)], max, policy);
      }
    }
  }

  lemma EmptyNoLf()
    ensures NoLf([])
  {
  }

  lemma ValidIsShapely(f: Field)
    requires ValidField(f)
    ensures Shapely(f)
  {
  }

  lemma PrefixOfFirst(p: seq<byte>, t: seq<byte>, rest: seq<byte>)
    requires p <= t + rest && |p| <= |t|
    ensures p <= t
  {
    assert (t + rest)[..|p|] == t[..|p|];
  }

  lemma PrefixPastFirst(s: seq<byte>, pos: nat, t: seq<byte>, rest: seq<byte>)
    requires pos + |t| <= |s| && s[pos..] < t + rest
    ensures Carries(s, pos, t) && s[pos + |t|..] < rest
  {
    var p := s[pos..];
    assert p[..|t|] == (t + rest)[..|t|] == t;
    assert s[pos..pos + |t|] == p[..|t|];
    assert s[pos + |t|..] == p[|t|..] == (t + rest)[|t|..|p|] == rest[..|p| - |t|];
  }

  lemma PartialLineStops(s: seq<byte>, pos: nat, t: seq<byte>, hs: seq<Header>, max: nat, policy: Policy)
    requires NoLf(t) && (t != [] ==> !IsLws(t[0])) && |t| < MAX_HEADER_LINE
    requires pos < |s| && s[pos..] <= t + CRLF && |s| - pos < |t| + 2
    ensures ParseBlock(s, pos, hs, max, policy).status == Incomplete
  {
    hide LineAt, FieldStep, FoldStep, NoLf;
    PartialLine(s, pos, t, policy);
  }

  /** So is a whole head cut off anywhere. */
  lemma PartialHead(m: Message, p: seq<byte>, policy: Policy)
    requires WellFormed(m, policy) && Roomy(m) && p < PrintHead(m.start, m.fields)
    ensures OneShot(RequestMode, p, MAX_HEADERS, policy).status == Incomplete
  {
    hide ParseBlock, ParseRequestLine, StartTextOf, ValidStart, ValidField, FieldTextOf, StartAt, LineInside, Carries,
         RequestAccepted, RequestFraming, FactsOf, NoLf;
    var t := StartTextOf(m.start);
    var a, b := t + CRLF, PrintFields(m.fields) + CRLF;
    assert PrintHead(m.start, m.fields) == a + b;
    assert p[0..] == p;
    if |p| < |a| {
      PrefixOfFirst(p, a, b);
      PrintedRequestParts(m.start);
      PartialRequestLine(p, t, policy);
    } else {
      PrefixPastFirst(p, 0, a, b);
      PrintedStart(p, m.start, policy);
      PartialBlock(p, |a|, m.fields, [], MAX_HEADERS, policy);
    }
  }

  lemma PartialRequestLine(p: seq<byte>, t: seq<byte>, policy: Policy)
    requires NoLf(t) && |t| < MAX_REQUEST_LINE && p <= t + CRLF && |p| < |t| + 2
    ensures ParseRequestLine(p, 0, policy).status == Incomplete
  {
    hide LineAt, NoLf, RequestLineOf;
    assert p[0..] == p;
    if p != [] {
      PartialLine(p, 0, t, policy);
    } else {
      EmptyLine(policy);
    }
  }

  lemma EmptyLine(policy: Policy)
    ensures LineAt([], 0, policy).Unterminated?
  {
  }

  /** A chunked body cut off anywhere asks for more. */
  lemma PartialChunks(e: G.Encoding, q: seq<byte>)
    requires G.Valid(e, true) && q < G.Wire(e, true)
    ensures C.Run(C.Start(true), q).Need?
  {
    hide C.Run, G.Wire, G.Valid;
    var wire := G.Wire(e, true);
    var rest := wire[|q|..];
    assert wire == q + rest && wire + [] == wire;
    G.SentenceCompletes(e, true, []);
    C.RunSplit(C.Start(true), q, rest);
    C.SoundRun(C.Start(true), q);
  }

  /** A head followed by part of its body leads into the body. */
  lemma HeadThenMore(m: Message, q: seq<byte>, policy: Policy)
    requires WellFormed(m, policy)
    ensures MoveOn(FRESH, PrintHead(m.start, m.fields) + q, policy) == Go([], BodyOf(m.start, m.fields, policy), q)
  {
    hide OneShot, MoveOn, FactsOf, RequestAccepted, RequestFraming, PrintHead, StartAt, FieldsAt, LineInside,
         ValidStart, ValidFields, BodyOf, G.Valid;
    var head := PrintHead(m.start, m.fields);
    ParsePrinted(m.start, m.fields, q, policy);
    PrintedIsNonEmpty(m.start, m.fields);
    FreshMove(head + q, policy);
    assert (head + q)[|head|..] == q;
  }

  lemma BodyWaits(m: Message, q: seq<byte>, policy: Policy)
    requires WellFormed(m, policy) && q < BodyWire(m.body)
    ensures var move := MoveOn(BodyOf(m.start, m.fields, policy), q, policy);
            move.Stay? && !move.conn.Broken?
  {
    hide FactsOf, RequestAccepted, RequestFraming, ValidStart, ValidFields, C.Run, G.Wire, G.Valid, OneShot, Advance;
    if m.body.Encoded? {
      PartialChunks(m.body.encoding, q);
    }
  }

  /** A message cut off anywhere waits for the rest. */
  lemma PartialMessage(m: Message, p: seq<byte>, policy: Policy)
    requires WellFormed(m, policy) && Roomy(m) && p < Serialize(m)
    ensures !Arrive(FRESH, p, policy).conn.Broken?
  {
    hide OneShot, MoveOn, Arrive, PrintHead, WellFormed, BodyWire, Roomy, Behind;
    WellFormedStart(m, policy);
    var head, body := PrintHead(m.start, m.fields), BodyWire(m.body);
    ArriveUnfolds(FRESH, p, policy);
    if |p| < |head| {
      PrefixOfFirst(p, head, body);
      PartialHead(m, p, policy);
      FreshMove(p, policy);
      HeadStays(p, policy);
      IncompleteStays(p, policy);
    } else {
      assert p[0..] == p && 0 + |head| == |head|;
      PrefixPastFirst(p, 0, head, body);
      var q := p[|head|..];
      assert p == head + q;
      HeadThenMore(m, q, policy);
      BodyWaits(m, q, policy);
      var c := BodyOf(m.start, m.fields, policy);
      ArriveUnfolds(c, q, policy);
      BehindKeepsConn([], Arrive(c, q, policy));
    }
  }

  lemma WellFormedStart(m: Message, policy: Policy)
    requires WellFormed(m, policy)
    ensures ValidStart(m.start) && ValidFields(m.fields) && m.start.RequestStart? && |m.fields| <= MAX_HEADERS
  {
  }

  lemma IncompleteStays(u: seq<byte>, policy: Policy)
    requires OneShot(RequestMode, u, MAX_HEADERS, policy).status == Incomplete
    ensures var m := AfterHead(OneShot(RequestMode, u, MAX_HEADERS, policy), u, policy); m.Stay? && m.conn.Heading?
  {
    hide OneShot;
  }

  /** A whole message in front is handed up, and the connection starts afresh behind it. */
  lemma MessageThenMore(m: Message, rest: seq<byte>, policy: Policy)
    requires WellFormed(m, policy)
    ensures Arrive(FRESH, Serialize(m) + rest, policy)
            == Behind([ReceivedOf(m, policy)], Arrive(FRESH, rest, policy))
  {
    hide MoveOn, Arrive, TakeOne, WellFormed, ReceivedOf, Behind, Serialize;
    WellFormedStart(m, policy);
    var wire := Serialize(m) + rest;
    OneMessage(m, rest, policy);
    OneByMoves(wire, policy);
    ArriveUnfolds(FRESH, wire, policy);
    var move := MoveOn(FRESH, wire, policy);
    ArriveUnfolds(move.conn, move.rest, policy);
    assert wire[|Serialize(m)|..] == rest;
    BehindTwice([], [ReceivedOf(m, policy)], Arrive(FRESH, rest, policy));
    assert [] + [ReceivedOf(m, policy)] == [ReceivedOf(m, policy)];
  }

  lemma {:induction false} PartialList(ms: seq<Message>, p: seq<byte>, policy: Policy)
    requires AllWellFormed(ms, policy) && AllRoomy(ms, policy) && p <= SerializeAll(ms, policy)
    ensures !Arrive(FRESH, p, policy).conn.Broken?
    decreases |ms|
  {
    hide Arrive, WellFormed, Serialize, SerializeAll, Roomy, ReceivedOf, Behind;
    if ms == [] {
      NothingSerialized(ms, policy);
      assert p == [];
      NothingArrives(policy);
    } else {
      SerializeUnfolds(ms, policy);
      var first, rest := SerializeFirst(ms, policy), SerializeAll(ms[1..], policy);
      if |p| < |first| {
        PrefixOfFirst(p, first, rest);
        PartialMessage(ms[0], p, policy);
      } else {
        var q := p[|first|..];
        assert p == p[..|first|] + q && p[..|first|] == (first + rest)[..|first|] == first;
        assert q == (first + rest)[|first|..][..|q|] && (first + rest)[|first|..] == rest;
        MessageThenMore(ms[0], q, policy);
        BehindKeepsConn([ReceivedOf(ms[0], policy)], Arrive(FRESH, q, policy));
        PartialList(ms[1..], q, policy);
      }
    }
  }

  lemma NothingArrives(policy: Policy)
    ensures Arrive(FRESH, [], policy) == Progress(FRESH, [])
  {
    hide MoveOn, OneShot;
    FreshMove([], policy);
    FreshAlone(policy);
    ArriveUnfolds(FRESH, [], policy);
  }

  // ----- lines of exactly the limit

  /** Complete header lines without the empty line leave the parser waiting behind them. */
  lemma {:induction false} OpenBlock(s: seq<byte>, pos: nat, fs: seq<Field>, hs: seq<Header>, max: nat, policy: Policy)
    requires ValidFields(fs) && |hs| + |fs| <= max
    requires pos <= |s| && s[pos..] == PrintFields(fs)
    ensures ParseBlock(s, pos, hs, max, policy) == Block(Incomplete, |s|, hs + SpansOf(fs, pos))
    decreases |fs|
  {
    hide HeaderStep, ValidField, FieldTextOf, ParseBlock, SpansOf, PrintFields, Carries;
    if fs == [] {
      NoFieldsPrinted(pos);
      NothingLeft(s, hs, max, policy);
      assert hs + [] == hs;
    } else {
      FieldsUnfold(fs, pos);
      var t := FieldTextOf(fs[0]) + CRLF;
      FieldsFront(fs);
      FrontOf(s, pos, t, PrintFields(fs[1..]));
      PrintedHeaderStep(s, pos, fs[0], hs, max, policy);
      BlockUnfolds(s, pos, hs, max, policy);
      var hs' := hs + [SpanOf(fs[0], pos)];
      OpenBlock(s, pos + |t|, fs[1..], hs', max, policy);
      assert hs' + SpansOf(fs[1..], pos + |t|) == hs + ([SpanOf(fs[0], pos)] + SpansOf(fs[1..], pos + |t|));
    }
  }

  lemma FieldsFront(fs: seq<Field>)
    requires fs != []
    ensures PrintFields(fs) == FieldTextOf(fs[0]) + CRLF + PrintFields(fs[1..])
  {
    hide FieldTextOf;
  }

  lemma FrontOf(s: seq<byte>, pos: nat, t: seq<byte>, rest: seq<byte>)
    requires pos <= |s| && s[pos..] == t + rest
    ensures pos + |t| <= |s| && Carries(s, pos, t) && s[pos + |t|..] == rest
  {
    assert s[pos..pos + |t|] == s[pos..][..|t|];
    assert s[pos + |t|..] == s[pos..][|t|..];
  }

  lemma OpenHead(st: Start, fs: seq<Field>, policy: Policy)
    requires ValidStart(st) && st.RequestStart? && ValidFields(fs) && |fs| < MAX_HEADERS
    ensures var s := StartTextOf(st) + CRLF + PrintFields(fs);
            var o := OneShot(RequestMode, s, MAX_HEADERS, policy);
            && o.status == Incomplete && o.state.phase == AtHeaders && o.state.cursor == |s|
            && |o.state.headers| == |fs|
  {
    hide ParseBlock, ParseRequestLine, StartTextOf, ValidStart, ValidField, PrintFields, StartAt, LineInside;
    var a := StartTextOf(st) + CRLF;
    var s := a + PrintFields(fs);
    assert Carries(s, 0, a);
    assert s[|a|..] == PrintFields(fs);
    hide Carries;
    PrintedStart(s, st, policy);
    OpenBlock(s, |a|, fs, [], MAX_HEADERS, policy);
    assert [] + SpansOf(fs, |a|) == SpansOf(fs, |a|);
  }

  lemma {:induction false} FieldsAround(fs: seq<Field>, k: nat)
    requires k < |fs|
    ensures PrintFields(fs[..k]) + (FieldTextOf(fs[k]) + CRLF) <= PrintFields(fs)
    decreases k
  {
    hide FieldTextOf, PrintFields;
    FieldsFront(fs);
    if k == 0 {
      assert fs[..0] == [];
      NoFieldsPrinted(0);
      assert [] + (FieldTextOf(fs[0]) + CRLF) == FieldTextOf(fs[0]) + CRLF;
    } else {
      FieldsAround(fs[1..], k - 1);
      FieldsFront(fs[..k]);
      assert fs[..k][0] == fs[0] && fs[..k][1..] == fs[1..][..k - 1] && fs[1..][k - 1] == fs[k];
      PrefixUnder(FieldTextOf(fs[0]) + CRLF, PrintFields(fs[1..][..k - 1]), FieldTextOf(fs[k]) + CRLF,
                  PrintFields(fs[1..]));
    }
  }

  lemma PrefixUnder(a: seq<byte>, b: seq<byte>, c: seq<byte>, d: seq<byte>)
    requires b + c <= d
    ensures a + b + c <= a + d
  {
    assert a + b + c == a + (b + c);
  }

  /** A head with a line of exactly the limit, cut between the CR and the LF of that line. */
  lemma TightHeadBreaks(m: Message, policy: Policy) returns (p: seq<byte>)
    requires WellFormed(m, policy) && ValidStart(m.start) && !Roomy(m)
    ensures p <= PrintHead(m.start, m.fields)
    ensures OneShot(RequestMode, p, MAX_HEADERS, policy).status == TooLong
  {
    hide OneShot, StartTextOf, FieldTextOf, PrintFields, ValidStart, RequestAccepted, RequestFraming, FactsOf, Shapely;
    var t := StartTextOf(m.start);
    if |t| >= MAX_REQUEST_LINE {
      PrintedRequestFits(m.start);
      PrintedRequestParts(m.start);
      LimitRequestLineRecovers(t, MAX_HEADERS, policy);
      p := t + [CR];
      assert PrintHead(m.start, m.fields) == p + ([LF] + PrintFields(m.fields) + CRLF);
    } else {
      var k :| 0 <= k < |m.fields| && |FieldTextOf(m.fields[k])| >= MAX_HEADER_LINE;
      var f, front := m.fields[k], m.fields[..k];
      assert ValidField(f);
      FieldTextLength(f);
      OpenHead(m.start, front, policy);
      var head := t + CRLF + PrintFields(front);
      FieldLineIsTaken(f, OneShot(RequestMode, head, MAX_HEADERS, policy).state.headers, MAX_HEADERS, policy);
      LimitLineRecovers(RequestMode, head, FieldTextOf(f), MAX_HEADERS, policy);
      p := head + (FieldTextOf(f) + [CR]);
      FieldsAround(m.fields, k);
      CrOfLine(t + CRLF, PrintFields(front), FieldTextOf(f), PrintFields(m.fields));
    }
  }

  lemma FieldTextLength(f: Field)
    ensures |FieldTextOf(f)| == |f.name| + 2 + |f.value|
  {
  }

  lemma CrOfLine(a: seq<byte>, b: seq<byte>, c: seq<byte>, d: seq<byte>)
    requires b + (c + CRLF) <= d
    ensures a + b + (c + [CR]) <= a + d + CRLF
  {
    assert c + CRLF == c + [CR] + [LF];
    assert b + (c + [CR]) == (b + (c + CRLF))[..|b| + |c| + 1] == d[..|b| + |c| + 1];
    assert a + b + (c + [CR]) == a + (b + (c + [CR]));
  }

  lemma TooLongBreaks(p: seq<byte>, policy: Policy)
    requires OneShot(RequestMode, p, MAX_HEADERS, policy).status == TooLong
    ensures Arrive(FRESH, p, policy) == Progress(Broken, [])
  {
    hide OneShot, MoveOn;
    FreshMove(p, policy);
    ArriveUnfolds(FRESH, p, policy);
  }

  /** A list with such a head has a prefix that breaks the connection. */
  lemma {:induction false} TightListBreaks(ms: seq<Message>, policy: Policy) returns (p: seq<byte>)
    requires AllWellFormed(ms, policy) && !AllRoomy(ms, policy)
    ensures p <= SerializeAll(ms, policy) && Arrive(FRESH, p, policy).conn.Broken?
    decreases |ms|
  {
    hide Arrive, WellFormed, SerializeAll, Roomy, ReceivedOf, Behind, PrintHead, BodyWire, OneShot;
    SerializeUnfolds(ms, policy);
    WellFormedStart(ms[0], policy);
    var first, rest := SerializeFirst(ms, policy), SerializeAll(ms[1..], policy);
    if Roomy(ms[0]) {
      RoomyRest(ms, policy);
      var q := TightListBreaks(ms[1..], policy);
      p := first + q;
      MessageThenMore(ms[0], q, policy);
      BehindKeepsConn([ReceivedOf(ms[0], policy)], Arrive(FRESH, q, policy));
    } else {
      p := TightHeadBreaks(ms[0], policy);
      TooLongBreaks(p, policy);
      PrefixGrows(p, PrintHead(ms[0].start, ms[0].fields), BodyWire(ms[0].body), rest);
    }
  }

  lemma RoomyRest(ms: seq<Message>, policy: Policy)
    requires ms != [] && AllWellFormed(ms, policy)
    requires ValidStart(ms[0].start) && Roomy(ms[0])
    ensures AllRoomy(ms[1..], policy) ==> AllRoomy(ms, policy)
  {
    hide WellFormed, Roomy;
    assert forall k :: 0 < k < |ms| ==> ms[k] == ms[1..][k - 1];
  }

  lemma PrefixGrows(p: seq<byte>, a: seq<byte>, b: seq<byte>, c: seq<byte>)
    requires p <= a
    ensures p <= a + b + c
  {
    assert (a + b + c)[..|p|] == a[..|p|];
  }

  // ----- the main result

  /** The pieces in order are the serialised list, and there is at least one. */
  predicate Cuts(pieces: seq<seq<byte>>, ms: seq<Message>, policy: Policy)
    requires AllWellFormed(ms, policy)
  {
    pieces != [] && C.Flatten(pieces) == SerializeAll(ms, policy)
  }

  lemma RoomyArrives(ms: seq<Message>, pieces: seq<seq<byte>>, policy: Policy)
    requires AllWellFormed(ms, policy) && AllRoomy(ms, policy) && Cuts(pieces, ms, policy)
    ensures ArriveAll(FRESH, pieces, policy) == Progress(FRESH, AllReceived(ms, policy))
  {
    hide Arrive, ArriveAll, WellFormed, SerializeAll, ReceivedOf, Roomy, Consistent, Tight, HeadAt, C.Flatten;
    FreshIsConsistent(policy);
    forall k | 0 < k < |pieces|
      ensures !BadBoundary(FRESH, pieces, k, policy)
    {
      var x := C.Flatten(pieces[..k]);
      FlattenCut(pieces, k);
      PartialList(ms, x, policy);
      if CutsLine(FRESH, x, C.Flatten(pieces[k..]), policy) {
        TightCut(FRESH, x, policy);
      }
    }
    AnySchedule(FRESH, pieces, policy);
    WholeListArrives(ms, policy);
  }

  lemma TwoPieces(a: seq<byte>, b: seq<byte>)
    ensures C.Flatten([a, b]) == a + b
  {
    assert [a, b][1..] == [b];
    assert C.Flatten([b]) == b + C.Flatten([]);
    assert b + [] == b;
  }

  lemma TightGetsStuck(ms: seq<Message>, policy: Policy) returns (pieces: seq<seq<byte>>)
    requires AllWellFormed(ms, policy) && !AllRoomy(ms, policy)
    ensures Cuts(pieces, ms, policy) && ArriveAll(FRESH, pieces, policy).conn.Broken?
  {
    hide Arrive, WellFormed, SerializeAll, ReceivedOf, Roomy, Behind;
    var p := TightListBreaks(ms, policy);
    var wire := SerializeAll(ms, policy);
    var rest := wire[|p|..];
    pieces := [p, rest];
    assert wire == p + rest;
    TwoPieces(p, rest);
    assert pieces[1..] == [rest];
    BrokenForGood([rest], policy);
    BehindKeepsConn(Arrive(FRESH, p, policy).received, Progress(Broken, []));
  }

  /** Pipelining under every arrival schedule: a list of well-formed requests is handed up whole,
      with the connection fresh again, however its octets are cut into pieces, if and only if no
      request line and no header line takes up its whole limit. Such a line is refused when a piece
      ends between its CR and its LF. */
  lemma EveryScheduleDelivers(ms: seq<Message>, policy: Policy)
    requires AllWellFormed(ms, policy)
    ensures AllRoomy(ms, policy) <==>
            forall pieces :: Cuts(pieces, ms, policy) ==>
                               ArriveAll(FRESH, pieces, policy) == Progress(FRESH, AllReceived(ms, policy))
  {
    hide ArriveAll, WellFormed, Roomy, Cuts, ReceivedOf;
    if AllRoomy(ms, policy) {
      forall pieces | Cuts(pieces, ms, policy)
        ensures ArriveAll(FRESH, pieces, policy) == Progress(FRESH, AllReceived(ms, policy))
      {
        RoomyArrives(ms, pieces, policy);
      }
    } else {
      var pieces := TightGetsStuck(ms, policy);
      assert Cuts(pieces, ms, policy);
    }
  }
}
