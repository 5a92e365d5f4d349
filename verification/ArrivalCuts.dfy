/** Which cuts of the arriving octets matter: a connection fed piece by piece behaves as if fed the
    whole, except when a piece ends between the CR and the LF of a head line of exactly the limit. */
module ArrivalCuts {
  import opened Bytes
  import opened Types
  import opened HeadSpec
  import opened HeadRuns
  import opened HeadPrint
  import opened HeadReprint
  import opened Pipeline
  import opened Arrival
  import C = ChunkSpec

  // ----- the head in progress

  /** The octets of the head that a connection is reading when `data` has arrived. */
  function HeadAt(c: Conn, data: seq<byte>, policy: Policy): seq<byte>
    decreases Backlog(c) + |data|, if c.Heading? then 0 else 1
  {
    match MoveOn(c, data, policy)
    case Stay(_) => if c.Heading? then c.buffer + data else []
    case Go(_, c', rest) => HeadAt(c', rest, policy)
  }

  /** A head that ends with the CR of a line of exactly the limit: too long as it stands, and
      waiting for more once the LF is there. */
  ghost predicate Tight(head: seq<byte>, policy: Policy) {
    && OneShot(RequestMode, head, MAX_HEADERS, policy).status == TooLong
    && OneShot(RequestMode, head + [LF], MAX_HEADERS, policy).status == Incomplete
  }

  /** The cut between a and b is the one between the CR and the LF of such a line. */
  ghost predicate CutsLine(c: Conn, a: seq<byte>, b: seq<byte>, policy: Policy) {
    Tight(HeadAt(c, a, policy), policy) && b != [] && b[0] == LF
  }

  lemma HeadAtUnfolds(c: Conn, data: seq<byte>, policy: Policy)
    ensures var m := MoveOn(c, data, policy);
            && (m.Stay? ==> HeadAt(c, data, policy) == if c.Heading? then c.buffer + data else [])
            && (m.Go? ==> HeadAt(c, data, policy) == HeadAt(m.conn, m.rest, policy))
  {
    hide MoveOn;
  }

  /** The last limit-plus-one octets of x hold no LF and end in CR. */
  predicate EndsLongLine(x: seq<byte>) {
    && |x| > MAX_HEADER_LINE && x[|x| - 1] == CR
    && forall k :: |x| - MAX_HEADER_LINE - 1 <= k < |x| ==> x[k] != LF
  }

  lemma TightEndsLongLine(u: seq<byte>, policy: Policy)
    requires Tight(u, policy)
    ensures EndsLongLine(u)
  {
    hide OneShot, StoppedAt, EndsBare;
    TooLongRecovers(RequestMode, u, u + [LF], MAX_HEADERS, policy);
  }

  /** The octets of the stream that the connection has not left behind. */
  function Octets(c: Conn, data: seq<byte>): seq<byte> {
    if c.Heading? then c.buffer + data else data
  }

  lemma HeadRest(o: Outcome, all: seq<byte>, policy: Policy)
    requires AfterHead(o, all, policy).Go?
    ensures var rest := AfterHead(o, all, policy).rest; |rest| <= |all| && rest == all[|all| - |rest|..]
  {
    hide BodyOf, LineInside, StartAt, FieldsAt;
  }

  lemma MoveRest(c: Conn, data: seq<byte>, policy: Policy)
    requires MoveOn(c, data, policy).Go?
    ensures var m := MoveOn(c, data, policy);
            var all := Octets(c, data);
            Octets(m.conn, m.rest) == m.rest && |m.rest| <= |all| && m.rest == all[|all| - |m.rest|..]
  {
    hide AfterHead, Advance, C.Run, CursorFits;
    var m := MoveOn(c, data, policy);
    assert [] + m.rest == m.rest;
    if c.Heading? {
      var all := c.buffer + data;
      HeadRest(Advance(RequestMode, c.state, all, MAX_HEADERS, policy), all, policy);
    }
  }

  lemma {:induction false} HeadIsSuffix(c: Conn, data: seq<byte>, policy: Policy)
    ensures var u, all := HeadAt(c, data, policy), Octets(c, data);
            |u| <= |all| && u == all[|all| - |u|..]
    decreases Backlog(c) + |data|, if c.Heading? then 0 else 1
  {
    hide MoveOn, HeadAt;
    HeadAtUnfolds(c, data, policy);
    var m := MoveOn(c, data, policy);
    if m.Go? {
      MoveRest(c, data, policy);
      HeadIsSuffix(m.conn, m.rest, policy);
    }
  }

  /** On the octets alone: more than the limit since the last LF, then a CR, and an LF first in
      the next piece. */
  predicate LongLineCut(c: Conn, a: seq<byte>, b: seq<byte>) {
    EndsLongLine(Octets(c, a)) && b != [] && b[0] == LF
  }

  /** A caller sees the cut that matters in the octets themselves. */
  lemma CutIsVisible(c: Conn, a: seq<byte>, b: seq<byte>, policy: Policy)
    requires CutsLine(c, a, b, policy)
    ensures LongLineCut(c, a, b)
  {
    hide MoveOn, HeadAt, Tight;
    TightEndsLongLine(HeadAt(c, a, policy), policy);
    HeadIsSuffix(c, a, policy);
    var u, all := HeadAt(c, a, policy), Octets(c, a);
    forall k | |all| - MAX_HEADER_LINE - 1 <= k < |all|
      ensures all[k] == u[k - (|all| - |u|)]
    {
    }
  }

  // ----- which heads are tight

  lemma StepInPrefix(u: seq<byte>, at: nat, pos: nat, hs: seq<Header>, max: nat, policy: Policy)
    requires pos < at <= |u|
    requires HeaderStep(u, pos, hs, max, policy).Next? && HeaderStep(u, pos, hs, max, policy).pos <= at
    ensures HeaderStep(u[..at], pos, hs, max, policy) == HeaderStep(u, pos, hs, max, policy)
  {
    hide FieldStep, FoldStep;
    var p := HeaderStep(u, pos, hs, max, policy).pos;
    StepEndsWithLf(u, pos, hs, max, policy);
    assert u[..at][p - 1] == LF;
    LineExtends(u[..at], u, pos, policy);
    var line := LineAt(u, pos, policy);
    assert u[..at][pos..pos + line.len] == u[pos..pos + line.len];
  }

  /** Up to the line it stopped at, the parser has taken complete lines. */
  lemma {:induction false} BlockUpTo(u: seq<byte>, pos: nat, hs: seq<Header>, max: nat, policy: Policy)
    requires pos <= |u| && ParseBlock(u, pos, hs, max, policy).status == TooLong
    ensures var at := ParseBlock(u, pos, hs, max, policy).pos;
            var b := ParseBlock(u[..at], pos, hs, max, policy);
            b.status == Incomplete && b.pos == at
    decreases |u| - pos
  {
    hide HeaderStep;
    var step := HeaderStep(u, pos, hs, max, policy);
    var at := ParseBlock(u, pos, hs, max, policy).pos;
    if step.Next? {
      StepInPrefix(u, at, pos, hs, max, policy);
      BlockUpTo(u, step.pos, step.headers, max, policy);
    } else {
      NothingLeft(u[..at], hs, max, policy);
    }
  }

  lemma StartInPrefix(u: seq<byte>, at: nat, policy: Policy)
    requires ParseRequestLine(u, 0, policy).status == Ok && ParseRequestLine(u, 0, policy).end <= at <= |u|
    ensures ParseRequestLine(u[..at], 0, policy) == ParseRequestLine(u, 0, policy)
  {
    hide RequestLineOf;
    var r := ParseRequestLine(u, 0, policy);
    StartEndsWithLf(RequestMode, u, policy);
    assert u[..at][r.end - 1] == LF;
    LineExtends(u[..at], u, 0, policy);
    var line := LineAt(u, 0, policy);
    assert u[..at][0..line.len] == u[0..line.len];
  }

  lemma StoppedBehindLines(u: seq<byte>, policy: Policy)
    requires OneShot(RequestMode, u, MAX_HEADERS, policy).status == TooLong
    ensures var at := StoppedAt(RequestMode, u, MAX_HEADERS, policy);
            at > 0 ==> AtLineStart(RequestMode, u[..at], MAX_HEADERS, policy)
  {
    hide ParseRequestLine, ParseBlock;
    var r := ParseRequestLine(u, 0, policy);
    if r.status == Ok {
      var at := StoppedAt(RequestMode, u, MAX_HEADERS, policy);
      StartInPrefix(u, at, policy);
      BlockUpTo(u, r.end, [], MAX_HEADERS, policy);
    }
  }

  /** Complete lines, or nothing, and then all but the LF of a line of exactly the limit that the
      parser takes there. */
  ghost predicate AllButLf(u: seq<byte>, head: seq<byte>, t: seq<byte>, policy: Policy) {
    && u == head + (t + [CR]) && NoLf(t) && |t| == MAX_HEADER_LINE
    && if head == [] then RequestLineOf(t, 0, policy).RequestLine?
       else
         && AtLineStart(RequestMode, head, MAX_HEADERS, policy)
         && TakesLine(t, OneShot(RequestMode, head, MAX_HEADERS, policy).state.headers, MAX_HEADERS, policy)
  }

  /** The heads that a cut can hurt, exactly. */
  lemma TightExactly(u: seq<byte>, policy: Policy)
    ensures Tight(u, policy) <==> exists head, t :: AllButLf(u, head, t, policy)
  {
    hide AllButLf, Tight;
    if Tight(u, policy) {
      var head, t := PartsOfTight(u, policy);
    }
    forall head, t | AllButLf(u, head, t, policy)
      ensures Tight(u, policy)
    {
      AllButLfIsTight(u, head, t, policy);
    }
  }

  lemma AllButLfIsTight(u: seq<byte>, head: seq<byte>, t: seq<byte>, policy: Policy)
    requires AllButLf(u, head, t, policy)
    ensures Tight(u, policy)
  {
    hide OneShot, RequestLineOf, NoLf, FieldStep, FoldStep;
    assert u + [LF] == head + (t + CRLF);
    if head == [] {
      assert [] + (t + [CR]) == t + [CR] && [] + (t + CRLF) == t + CRLF;
      LimitRequestLineRecovers(t, MAX_HEADERS, policy);
    } else {
      LimitLineRecovers(RequestMode, head, t, MAX_HEADERS, policy);
    }
  }

  lemma PartsOfTight(u: seq<byte>, policy: Policy) returns (head: seq<byte>, t: seq<byte>)
    requires Tight(u, policy)
    ensures AllButLf(u, head, t, policy)
  {
    hide OneShot, RequestLineOf, StoppedAt, EndsBare, TakesLine, AtLineStart;
    TooLongRecovers(RequestMode, u, u + [LF], MAX_HEADERS, policy);
    var at := StoppedAt(RequestMode, u, MAX_HEADERS, policy);
    head, t := u[..at], u[at..|u| - 1];
    assert u == head + (t + [CR]);
    assert u + [LF] == head + (t + CRLF);
    StoppedBehindLines(u, policy);
    if at == 0 {
      assert [] + (t + [CR]) == t + [CR] && [] + (t + CRLF) == t + CRLF;
      LimitRequestLineRecovers(t, MAX_HEADERS, policy);
    } else {
      LimitLineRecovers(RequestMode, head, t, MAX_HEADERS, policy);
    }
  }

  // ----- one cut

  /** Cutting a + b in two changes neither the connection nor what it hands up. */
  ghost predicate Splits(c: Conn, a: seq<byte>, b: seq<byte>, policy: Policy) {
    var p := Arrive(c, a, policy);
    Arrive(c, a + b, policy) == Behind(p.received, Arrive(p.conn, b, policy))
  }

  lemma BrokenArrive(data: seq<byte>, policy: Policy)
    ensures Arrive(Broken, data, policy) == Progress(Broken, [])
  {
  }

  lemma {:induction false} UsedFits(d: C.Decoder, s: seq<byte>)
    ensures C.Run(d, s).Complete? ==> C.Run(d, s).used <= |s|
    decreases |s|
  {
    hide C.StepByte;
    if s != [] && d.state != C.Finished {
      var step := C.StepByte(d, s[0]);
      if step.Took? {
        UsedFits(step.d, s[1..]);
      }
    }
  }

  /** A refused head stays refused, unless the LF of a line of exactly the limit follows. */
  lemma RefusedHead(u: seq<byte>, b: seq<byte>, policy: Policy)
    requires var s := OneShot(RequestMode, u, MAX_HEADERS, policy).status; s != Ok && s != Incomplete
    requires !(Tight(u, policy) && b != [] && b[0] == LF)
    ensures var s := OneShot(RequestMode, u + b, MAX_HEADERS, policy).status; s != Ok && s != Incomplete
  {
    hide OneShot, StoppedAt, EndsBare, Open, EndsAtLimit;
    if OneShot(RequestMode, u, MAX_HEADERS, policy).status != TooLong {
      DecidedIsStable(RequestMode, u, u + b, MAX_HEADERS, policy);
    } else {
      TooLongIsAlmostStable(RequestMode, u, u + b, MAX_HEADERS, policy);
      var at := StoppedAt(RequestMode, u, MAX_HEADERS, policy);
      if Open(u, at) && Completes(u, u + b, at, LimitAt(RequestMode, at)) {
        var v := u + [LF];
        assert (u + b)[|u|] == b[0];
        assert b[..1] == [LF] && v + b[1..] == u + b;
        TooLongIsAlmostStable(RequestMode, u, v, MAX_HEADERS, policy);
        DecidedIsStable(RequestMode, v, v + b[1..], MAX_HEADERS, policy);
      }
    }
  }

  /** A move that gives up gives up on more octets too, unless the cut is the one that matters. */
  lemma BreakSplits(c: Conn, a: seq<byte>, b: seq<byte>, policy: Policy)
    requires Consistent(c, policy) && MoveOn(c, a, policy) == Stay(Broken)
    requires c.Heading? ==> !(Tight(c.buffer + a, policy) && b != [] && b[0] == LF)
    ensures MoveOn(c, a + b, policy) == Stay(Broken)
  {
    hide OneShot, Tight, C.Run, Advance, LineInside, StartAt, FieldsAt, BodyOf;
    if c.Heading? {
      var u := c.buffer + a;
      HeadingIsOneShot(c, a, policy);
      HeadingIsOneShot(c, a + b, policy);
      assert c.buffer + (a + b) == u + b;
      if OneShot(RequestMode, u, MAX_HEADERS, policy).status == Ok {
        HeadMovesAlike(u, b, policy);
      }
      RefusedHead(u, b, policy);
    } else if c.Decoding? {
      UsedFits(c.decoder, a);
      C.RunSplit(c.decoder, a, b);
    }
  }

  /** Every other cut of a connection that gave up changes nothing. */
  lemma {:induction false} BrokenSplits(c: Conn, a: seq<byte>, b: seq<byte>, policy: Policy)
    requires Consistent(c, policy) && Arrive(c, a, policy).conn.Broken? && !CutsLine(c, a, b, policy)
    ensures Arrive(c, a + b, policy) == Arrive(c, a, policy)
    decreases Backlog(c) + |a|, if c.Heading? then 0 else 1
  {
    hide MoveOn, Arrive, Consistent, Behind, HeadAt, Tight;
    var m := MoveOn(c, a, policy);
    ArriveUnfolds(c, a, policy);
    ArriveUnfolds(c, a + b, policy);
    HeadAtUnfolds(c, a, policy);
    if m.Stay? {
      BreakSplits(c, a, b, policy);
    } else {
      MoveSplits(c, a, b, policy);
      MoveKeepsConsistent(c, a, policy);
      BehindKeepsConn(m.received, Arrive(m.conn, m.rest, policy));
      BrokenSplits(m.conn, m.rest, b, policy);
    }
  }

  /** At the cut that matters the connection gives up, although with the LF it would have gone on,
      with the same requests handed up. */
  lemma {:induction false} TightCut(c: Conn, a: seq<byte>, policy: Policy)
    requires Consistent(c, policy) && Tight(HeadAt(c, a, policy), policy)
    ensures var p, q := Arrive(c, a, policy), Arrive(c, a + [LF], policy);
            p.conn.Broken? && q.conn.Heading? && q.received == p.received
    decreases Backlog(c) + |a|, if c.Heading? then 0 else 1
  {
    hide MoveOn, Arrive, Consistent, Behind, HeadAt, Tight;
    var m := MoveOn(c, a, policy);
    ArriveUnfolds(c, a, policy);
    ArriveUnfolds(c, a + [LF], policy);
    HeadAtUnfolds(c, a, policy);
    NothingIsTight(policy);
    if m.Stay? {
      TightMove(c, a, policy);
    } else {
      MoveSplits(c, a, [LF], policy);
      MoveKeepsConsistent(c, a, policy);
      TightCut(m.conn, m.rest, policy);
      BehindKeepsConn(m.received, Arrive(m.conn, m.rest, policy));
      BehindKeepsConn(m.received, Arrive(m.conn, m.rest + [LF], policy));
    }
  }

  lemma NothingIsTight(policy: Policy)
    ensures !Tight([], policy)
  {
    hide OneShot;
    FreshIsConsistent(policy);
  }

  lemma TightMove(c: Conn, a: seq<byte>, policy: Policy)
    requires c.Heading? && Consistent(c, policy) && Tight(c.buffer + a, policy)
    ensures MoveOn(c, a, policy) == Stay(Broken)
    ensures MoveOn(c, a + [LF], policy).Stay? && MoveOn(c, a + [LF], policy).conn.Heading?
  {
    hide OneShot, MoveOn;
    HeadingIsOneShot(c, a, policy);
    HeadingIsOneShot(c, a + [LF], policy);
    assert c.buffer + (a + [LF]) == c.buffer + a + [LF];
  }

  /** What follows the LF is refused anyway, before another request is handed up. */
  ghost predicate RefusedAnyway(c: Conn, a: seq<byte>, b: seq<byte>, policy: Policy)
    requires b != []
  {
    Arrive(Arrive(c, a + [LF], policy).conn, b[1..], policy) == Progress(Broken, [])
  }

  /** The cut between a and b makes a difference. */
  ghost predicate Matters(c: Conn, a: seq<byte>, b: seq<byte>, policy: Policy) {
    CutsLine(c, a, b, policy) && !RefusedAnyway(c, a, b, policy)
  }

  /** One cut, exactly: on any octets it changes something if and only if it falls between the CR
      and the LF of a head line of exactly the limit and what follows is not refused anyway. */
  lemma CutExactly(c: Conn, a: seq<byte>, b: seq<byte>, policy: Policy)
    requires Consistent(c, policy)
    ensures Splits(c, a, b, policy) <==> !Matters(c, a, b, policy)
  {
    hide Arrive, Consistent, Tight, HeadAt, Behind;
    var p := Arrive(c, a, policy);
    if CutsLine(c, a, b, policy) {
      var q := Arrive(c, a + [LF], policy);
      TightCut(c, a, policy);
      UnbrokenSplits(c, a + [LF], b[1..], policy);
      assert a + [LF] + b[1..] == a + b;
      BrokenArrive(b, policy);
      BehindApart(p.received, Arrive(q.conn, b[1..], policy), Progress(Broken, []));
    } else if p.conn.Broken? {
      BrokenSplits(c, a, b, policy);
      BrokenArrive(b, policy);
      BehindNothing(p);
    } else {
      UnbrokenSplits(c, a, b, policy);
    }
  }

  lemma BehindApart(r: seq<Received>, p: Progress, q: Progress)
    ensures Behind(r, p) == Behind(r, q) <==> p == q
  {
    assert (r + p.received)[|r|..] == p.received && (r + q.received)[|r|..] == q.received;
  }

  lemma BehindNothing(p: Progress)
    ensures Behind(p.received, Progress(p.conn, [])) == p
  {
    assert p.received + [] == p.received;
  }

  /** A cut is harmless for every continuation exactly when it does not follow the CR of a line of
      exactly the limit. */
  lemma CutIsHarmless(c: Conn, a: seq<byte>, policy: Policy)
    requires Consistent(c, policy)
    ensures (forall b :: Splits(c, a, b, policy)) <==> !Tight(HeadAt(c, a, policy), policy)
  {
    hide Arrive, Tight, HeadAt, Splits, Consistent;
    if Tight(HeadAt(c, a, policy), policy) {
      TightCut(c, a, policy);
      CutExactly(c, a, [LF], policy);
      var q := Arrive(c, a + [LF], policy).conn;
      UnbrokenSplits(c, a + [LF], [], policy);
      WaitsOn(q, policy);
      assert [LF][1..] == [];
      assert !Splits(c, a, [LF], policy);
    } else {
      forall b
        ensures Splits(c, a, b, policy)
      {
        CutExactly(c, a, b, policy);
      }
    }
  }

  /** A connection waiting for a head does not give up on nothing. */
  lemma WaitsOn(c: Conn, policy: Policy)
    requires c.Heading? && Consistent(c, policy)
    ensures Arrive(c, [], policy) == Progress(c, [])
  {
    hide OneShot, MoveOn;
    HeadingIsOneShot(c, [], policy);
    assert c.buffer + [] == c.buffer;
    ArriveUnfolds(c, [], policy);
  }

  // ----- whole schedules

  lemma {:induction false} BrokenForGood(pieces: seq<seq<byte>>, policy: Policy)
    ensures ArriveAll(Broken, pieces, policy) == Progress(Broken, [])
    decreases |pieces|
  {
    if pieces != [] {
      BrokenForGood(pieces[1..], policy);
    }
  }

  lemma ArriveAllUnfolds(c: Conn, pieces: seq<seq<byte>>, policy: Policy)
    requires pieces != []
    ensures var p := Arrive(c, pieces[0], policy);
            ArriveAll(c, pieces, policy) == Behind(p.received, ArriveAll(p.conn, pieces[1..], policy))
  {
    hide Arrive;
  }

  lemma NothingLater(c: Conn, policy: Policy)
    ensures ArriveAll(c, [], policy) == Progress(c, [])
  {
  }

  lemma FlattenFront(pieces: seq<seq<byte>>, k: nat)
    requires 0 < k <= |pieces|
    ensures C.Flatten(pieces[..k]) == pieces[0] + C.Flatten(pieces[1..][..k - 1])
    ensures pieces[k..] == pieces[1..][k - 1..]
  {
    assert pieces[..k][1..] == pieces[1..][..k - 1];
  }

  lemma {:induction false} FlattenCut(pieces: seq<seq<byte>>, k: nat)
    requires k <= |pieces|
    ensures C.Flatten(pieces[..k]) + C.Flatten(pieces[k..]) == C.Flatten(pieces)
    decreases k
  {
    if k == 0 {
      assert pieces[..0] == [] && pieces[0..] == pieces;
      assert C.Flatten([]) + C.Flatten(pieces) == C.Flatten(pieces);
    } else {
      FlattenFront(pieces, k);
      FlattenCut(pieces[1..], k - 1);
      assert pieces[0] + C.Flatten(pieces[1..][..k - 1]) + C.Flatten(pieces[k..])
            == pieces[0] + (C.Flatten(pieces[1..][..k - 1]) + C.Flatten(pieces[k..]));
    }
  }

  /** More octets never take back a request. */
  lemma ReceivedGrows(c: Conn, a: seq<byte>, b: seq<byte>, policy: Policy)
    requires Consistent(c, policy)
    ensures Arrive(c, a, policy).received <= Arrive(c, a + b, policy).received
  {
    hide Arrive, Consistent, Tight, HeadAt, Behind;
    var p := Arrive(c, a, policy);
    if CutsLine(c, a, b, policy) {
      var q := Arrive(c, a + [LF], policy);
      TightCut(c, a, policy);
      UnbrokenSplits(c, a + [LF], b[1..], policy);
      assert a + [LF] + b[1..] == a + b;
      BehindKeepsConn(q.received, Arrive(q.conn, b[1..], policy));
    } else {
      CutExactly(c, a, b, policy);
      BehindKeepsConn(p.received, Arrive(p.conn, b, policy));
    }
  }

  /** The boundary in front of piece k. */
  ghost predicate BoundarySplits(c: Conn, pieces: seq<seq<byte>>, k: nat, policy: Policy)
    requires k <= |pieces|
  {
    Splits(c, C.Flatten(pieces[..k]), C.Flatten(pieces[k..]), policy)
  }

  /** A later boundary, seen from the connection that the first piece leaves. */
  lemma BoundaryShifts(c: Conn, pieces: seq<seq<byte>>, k: nat, policy: Policy)
    requires Consistent(c, policy) && 1 <= k <= |pieces| && !Arrive(c, pieces[0], policy).conn.Broken?
    ensures BoundarySplits(c, pieces, k, policy)
            <==> BoundarySplits(Arrive(c, pieces[0], policy).conn, pieces[1..], k - 1, policy)
  {
    hide Arrive, Consistent, Behind, C.Flatten;
    var a, later := pieces[0], pieces[1..];
    var y, z := C.Flatten(later[..k - 1]), C.Flatten(later[k - 1..]);
    var p := Arrive(c, a, policy);
    FlattenFront(pieces, k);
    FlattenCut(later, k - 1);
    var q := Arrive(p.conn, y, policy);
    UnbrokenSplits(c, a, y, policy);
    UnbrokenSplits(c, a, y + z, policy);
    assert a + y + z == a + (y + z);
    BehindKeepsConn(p.received, q);
    BehindTwice(p.received, q.received, Arrive(q.conn, z, policy));
    BehindApart(p.received, Arrive(p.conn, y + z, policy), Behind(q.received, Arrive(q.conn, z, policy)));
  }

  /** Once the first piece broke the connection, the whole agrees with it exactly when every
      boundary does. */
  lemma BrokenFirst(c: Conn, pieces: seq<seq<byte>>, policy: Policy)
    requires Consistent(c, policy) && |pieces| > 1 && Arrive(c, pieces[0], policy).conn.Broken?
    ensures Arrive(c, C.Flatten(pieces), policy) == Arrive(c, pieces[0], policy)
            <==> forall k :: 0 < k < |pieces| ==> BoundarySplits(c, pieces, k, policy)
  {
    hide Arrive, Consistent, Behind, C.Flatten;
    var p, w := Arrive(c, pieces[0], policy), Arrive(c, C.Flatten(pieces), policy);
    FirstBoundary(pieces);
    FlattenCut(pieces, 1);
    BrokenArrive(C.Flatten(pieces[1..]), policy);
    BehindNothing(p);
    assert BoundarySplits(c, pieces, 1, policy) <==> w == p;
    if w == p {
      forall k | 0 < k < |pieces|
        ensures BoundarySplits(c, pieces, k, policy)
      {
        LaterBoundary(c, pieces, k, policy);
      }
    }
  }

  lemma FirstBoundary(pieces: seq<seq<byte>>)
    requires pieces != []
    ensures C.Flatten(pieces[..1]) == pieces[0]
  {
    assert pieces[..1][1..] == [];
    assert pieces[0] + [] == pieces[0];
  }

  lemma LaterBoundary(c: Conn, pieces: seq<seq<byte>>, k: nat, policy: Policy)
    requires Consistent(c, policy) && 0 < k < |pieces| && Arrive(c, pieces[0], policy).conn.Broken?
    requires Arrive(c, C.Flatten(pieces), policy) == Arrive(c, pieces[0], policy)
    ensures BoundarySplits(c, pieces, k, policy)
  {
    hide Arrive, Consistent, Behind, C.Flatten;
    var p := Arrive(c, pieces[0], policy);
    var x, z := C.Flatten(pieces[..k]), C.Flatten(pieces[k..]);
    var q := Arrive(c, x, policy);
    FlattenCut(pieces, k);
    FlattenFront(pieces, k);
    ReceivedGrows(c, pieces[0], C.Flatten(pieces[1..][..k - 1]), policy);
    ReceivedGrows(c, x, z, policy);
    assert q.received == p.received;
    if q.conn.Broken? {
      BrokenArrive(z, policy);
      BehindNothing(q);
    } else {
      UnbrokenSplits(c, x, z, policy);
    }
  }

  /** Pieces do what their concatenation would, exactly when every boundary splits. */
  lemma {:induction false} BoundariesDecide(c: Conn, pieces: seq<seq<byte>>, policy: Policy)
    requires Consistent(c, policy) && pieces != []
    ensures ArriveAll(c, pieces, policy) == Arrive(c, C.Flatten(pieces), policy)
            <==> forall k :: 0 < k < |pieces| ==> BoundarySplits(c, pieces, k, policy)
    decreases |pieces|
  {
    hide Arrive, ArriveAll, Consistent, Behind, C.Flatten, BoundarySplits;
    var a, later := pieces[0], pieces[1..];
    var p := Arrive(c, a, policy);
    ArriveAllUnfolds(c, pieces, policy);
    FirstBoundary(pieces);
    if |pieces| == 1 {
      assert pieces[..1] == pieces;
      assert later == [];
      NothingLater(p.conn, policy);
      BehindNothing(p);
    } else if p.conn.Broken? {
      BrokenForGood(later, policy);
      BehindNothing(p);
      BrokenFirst(c, pieces, policy);
    } else {
      var b := C.Flatten(later);
      FlattenFront(pieces, |pieces|);
      assert pieces[..|pieces|] == pieces && later[..|pieces| - 1] == later;
      UnbrokenSplits(c, a, b, policy);
      BoundariesDecide(p.conn, later, policy);
      BehindApart(p.received, ArriveAll(p.conn, later, policy), Arrive(p.conn, b, policy));
      FirstUnbroken(c, pieces, policy);
      forall k | 1 < k < |pieces|
        ensures BoundarySplits(c, pieces, k, policy) <==> BoundarySplits(p.conn, later, k - 1, policy)
      {
        BoundaryShifts(c, pieces, k, policy);
      }
      ShiftAll(c, p.conn, pieces, policy);
    }
  }

  lemma FirstUnbroken(c: Conn, pieces: seq<seq<byte>>, policy: Policy)
    requires Consistent(c, policy) && pieces != [] && !Arrive(c, pieces[0], policy).conn.Broken?
    ensures BoundarySplits(c, pieces, 1, policy)
  {
    hide Arrive, Consistent, Behind, C.Flatten;
    FirstBoundary(pieces);
    UnbrokenSplits(c, pieces[0], C.Flatten(pieces[1..]), policy);
  }

  lemma ShiftAll(c: Conn, d: Conn, pieces: seq<seq<byte>>, policy: Policy)
    requires |pieces| > 1 && BoundarySplits(c, pieces, 1, policy)
    requires forall k :: 1 < k < |pieces| ==>
                           (BoundarySplits(c, pieces, k, policy) <==> BoundarySplits(d, pieces[1..], k - 1, policy))
    ensures (forall k :: 0 < k < |pieces| ==> BoundarySplits(c, pieces, k, policy))
            <==> (forall k :: 0 < k < |pieces| - 1 ==> BoundarySplits(d, pieces[1..], k, policy))
  {
    hide BoundarySplits;
    if forall k :: 0 < k < |pieces| ==> BoundarySplits(c, pieces, k, policy) {
      forall k | 0 < k < |pieces| - 1
        ensures BoundarySplits(d, pieces[1..], k, policy)
      {
        assert BoundarySplits(c, pieces, k + 1, policy);
      }
    }
  }

  /** The boundary in front of piece k falls between the CR and the LF of a head line of exactly
      the limit, and what follows is not refused anyway. */
  ghost predicate BadBoundary(c: Conn, pieces: seq<seq<byte>>, k: nat, policy: Policy)
    requires k <= |pieces|
  {
    Matters(c, C.Flatten(pieces[..k]), C.Flatten(pieces[k..]), policy)
  }

  /** Any octets, any schedule: arriving piece by piece leaves the connection, and hands up the
      requests, that arriving at once would, if and only if no boundary is a bad one. */
  lemma AnySchedule(c: Conn, pieces: seq<seq<byte>>, policy: Policy)
    requires Consistent(c, policy) && pieces != []
    ensures ArriveAll(c, pieces, policy) == Arrive(c, C.Flatten(pieces), policy)
            <==> forall k :: 0 < k < |pieces| ==> !BadBoundary(c, pieces, k, policy)
  {
    hide Arrive, ArriveAll, Consistent, Splits, Matters, C.Flatten;
    BoundariesDecide(c, pieces, policy);
    forall k | 0 < k < |pieces|
      ensures BoundarySplits(c, pieces, k, policy) <==> !BadBoundary(c, pieces, k, policy)
    {
      CutExactly(c, C.Flatten(pieces[..k]), C.Flatten(pieces[k..]), policy);
    }
  }

  /** So a schedule without such a boundary changes nothing. */
  lemma CarefulSchedule(c: Conn, pieces: seq<seq<byte>>, policy: Policy)
    requires Consistent(c, policy) && pieces != []
    requires forall k :: 0 < k < |pieces| ==> !LongLineCut(c, C.Flatten(pieces[..k]), C.Flatten(pieces[k..]))
    ensures ArriveAll(c, pieces, policy) == Arrive(c, C.Flatten(pieces), policy)
  {
    hide Arrive, ArriveAll, Consistent, Tight, HeadAt, C.Flatten, EndsLongLine;
    AnySchedule(c, pieces, policy);
    forall k | 0 < k < |pieces|
      ensures !BadBoundary(c, pieces, k, policy)
    {
      if BadBoundary(c, pieces, k, policy) {
        CutIsVisible(c, C.Flatten(pieces[..k]), C.Flatten(pieces[k..]), policy);
      }
    }
  }
}
