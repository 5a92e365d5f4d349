/** Requests back to back on one connection whose octets arrive in pieces: a consumer that keeps an
    accumulated head buffer with its parser state, and resumes the decoder of an unfinished body. */
module Arrival {
  import opened Bytes
  import opened Types
  import opened HeadSpec
  import opened HeadRuns
  import opened HeadPrint
  import opened HeadReprint
  import opened SemanticsSpec
  import opened Pipeline
  import C = ChunkSpec

  /** Where a connection stands between two arrivals. */
  datatype Conn =
    | Heading(state: HeadState, buffer: seq<byte>)
    | Reading(start: Start, fields: seq<Field>, framing: Framing, got: seq<byte>, missing: nat)
    | Decoding(start: Start, fields: seq<Field>, framing: Framing, got: seq<byte>, decoder: C.Decoder)
    | Broken

  const FRESH: Conn := Heading(Initial(RequestMode), [])

  /** One move: everything that arrived is absorbed, or the connection goes on with the rest. */
  datatype Move =
    | Stay(conn: Conn)
    | Go(received: seq<Received>, conn: Conn, rest: seq<byte>)

  /** The body that framing announces. */
  function Announced(start: Start, fields: seq<Field>, framing: Framing): (c: Conn)
    ensures !c.Heading?
  {
    match framing.mode
    case NoBody => Reading(start, fields, framing, [], 0)
    case FixedBody => Reading(start, fields, framing, [], framing.contentLength)
    case ChunkedBody => Decoding(start, fields, framing, [], C.Start(true))
    case UntilClose => Broken
  }

  /** The body behind a parsed head, or Broken. */
  function BodyOf(start: Start, fields: seq<Field>, policy: Policy): (c: Conn)
    ensures !c.Heading?
  {
    if !start.RequestStart? || !RequestAccepted(FactsOf(fields), start.version, policy.rejectTeCl) then Broken
    else Announced(start, fields, RequestFraming(FactsOf(fields), start.version, 0))
  }

  /** What the answer of a head parse of `all` leads to. */
  function AfterHead(o: Outcome, all: seq<byte>, policy: Policy): (m: Move)
    ensures m.Go? ==> |m.rest| < |all| && !m.conn.Heading?
  {
    if o.status == Incomplete then Stay(Heading(o.state, all))
    else if o.status != Ok || o.consumed == 0 || o.consumed > |all| || !LineInside(all, o.state.line) then Stay(Broken)
    else
      var c := BodyOf(StartAt(all, o.state.line), FieldsAt(all, o.state.headers), policy);
      Go([], c, all[o.consumed..])
  }

  function MoveOn(c: Conn, data: seq<byte>, policy: Policy): (m: Move)
    ensures m.Go? ==> |m.rest| <= Backlog(c) + |data|
    ensures m.Go? && c.Heading? ==> |m.rest| < Backlog(c) + |data| && !m.conn.Heading?
    ensures m.Go? && !c.Heading? ==> m.conn == FRESH
  {
    match c
    case Heading(st, buffer) =>
      var all := buffer + data;
      if !CursorFits(st.phase, st.cursor, all) then Stay(Broken)
      else AfterHead(Advance(RequestMode, st, all, MAX_HEADERS, policy), all, policy)
    case Reading(start, fields, framing, got, missing) =>
      if missing > |data| then Stay(Reading(start, fields, framing, got + data, missing - |data|))
      else Go([Received(start, fields, framing, got + data[..missing])], FRESH, data[missing..])
    case Decoding(start, fields, framing, got, d) =>
      AfterBody(start, fields, framing, got, C.Run(d, data), data)
    case Broken => Stay(Broken)
  }

  /** What the answer of the chunked decoder on `data` leads to. */
  function AfterBody(start: Start, fields: seq<Field>, framing: Framing, got: seq<byte>, r: C.Outcome,
                     data: seq<byte>): (m: Move)
    ensures m.Go? ==> |m.rest| <= |data| && m.conn == FRESH
  {
    match r
    case Need(d, out) => Stay(Decoding(start, fields, framing, got + out, d))
    case Bad(_, _, _) => Stay(Broken)
    case Complete(_, out, used) =>
      if used > |data| then Stay(Broken)
      else Go([Received(start, fields, framing, got + out)], FRESH, data[used..])
  }

  function Backlog(c: Conn): nat {
    if c.Heading? then |c.buffer| else 0
  }

  /** Where the connection stands after an arrival, and the requests it handed up. */
  datatype Progress = Progress(conn: Conn, received: seq<Received>)

  function Arrive(c: Conn, data: seq<byte>, policy: Policy): Progress
    decreases Backlog(c) + |data|, if c.Heading? then 0 else 1
  {
    match MoveOn(c, data, policy)
    case Stay(c') => Progress(c', [])
    case Go(r, c', rest) => Behind(r, Arrive(c', rest, policy))
  }

  function Behind(r: seq<Received>, p: Progress): Progress {
    Progress(p.conn, r + p.received)
  }

  /** Piece after piece. */
  function ArriveAll(c: Conn, pieces: seq<seq<byte>>, policy: Policy): Progress
    decreases |pieces|
  {
    if pieces == [] then Progress(c, [])
    else
      var p := Arrive(c, pieces[0], policy);
      Behind(p.received, ArriveAll(p.conn, pieces[1..], policy))
  }

  lemma ArriveUnfolds(c: Conn, data: seq<byte>, policy: Policy)
    ensures var m := MoveOn(c, data, policy);
            && (m.Stay? ==> Arrive(c, data, policy) == Progress(m.conn, []))
            && (m.Go? ==> Arrive(c, data, policy) == Behind(m.received, Arrive(m.conn, m.rest, policy)))
  {
    hide MoveOn;
  }

  lemma BehindTwice(a: seq<Received>, b: seq<Received>, p: Progress)
    ensures Behind(a, Behind(b, p)) == Behind(a + b, p)
    ensures Behind([], p) == p
  {
    assert a + (b + p.received) == a + b + p.received;
    assert [] + p.received == p.received;
  }

  // ----- cutting an arrival in two

  /** The parser state is the one an incomplete parse of the buffer leaves. */
  ghost predicate Consistent(c: Conn, policy: Policy) {
    c.Heading? ==>
      var o := OneShot(RequestMode, c.buffer, MAX_HEADERS, policy);
      o.status == Incomplete && o.state == c.state
  }

  lemma FreshIsConsistent(policy: Policy)
    ensures Consistent(FRESH, policy)
  {
  }

  lemma BodyIsConsistent(c: Conn, policy: Policy)
    ensures !c.Heading? ==> Consistent(c, policy)
  {
  }

  /** A resumed head parse leads where a one-shot parse of the whole buffer leads. */
  lemma HeadingIsOneShot(c: Conn, data: seq<byte>, policy: Policy)
    requires c.Heading? && Consistent(c, policy)
    ensures var all := c.buffer + data;
            MoveOn(c, data, policy) == AfterHead(OneShot(RequestMode, all, MAX_HEADERS, policy), all, policy)
  {
    hide OneShot, Advance, LineInside, StartAt, FieldsAt, BodyOf;
    ResumeAgrees(RequestMode, c.buffer, c.buffer + data, MAX_HEADERS, policy);
  }

  lemma MoveKeepsConsistent(c: Conn, data: seq<byte>, policy: Policy)
    requires Consistent(c, policy)
    ensures Consistent(MoveOn(c, data, policy).conn, policy)
  {
    hide OneShot, BodyOf, Advance, CursorFits, C.Run, LineInside, StartAt, FieldsAt;
    if c.Heading? {
      HeadingIsOneShot(c, data, policy);
    } else {
      FreshIsConsistent(policy);
    }
  }

  lemma SpansInLonger(u: seq<byte>, v: seq<byte>, line: StartLine, hs: seq<Header>)
    requires u <= v && LineInside(u, line) && forall i :: 0 <= i < |hs| ==> Inside(u, hs[i])
    ensures LineInside(v, line) && StartAt(v, line) == StartAt(u, line)
    ensures FieldsAt(v, hs) == FieldsAt(u, hs)
  {
    forall i: nat, j: nat | i <= j <= |u|
      ensures v[i..j] == u[i..j]
    {
    }
    forall i | 0 <= i < |hs|
      ensures FieldAt(v, hs[i]) == FieldAt(u, hs[i])
    {
    }
  }

  /** An accepted head leads on the same way however much more has arrived. */
  lemma HeadMovesAlike(u: seq<byte>, b: seq<byte>, policy: Policy)
    requires OneShot(RequestMode, u, MAX_HEADERS, policy).status == Ok
    ensures var m := AfterHead(OneShot(RequestMode, u, MAX_HEADERS, policy), u, policy);
            && m.Go?
            && AfterHead(OneShot(RequestMode, u + b, MAX_HEADERS, policy), u + b, policy)
               == Go(m.received, m.conn, m.rest + b)
  {
    hide OneShot, LineInside, StartAt, FieldsAt, Inside, BodyOf;
    AcceptedHeadInside(u, policy);
    DecidedIsStable(RequestMode, u, u + b, MAX_HEADERS, policy);
    var o := OneShot(RequestMode, u, MAX_HEADERS, policy);
    SpansInLonger(u, u + b, o.state.line, o.state.headers);
    assert (u + b)[o.consumed..] == u[o.consumed..] + b;
  }

  /** What a move did with a first piece tells what it does with more. */
  lemma MoveSplits(c: Conn, a: seq<byte>, b: seq<byte>, policy: Policy)
    requires Consistent(c, policy)
    ensures var m := MoveOn(c, a, policy);
            && (m.Stay? && !m.conn.Broken? ==> MoveOn(c, a + b, policy) == MoveOn(m.conn, b, policy))
            && (m.Go? ==> MoveOn(c, a + b, policy) == Go(m.received, m.conn, m.rest + b))
  {
    hide MoveOn, OneShot, C.Run, AfterHead;
    match c {
      case Heading(st, buffer) =>
        var u := buffer + a;
        HeadingIsOneShot(c, a, policy);
        HeadingIsOneShot(c, a + b, policy);
        assert buffer + (a + b) == u + b;
        HeadStays(u, policy);
        var m := MoveOn(c, a, policy);
        if m.Go? {
          HeadMovesAlike(u, b, policy);
        } else if !m.conn.Broken? {
          HeadingIsOneShot(m.conn, b, policy);
        }
      case Reading(_, _, _, _, _) => ReadingSplits(c, a, b, policy);
      case Decoding(_, _, _, _, _) => DecodingSplits(c, a, b, policy);
      case Broken => BrokenStays(a, policy);
    }
  }

  lemma BrokenStays(data: seq<byte>, policy: Policy)
    ensures MoveOn(Broken, data, policy) == Stay(Broken)
  {
  }

  lemma HeadStays(u: seq<byte>, policy: Policy)
    ensures var o := OneShot(RequestMode, u, MAX_HEADERS, policy);
            var m := AfterHead(o, u, policy);
            && (m.Go? ==> o.status == Ok)
            && (m.Stay? && !m.conn.Broken? ==> o.status == Incomplete && m.conn == Heading(o.state, u))
  {
    hide OneShot, LineInside, StartAt, FieldsAt, BodyOf;
  }

  lemma ReadingSplits(c: Conn, a: seq<byte>, b: seq<byte>, policy: Policy)
    requires c.Reading?
    ensures var m := MoveOn(c, a, policy);
            && (m.Stay? ==> MoveOn(c, a + b, policy) == MoveOn(m.conn, b, policy))
            && (m.Go? ==> MoveOn(c, a + b, policy) == Go(m.received, m.conn, m.rest + b))
  {
    var n := c.missing;
    if n <= |a| {
      assert (a + b)[..n] == a[..n] && (a + b)[n..] == a[n..] + b;
    } else {
      assert c.got + (a + b) == c.got + a + b;
      if n <= |a| + |b| {
        assert (a + b)[..n] == a + b[..n - |a|] && (a + b)[n..] == b[n - |a|..];
        assert c.got + (a + b[..n - |a|]) == c.got + a + b[..n - |a|];
      }
    }
  }

  lemma DecodingSplits(c: Conn, a: seq<byte>, b: seq<byte>, policy: Policy)
    requires c.Decoding?
    ensures var m := MoveOn(c, a, policy);
            && (m.Stay? && !m.conn.Broken? ==> MoveOn(c, a + b, policy) == MoveOn(m.conn, b, policy))
            && (m.Go? ==> MoveOn(c, a + b, policy) == Go(m.received, m.conn, m.rest + b))
  {
    hide C.Run;
    C.RunSplit(c.decoder, a, b);
    var r := C.Run(c.decoder, a);
    if r.Need? {
      var r2 := C.Run(r.d, b);
      assert c.got + (r.out + r2.out) == c.got + r.out + r2.out;
      if r2.Complete? && r2.used <= |b| {
        assert (a + b)[|a| + r2.used..] == b[r2.used..];
      }
    } else if r.Complete? && r.used <= |a| {
      assert (a + b)[r.used..] == a[r.used..] + b;
    }
  }

  /** Cutting an arrival in two changes nothing while the connection holds. */
  lemma {:induction false} UnbrokenSplits(c: Conn, a: seq<byte>, b: seq<byte>, policy: Policy)
    requires Consistent(c, policy) && !Arrive(c, a, policy).conn.Broken?
    ensures var p := Arrive(c, a, policy);
            && Consistent(p.conn, policy)
            && Arrive(c, a + b, policy) == Behind(p.received, Arrive(p.conn, b, policy))
    decreases Backlog(c) + |a|, if c.Heading? then 0 else 1
  {
    hide MoveOn, Arrive, Consistent, Behind;
    var m := MoveOn(c, a, policy);
    ArriveUnfolds(c, a, policy);
    ArriveUnfolds(c, a + b, policy);
    MoveSplits(c, a, b, policy);
    MoveKeepsConsistent(c, a, policy);
    if m.Stay? {
      ArriveUnfolds(m.conn, b, policy);
      BehindTwice([], [], Arrive(m.conn, b, policy));
    } else {
      BehindKeepsConn(m.received, Arrive(m.conn, m.rest, policy));
      UnbrokenSplits(m.conn, m.rest, b, policy);
      var p := Arrive(m.conn, m.rest, policy);
      BehindTwice(m.received, p.received, Arrive(p.conn, b, policy));
    }
  }

  lemma BehindKeepsConn(r: seq<Received>, p: Progress)
    ensures Behind(r, p).conn == p.conn && Behind(r, p).received == r + p.received
  {
  }
}
