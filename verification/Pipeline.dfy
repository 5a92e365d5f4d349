/** Requests back to back on one connection: parse a head, decide the framing, decode the body,
    reset, and go on with what is left. */
module Pipeline {
  import opened Bytes
  import opened Types
  import opened HeadSpec
  import opened HeadSpans
  import opened HeadPrint
  import opened SemanticsSpec
  import C = ChunkSpec
  import G = ChunkGrammar
  import ChunkDecoder
  import FixedBody
  import FramingRule
  import Head
  import Semantics
  import Scanner

  // ----- messages and their serialisation

  datatype Body =
    | Absent
    | Sized(data: seq<byte>)
    | Encoded(encoding: G.Encoding)

  datatype Message = Message(start: Start, fields: seq<Field>, body: Body)

  /** A request whose parts can be printed and whose fields announce the body it has. */
  predicate WellFormed(m: Message, policy: Policy) {
    && m.start.RequestStart? && ValidStart(m.start) && ValidFields(m.fields) && |m.fields| <= MAX_HEADERS
    && RequestAccepted(FactsOf(m.fields), m.start.version, policy.rejectTeCl)
    && var framing := RequestFraming(FactsOf(m.fields), m.start.version, 0);
    match m.body
    case Absent => framing.mode == NoBody
    case Sized(data) => framing.mode == FixedBody && framing.contentLength == |data|
    case Encoded(e) => framing.mode == ChunkedBody && G.Valid(e, true)
  }

  function BodyWire(b: Body): seq<byte> {
    match b
    case Absent => []
    case Sized(data) => data
    case Encoded(e) => G.Wire(e, true)
  }

  function BodyBytes(b: Body): seq<byte> {
    match b
    case Absent => []
    case Sized(data) => data
    case Encoded(e) => G.Payload(e.chunks)
  }

  function Serialize(m: Message): seq<byte>
    requires ValidStart(m.start)
  {
    PrintHead(m.start, m.fields) + BodyWire(m.body)
  }

  predicate AllWellFormed(ms: seq<Message>, policy: Policy) {
    forall k :: 0 <= k < |ms| ==> WellFormed(ms[k], policy)
  }

  function SerializeAll(ms: seq<Message>, policy: Policy): seq<byte>
    requires AllWellFormed(ms, policy)
  {
    if ms == [] then [] else Serialize(ms[0]) + SerializeAll(ms[1..], policy)
  }

  // ----- which messages are well formed

  const ROOT: seq<byte> := [47]

  function Plain(fields: seq<Field>, body: Body): Message {
    Message(RequestStart(POST, ROOT, Http10), fields, body)
  }

  lemma PlainStart()
    ensures ValidStart(RequestStart(POST, ROOT, Http10))
  {
  }

  /** A single field says what it contributes and nothing else. */
  lemma OneFieldFacts(f: Field)
    ensures FactsOf([f]) == Facts(Contribution(f, KTransferEncoding), Contribution(f, KContentLength),
                                  Contribution(f, KConnection), Contribution(f, KUpgrade), Contribution(f, KHost),
                                  Contribution(f, KExpect), Contribution(f, KTrailer))
  {
    hide Contribution, Gather;
    forall k: Kind
      ensures Gather([f], k) == Contribution(f, k)
    {
      GatherOne(f, k);
    }
  }

  lemma ChunkedTrims()
    ensures Trim(CHUNKED) == CHUNKED && Find(CHUNKED, 0, |CHUNKED|, COMMA) == |CHUNKED|
    ensures Find(CHUNKED, 0, |CHUNKED|, SEMICOLON) == |CHUNKED|
  {
    assert CHUNKED[0..|CHUNKED|] == CHUNKED;
  }

  lemma ChunkedIsOneElement()
    ensures Elements(CHUNKED) == [CHUNKED] && ValidCoding(CHUNKED) && IsChunked(CHUNKED)
    ensures CountChunked([CHUNKED]) == 1
  {
    hide Trim;
    ChunkedTrims();
    assert [CHUNKED][..0] == [];
  }

  lemma TransferEncodingIsField()
    ensures KindOf(TRANSFER_ENCODING) == KTransferEncoding
    ensures ValidField(Field(TRANSFER_ENCODING, CHUNKED))
  {
  }

  lemma TransferEncodingFacts()
    ensures FactsOf([Field(TRANSFER_ENCODING, CHUNKED)]) == Facts([CHUNKED], [], [], [], [], [], [])
  {
    hide KindOf, Elements, FactsOf, ValidField;
    TransferEncodingIsField();
    ChunkedIsOneElement();
    OneFieldFacts(Field(TRANSFER_ENCODING, CHUNKED));
  }

  /** Every chunked encoding is the body of some well-formed request. */
  lemma ChunkedRequestsExist(e: G.Encoding, policy: Policy)
    requires G.Valid(e, true)
    ensures WellFormed(Plain([Field(TRANSFER_ENCODING, CHUNKED)], Encoded(e)), policy)
  {
    hide FactsOf, ValidStart, ValidField, ValidCoding, IsChunked, CountChunked, G.Valid;
    PlainStart();
    TransferEncodingIsField();
    TransferEncodingFacts();
    ChunkedIsOneElement();
  }

  lemma ContentLengthIsField(v: seq<byte>)
    requires ValidLength(v) && |v| <= MAX_HEADER_LINE - 16
    ensures KindOf(CONTENT_LENGTH) == KContentLength
    ensures ValidField(Field(CONTENT_LENGTH, v))
  {
    hide DecimalValue;
  }

  lemma ContentLengthFacts(v: seq<byte>)
    requires ValidLength(v) && |v| <= MAX_HEADER_LINE - 16
    ensures FactsOf([Field(CONTENT_LENGTH, v)]) == Facts([], [v], [], [], [], [], [])
    ensures ValidField(Field(CONTENT_LENGTH, v))
  {
    hide KindOf, FactsOf, ValidField, ValidLength;
    ContentLengthIsField(v);
    OneFieldFacts(Field(CONTENT_LENGTH, v));
  }

  /** So is every body whose length the fields announce. */
  lemma SizedRequestsExist(v: seq<byte>, data: seq<byte>, policy: Policy)
    requires ValidLength(v) && |v| <= MAX_HEADER_LINE - 16 && DecimalValue(v) == |data|
    ensures WellFormed(Plain([Field(CONTENT_LENGTH, v)], Sized(data)), policy)
  {
    hide FactsOf, ValidStart, ValidField, ValidLength, DecimalValue, RequestAccepted, RequestFraming;
    PlainStart();
    ContentLengthFacts(v);
    SizedFacts(v, policy.rejectTeCl);
  }

  lemma SizedFacts(v: seq<byte>, rejectTeCl: bool)
    requires ValidLength(v)
    ensures var f := Facts([], [v], [], [], [], [], []);
            && RequestAccepted(f, Http10, rejectTeCl) && LengthsOk(f.cl)
            && RequestFraming(f, Http10, 0).mode == FixedBody
            && RequestFraming(f, Http10, 0).contentLength == DecimalValue(v)
  {
    hide DecimalValue;
  }

  // ----- the consumer's loop

  /** One request as the consumer sees it. */
  datatype Received = Received(start: Start, fields: seq<Field>, framing: Framing, body: seq<byte>)

  /** A request and the number of octets it took, or none: incomplete, rejected, or cut short. */
  datatype Turn = Got(r: Received, used: nat) | Stuck

  function TakeOne(wire: seq<byte>, policy: Policy): (t: Turn)
    ensures t.Got? ==> 0 < t.used <= |wire|
  {
    var o := OneShot(RequestMode, wire, MAX_HEADERS, policy);
    if o.status != Ok || o.consumed == 0 || o.consumed > |wire| || !LineInside(wire, o.state.line) then Stuck
    else
      var fields := FieldsAt(wire, o.state.headers);
      var start := StartAt(wire, o.state.line);
      if !start.RequestStart? || !RequestAccepted(FactsOf(fields), start.version, policy.rejectTeCl) then Stuck
      else TakeBody(wire, start, fields, o.consumed)
  }

  /** The body behind a head of n octets. */
  function TakeBody(wire: seq<byte>, start: Start, fields: seq<Field>, n: nat): (t: Turn)
    requires 0 < n <= |wire| && start.RequestStart? && LengthsOk(FactsOf(fields).cl)
    ensures t.Got? ==> 0 < t.used <= |wire|
  {
    var framing := RequestFraming(FactsOf(fields), start.version, 0);
    match framing.mode
    case NoBody => Got(Received(start, fields, framing, []), n)
    case FixedBody =>
      if framing.contentLength > |wire| - n then Stuck
      else Got(Received(start, fields, framing, wire[n..n + framing.contentLength]), n + framing.contentLength)
    case ChunkedBody =>
      var r := C.Run(C.Start(true), wire[n..]);
      if r.Complete? && r.used <= |wire| - n then Got(Received(start, fields, framing, r.out), n + r.used) else Stuck
    case UntilClose => Stuck
  }

  datatype Drained = Drained(received: seq<Received>, rest: seq<byte>)

  /** Takes requests until nothing is left or nothing more can be taken. */
  function Drain(wire: seq<byte>, policy: Policy): Drained
    decreases |wire|
  {
    match TakeOne(wire, policy)
    case Stuck => Drained([], wire)
    case Got(r, used) =>
      var d := Drain(wire[used..], policy);
      Drained([r] + d.received, d.rest)
  }

  // ----- recovery

  function ReceivedOf(m: Message, policy: Policy): Received
    requires WellFormed(m, policy)
  {
    Received(m.start, m.fields, RequestFraming(FactsOf(m.fields), m.start.version, 0), BodyBytes(m.body))
  }

  /** Each stage stops at its boundary: the head where the body begins, the body where the next
      request begins. */
  lemma OneMessage(m: Message, rest: seq<byte>, policy: Policy)
    requires WellFormed(m, policy)
    ensures TakeOne(Serialize(m) + rest, policy) == Got(ReceivedOf(m, policy), |Serialize(m)|)
  {
    hide OneShot, FactsOf, RequestAccepted, RequestFraming, PrintHead, StartAt, FieldsAt, C.Run, ValidStart,
          ValidFields;
    var head, body := PrintHead(m.start, m.fields), BodyWire(m.body);
    ParsePrinted(m.start, m.fields, body + rest, policy);
    PrintedIsNonEmpty(m.start, m.fields);
    var wire := Serialize(m) + rest;
    assert wire == head + (body + rest);
    assert wire[|head|..] == body + rest;
    BodyRecovered(m, wire, rest, policy);
  }

  lemma PrintedIsNonEmpty(st: Start, fs: seq<Field>)
    requires ValidStart(st)
    ensures |PrintHead(st, fs)| > 0
  {
  }

  lemma BodyRecovered(m: Message, wire: seq<byte>, rest: seq<byte>, policy: Policy)
    requires WellFormed(m, policy)
    requires wire == PrintHead(m.start, m.fields) + (BodyWire(m.body) + rest)
    requires 0 < |PrintHead(m.start, m.fields)|
    ensures LengthsOk(FactsOf(m.fields).cl)
    ensures TakeBody(wire, m.start, m.fields, |PrintHead(m.start, m.fields)|)
            == Got(ReceivedOf(m, policy), |Serialize(m)|)
  {
    hide FactsOf, RequestFraming, PrintHead, C.Run, ValidStart, ValidFields, G.Wire, G.Valid;
    var n := |PrintHead(m.start, m.fields)|;
    var body := BodyWire(m.body);
    assert wire[n..] == body + rest;
    match m.body {
      case Absent =>
        assert PrintHead(m.start, m.fields) + [] == PrintHead(m.start, m.fields);
      case Sized(data) =>
        assert wire[n..n + |data|] == data;
      case Encoded(e) =>
        G.SentenceCompletes(e, true, rest);
    }
  }

  lemma {:induction false} DrainsThenContinues(ms: seq<Message>, rest: seq<byte>, policy: Policy)
    requires AllWellFormed(ms, policy)
    ensures var d := Drain(rest, policy);
            Drain(SerializeAll(ms, policy) + rest, policy)
            == Drained(AllReceived(ms, policy) + d.received, d.rest)
    decreases |ms|
  {
    hide WellFormed, Serialize, TakeOne, ReceivedOf, SerializeAll, AllReceived, Drain, SerializeFirst;
    var d := Drain(rest, policy);
    if ms == [] {
      NothingSerialized(ms, policy);
      assert [] + rest == rest && [] + d.received == d.received;
    } else {
      SerializeUnfolds(ms, policy);
      var first := SerializeFirst(ms, policy);
      var tail := SerializeAll(ms[1..], policy) + rest;
      assert first + SerializeAll(ms[1..], policy) + rest == first + tail;
      OneMessageAt(ms[0], first, tail, policy);
      DrainUnfolds(first + tail, policy);
      assert (first + tail)[|first|..] == tail;
      DrainsThenContinues(ms[1..], rest, policy);
      var r, others := ReceivedOf(ms[0], policy), AllReceived(ms[1..], policy);
      assert [r] + (others + d.received) == [r] + others + d.received;
    }
  }

  lemma NothingSerialized(ms: seq<Message>, policy: Policy)
    requires ms == []
    ensures SerializeAll(ms, policy) == [] && AllReceived(ms, policy) == []
  {
  }

  lemma SerializeUnfolds(ms: seq<Message>, policy: Policy)
    requires ms != [] && AllWellFormed(ms, policy)
    ensures SerializeAll(ms, policy) == SerializeFirst(ms, policy) + SerializeAll(ms[1..], policy)
    ensures SerializeFirst(ms, policy) == Serialize(ms[0])
    ensures AllReceived(ms, policy) == [ReceivedOf(ms[0], policy)] + AllReceived(ms[1..], policy)
  {
    hide WellFormed, Serialize, ReceivedOf;
  }

  function AllReceived(ms: seq<Message>, policy: Policy): (rs: seq<Received>)
    requires AllWellFormed(ms, policy)
    ensures |rs| == |ms|
    ensures forall k :: 0 <= k < |ms| ==> rs[k] == ReceivedOf(ms[k], policy)
  {
    seq(|ms|, k requires 0 <= k < |ms| => ReceivedOf(ms[k], policy))
  }

  function SerializeFirst(ms: seq<Message>, policy: Policy): seq<byte>
    requires ms != [] && AllWellFormed(ms, policy)
  {
    Serialize(ms[0])
  }

  lemma OneMessageAt(m: Message, wire: seq<byte>, rest: seq<byte>, policy: Policy)
    requires WellFormed(m, policy) && wire == Serialize(m)
    ensures TakeOne(wire + rest, policy) == Got(ReceivedOf(m, policy), |wire|)
  {
    OneMessage(m, rest, policy);
  }

  /** Pipelining: any list of well-formed requests serialised back to back comes out as that
      list, bodies included, with no octet left over. */
  lemma PipelineRoundTrip(ms: seq<Message>, policy: Policy)
    requires AllWellFormed(ms, policy)
    ensures Drain(SerializeAll(ms, policy), policy)
            == Drained(AllReceived(ms, policy), [])
  {
    hide SerializeAll, WellFormed, ReceivedOf;
    DrainsThenContinues(ms, [], policy);
    assert SerializeAll(ms, policy) + [] == SerializeAll(ms, policy);
    NothingToTake(policy);
    assert AllReceived(ms, policy) + [] == AllReceived(ms, policy);
  }

  lemma NothingToTake(policy: Policy)
    ensures Drain([], policy) == Drained([], [])
  {
  }

  // ----- the loop itself

  lemma {:induction false} OrderedInside(s: seq<byte>, lo: nat, hi: nat, hs: seq<Header>)
    requires Ordered(s, lo, hi, hs)
    ensures forall i :: 0 <= i < |hs| ==> Inside(s, hs[i])
    decreases |hs|
  {
    if hs != [] {
      var init := hs[..|hs| - 1];
      OrderedInside(s, lo, hs[|hs| - 1].name, init);
      forall i | 0 <= i < |hs|
        ensures Inside(s, hs[i])
      {
        assert i < |init| ==> hs[i] == init[i];
      }
    }
  }

  lemma AcceptedLineInside(s: seq<byte>, policy: Policy)
    requires ParseRequestLine(s, 0, policy).status == Ok
    ensures LineInside(s, ParseRequestLine(s, 0, policy).line)
  {
    RequestLineFills(s, policy);
  }

  /** The spans of an accepted request can be read. */
  lemma AcceptedHeadInside(s: seq<byte>, policy: Policy)
    requires OneShot(RequestMode, s, MAX_HEADERS, policy).status == Ok
    ensures var o := OneShot(RequestMode, s, MAX_HEADERS, policy);
            && 0 < o.consumed <= |s| && o.state.line.RequestLine? && LineInside(s, o.state.line)
            && forall i :: 0 <= i < |o.state.headers| ==> Inside(s, o.state.headers[i])
  {
    hide ParseBlock, ParseRequestLine, LineInside, Ordered, Inside;
    var o := OneShot(RequestMode, s, MAX_HEADERS, policy);
    HeadersOrdered(RequestMode, s, MAX_HEADERS, policy);
    OrderedInside(s, HeadersBegin(RequestMode, s, policy), o.consumed, o.state.headers);
    AcceptedLineInside(s, policy);
  }

  /** Decodes a body behind a head of n octets with the decoder its framing asks for. */
  method ReadBody(wire: seq<byte>, n: nat, mode: BodyMode, contentLength: nat)
    returns (ok: bool, body: seq<byte>, rest: seq<byte>)
    requires 0 < n <= |wire| < 0x8000_0000
    ensures |rest| <= |wire| - n
    ensures match mode
            case NoBody => ok && body == [] && rest == wire[n..]
            case FixedBody =>
              && (ok <==> contentLength <= |wire| - n)
              && (ok ==> body == wire[n..n + contentLength] && rest == wire[n + contentLength..])
            case ChunkedBody =>
              var r := C.Run(C.Start(true), wire[n..]);
              && (ok <==> r.Complete?)
              && (ok ==> r.used <= |wire| - n && body == r.out && rest == wire[n + r.used..])
            case UntilClose => !ok
  {
    hide C.Run;
    ok, body, rest := false, [], wire[n..];
    match mode {
      case NoBody =>
        ok := true;
      case FixedBody =>
        var counter := new FixedBody.FixedDecoder(contentLength);
        var take := if contentLength < |wire| - n then contentLength else |wire| - n;
        var status := counter.Consume(take);
        if status == Ok {
          ok, body, rest := true, wire[n..n + contentLength], wire[n + contentLength..];
        }
      case ChunkedBody =>
        var tail := new byte[|wire| - n](k requires 0 <= k < |wire| - n => wire[n + k]);
        var decoder := new ChunkDecoder.Chunked(true);
        assert tail[..tail.Length] == wire[n..];
        var trailing, size := decoder.Decode(tail, tail.Length);
        ghost var r := C.Run(C.Start(true), wire[n..]);
        if trailing >= 0 {
          assert r.Complete?;
          ChunkDecoder.CastKeepsCount(tail.Length - r.used);
          ok, body, rest := true, tail[..size], tail[size..size + trailing];
          assert wire[n..][r.used..] == wire[n + r.used..];
        } else if r.Complete? {
          ChunkDecoder.CastKeepsCount(tail.Length - r.used);
          assert false;
        }
      case UntilClose =>
    }
  }

  /** The loop of a consumer that keeps one parser state and resets it between requests. */
  method DrainLoop(input: seq<byte>, policy: Policy, vt: Scanner.Vtable, littleEndian: bool)
    returns (received: seq<Received>, rest: seq<byte>)
    requires |input| < 0x8000_0000
    ensures Drained(received, rest) == Drain(input, policy)
  {
    hide TakeOne, Drain;
    received, rest := [], input;
    var state := new Head.ParserState(RequestMode);
    assert [] + Drain(input, policy).received == Drain(input, policy).received;
    while true
      invariant |rest| < 0x8000_0000
      invariant fresh(state)
      invariant state.mode == RequestMode && state.phase == AtStartLine && state.cursor == 0
      invariant Drain(input, policy) == (var d := Drain(rest, policy); Drained(received + d.received, d.rest))
      decreases |rest|
    {
      var more, r, next := TakeTurn(state, rest, policy, vt, littleEndian);
      DrainUnfolds(rest, policy);
      if !more {
        assert received + [] == received;
        return;
      }
      assert received + ([r] + Drain(next, policy).received) == received + [r] + Drain(next, policy).received;
      received, rest := received + [r], next;
      state.Reset();
    }
  }

  lemma DrainUnfolds(wire: seq<byte>, policy: Policy)
    ensures var t := TakeOne(wire, policy);
            && (t.Stuck? ==> Drain(wire, policy) == Drained([], wire))
            && (t.Got? ==>
                  && Drain(wire, policy).received == [t.r] + Drain(wire[t.used..], policy).received
                  && Drain(wire, policy).rest == Drain(wire[t.used..], policy).rest)
  {
  }

  /** One request: stateful parse, semantics, body. */
  method TakeTurn(state: Head.ParserState, wire: seq<byte>, policy: Policy, vt: Scanner.Vtable, littleEndian: bool)
    returns (more: bool, r: Received, next: seq<byte>)
    requires |wire| < 0x8000_0000
    requires state.mode == RequestMode && state.phase == AtStartLine && state.cursor == 0
    modifies state`phase, state`cursor
    ensures var t := TakeOne(wire, policy);
            && more == t.Got?
            && (more ==> r == t.r && next == wire[t.used..])
  {
    hide ParseStartLine, AdvanceHeaders, FactsOf, RequestAccepted, RequestFraming, StartAt, LineInside, C.Run;
    hide FramingRule.RequestRule, FramingRule.RequestOutcomeIs;
    more, next := false, wire;
    r := Received(RequestStart([], [], Http10), [], Framing(NoBody, 0, false, false, false, false), []);
    var req := new Head.Request();
    var status, n := Head.ParseRequestStateful(state, wire, req, policy, littleEndian);
    if status != Ok {
      return;
    }
    AcceptedHeadInside(wire, policy);
    var start, fields := StartAt(wire, req.Line()), FieldsAt(wire, req.Fields());
    status := Semantics.ApplyRequestSemantics(wire, req, policy, vt);
    StartKeepsVersion(wire, req.Line());
    if status != Ok {
      return;
    }
    AcceptedLengths(FactsOf(fields), start.version, policy.rejectTeCl);
    var framing := Framing(req.bodyMode, req.contentLength, req.keepAlive, req.protocolUpgrade,
                           req.expectsContinue, req.hasTrailerFields);
    var ok, body, rest := ReadBody(wire, n, req.bodyMode, req.contentLength);
    if ok {
      more, r, next := true, Received(start, fields, framing, body), rest;
    }
  }

  lemma StartKeepsVersion(s: seq<byte>, line: StartLine)
    requires line.RequestLine? && LineInside(s, line)
    ensures StartAt(s, line).RequestStart? && StartAt(s, line).version == line.version
  {
  }
}
