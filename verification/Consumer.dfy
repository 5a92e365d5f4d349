/** The consumer of module Arrival as an object: one parser state, an accumulated head buffer, and
    the decoder of the body in progress, all kept from one arrival to the next. */
module Consumer {
  import opened Bytes
  import opened Types
  import opened HeadSpec
  import opened HeadRuns
  import opened HeadPrint
  import opened SemanticsSpec
  import opened Pipeline
  import opened Arrival
  import C = ChunkSpec
  import ChunkDecoder
  import FixedBody
  import FramingRule
  import Head
  import Semantics
  import Scanner

  lemma JudgedBody(start: Start, fields: seq<Field>, policy: Policy)
    requires start.RequestStart?
    ensures var f := FactsOf(fields);
            if RequestAccepted(f, start.version, policy.rejectTeCl) then
              LengthsOk(f.cl) && BodyOf(start, fields, policy)
                                 == Announced(start, fields, RequestFraming(f, start.version, 0))
            else BodyOf(start, fields, policy) == Broken
  {
    hide FactsOf, Announced, RequestFraming;
  }

  lemma ReadingMoves(c: Conn, data: seq<byte>, policy: Policy)
    requires c.Reading?
    ensures var taken := data[..if c.missing < |data| then c.missing else |data|];
            var so := c.got + taken;
            MoveOn(c, data, policy)
            == if c.missing <= |data| then Go([Received(c.start, c.fields, c.framing, so)], FRESH, data[c.missing..])
               else Stay(c.(got := so, missing := c.missing - |taken|))
  {
    assert c.missing > |data| ==> data[..|data|] == data;
  }

  datatype Stage = InHead | InFixed | InChunks | Dead

  class Connection {
    const state: Head.ParserState
    const policy: Policy
    const vt: Scanner.Vtable
    const littleEndian: bool
    var request: Head.Request
    var counter: FixedBody.FixedDecoder
    var decoder: ChunkDecoder.Chunked
    var stage: Stage
    var buffer: seq<byte>
    var start: Start
    var fields: seq<Field>
    var framing: Framing
    var got: seq<byte>

    ghost function Repr(): set<object>
      reads this
    {
      {this, state, request, request.headers, counter, decoder}
    }

    ghost predicate Valid()
      reads this, state, request, request.headers, counter, decoder
      ensures Valid() ==> request.Valid()
    {
      && state.mode == RequestMode && request.Valid() && decoder.Valid()
      && (stage == InHead ==> request.contentLength == 0)
      && Consistent(Value(), policy)
    }

    /** Where the connection stands. */
    ghost function Value(): Conn
      requires request.Valid()
      reads this, state, request, request.headers, counter, decoder
    {
      match stage
      case InHead => Heading(Head.RequestState(state, request), buffer)
      case InFixed => Reading(start, fields, framing, got, counter.remaining)
      case InChunks => Decoding(start, fields, framing, got, decoder.Value())
      case Dead => Broken
    }

    constructor (policy: Policy, vt: Scanner.Vtable, littleEndian: bool)
      ensures Valid() && fresh(Repr()) && Value() == FRESH && this.policy == policy
    {
      hide Consistent, Valid, Value, OneShot;
      this.policy, this.vt, this.littleEndian := policy, vt, littleEndian;
      state := new Head.ParserState(RequestMode);
      request := new Head.Request();
      counter := new FixedBody.FixedDecoder(0);
      decoder := new ChunkDecoder.Chunked(true);
      stage, buffer, fields, got := InHead, [], [], [];
      start := RequestStart([], [], Http10);
      framing := Framing(NoBody, 0, false, false, false, false);
      new;
      Settle();
    }

    /** A fresh head is one to start from. */
    lemma Settle()
      requires state.mode == RequestMode && request.Valid() && decoder.Valid()
      requires stage == InHead && buffer == [] && request.contentLength == 0
      requires Head.RequestState(state, request) == Initial(RequestMode)
      ensures Valid() && Value() == FRESH
    {
      hide Consistent;
      FreshIsConsistent(policy);
    }

    /** Everything back to the state between two requests. */
    method Restart()
      requires state.mode == RequestMode && decoder.Valid()
      modifies this, state
      ensures Valid() && fresh(Repr() - old(Repr())) && Value() == FRESH
    {
      hide Consistent, Valid, Value;
      request := new Head.Request();
      state.Reset();
      stage, buffer := InHead, [];
      Settle();
    }

    /** The body that an accepted head announces. */
    method EnterBody()
      requires request.Valid() && decoder.Valid() && state.mode == RequestMode
      requires framing.mode == request.bodyMode && framing.contentLength == request.contentLength
      modifies this
      ensures Valid() && fresh(Repr() - old(Repr())) && stage != InHead
      ensures Value() == Announced(old(start), old(fields), old(framing))
    {
      hide Consistent;
      got := [];
      match request.bodyMode {
        case NoBody =>
          counter := new FixedBody.FixedDecoder(0);
          stage := InFixed;
        case FixedBody =>
          counter := new FixedBody.FixedDecoder(request.contentLength);
          stage := InFixed;
        case ChunkedBody =>
          decoder := new ChunkDecoder.Chunked(true);
          stage := InChunks;
        case UntilClose =>
          stage := Dead;
      }
      BodyIsConsistent(Value(), policy);
    }

    /** One stateful call on the accumulated buffer answers like a one-shot call. */
    method ParseHead(all: seq<byte>) returns (status: Status, n: nat)
      requires Valid() && stage == InHead && buffer <= all
      modifies state, request, request.headers
      ensures request.Valid() && state.mode == RequestMode && decoder.Valid()
      ensures request.contentLength == old(request.contentLength)
      ensures var o := OneShot(RequestMode, all, MAX_HEADERS, policy);
              && status == o.status && n == o.consumed
              && (status == Ok || status == Incomplete ==> Head.RequestState(state, request) == o.state)
    {
      hide OneShot, Advance;
      ResumeAgrees(RequestMode, buffer, all, MAX_HEADERS, policy);
      status, n := Head.ParseRequestStateful(state, all, request, policy, littleEndian);
    }

    /** The semantics of a head whose parts were read. */
    method ApplySemantics(all: seq<byte>) returns (status: Status)
      requires request.Valid() && request.contentLength == 0
      requires forall i :: 0 <= i < request.numHeaders ==> Inside(all, request.headers[i])
      requires fields == FieldsAt(all, request.Fields()) && start.RequestStart? && start.version == request.version
      modifies request, this`framing
      ensures request.Valid()
      ensures status == Ok <==> RequestAccepted(FactsOf(fields), start.version, policy.rejectTeCl)
      ensures status == Ok ==>
                && LengthsOk(FactsOf(fields).cl)
                && framing == RequestFraming(FactsOf(fields), start.version, 0)
                && framing.mode == request.bodyMode && framing.contentLength == request.contentLength
    {
      hide FactsOf, RequestAccepted, RequestFraming, FieldsAt, Inside;
      hide FramingRule.RequestRule, FramingRule.RequestOutcomeIs;
      status := Semantics.ApplyRequestSemantics(all, request, policy, vt);
      if status == Ok {
        AcceptedLengths(FactsOf(fields), start.version, policy.rejectTeCl);
        framing := Framing(request.bodyMode, request.contentLength, request.keepAlive, request.protocolUpgrade,
                           request.expectsContinue, request.hasTrailerFields);
      }
    }

    method GiveUp()
      requires request.Valid() && decoder.Valid() && state.mode == RequestMode
      modifies this`stage
      ensures Valid() && Value() == Broken && stage == Dead
    {
      hide Consistent;
      stage := Dead;
      BodyIsConsistent(Value(), policy);
    }

    /** The semantics of an accepted head, and then its body. */
    method JudgeHead(all: seq<byte>)
      requires request.Valid() && decoder.Valid() && state.mode == RequestMode && request.contentLength == 0
      requires LineInside(all, request.Line())
      requires forall i :: 0 <= i < request.numHeaders ==> Inside(all, request.headers[i])
      modifies this, request
      ensures Valid() && fresh(Repr() - old(Repr())) && stage != InHead
      ensures Value() == BodyOf(StartAt(all, old(request.Line())), FieldsAt(all, old(request.Fields())), policy)
    {
      hide FactsOf, RequestAccepted, RequestFraming, StartAt, LineInside, FieldsAt, Announced, Inside, BodyOf, Valid,
           Value;
      start, fields := StartAt(all, request.Line()), FieldsAt(all, request.Fields());
      StartKeepsVersion(all, request.Line());
      JudgedBody(start, fields, policy);
      var status := ApplySemantics(all);
      if status == Ok {
        EnterBody();
      } else {
        GiveUp();
      }
    }

    /** A head in progress: parse, and judge it once it is accepted. */
    method ReadHead(data: seq<byte>) returns (go: bool, rest: seq<byte>)
      requires Valid() && stage == InHead
      modifies Repr()
      ensures Valid() && fresh(Repr() - old(Repr()))
      ensures MoveOn(old(Value()), data, policy) == if go then Go([], Value(), rest) else Stay(Value())
    {
      hide OneShot, StartAt, LineInside, FieldsAt, BodyOf, MoveOn, Consistent, Inside;
      ghost var c := Value();
      var all := buffer + data;
      MoveKeepsConsistent(c, data, policy);
      HeadingIsOneShot(c, data, policy);
      var status, n := ParseHead(all);
      buffer, go, rest := all, false, [];
      if status == Incomplete {
        return;
      }
      if status != Ok {
        GiveUp();
        return;
      }
      AcceptedHeadInside(all, policy);
      JudgeHead(all);
      go, rest := true, all[n..];
    }

    /** Counts as many octets as the body still misses. */
    method CountFixed(data: seq<byte>) returns (full: bool, rest: seq<byte>)
      modifies counter, this`got
      ensures var n := if old(counter.remaining) < |data| then old(counter.remaining) else |data|;
              && full == (old(counter.remaining) <= |data|)
              && counter.remaining == old(counter.remaining) - n
              && got == old(got) + data[..n] && rest == data[n..]
    {
      var take := if counter.remaining < |data| then counter.remaining else |data|;
      var status := counter.Consume(take);
      full, got, rest := status == Ok, got + data[..take], data[take..];
    }

    /** Octets of a fixed-length body. */
    method ReadFixed(data: seq<byte>) returns (go: bool, received: seq<Received>, rest: seq<byte>)
      requires Valid() && stage == InFixed
      modifies Repr()
      ensures Valid() && fresh(Repr() - old(Repr()))
      ensures MoveOn(old(Value()), data, policy) == if go then Go(received, Value(), rest) else Stay(Value())
    {
      hide Consistent, MoveOn;
      ReadingMoves(Value(), data, policy);
      received := [];
      go, rest := CountFixed(data);
      if go {
        received := [Received(start, fields, framing, got)];
        Restart();
      } else {
        BodyIsConsistent(Value(), policy);
      }
    }

    /** The chunked decoder on octets copied to a buffer of their own, where it works in place. */
    method DecodeSlice(data: seq<byte>) returns (status: int, payload: seq<byte>, rest: seq<byte>)
      requires decoder.Valid() && |data| < 0x8000_0000
      modifies decoder
      ensures decoder.Valid()
      ensures match C.Run(old(decoder.Value()), data)
              case Need(d, out) =>
                status == ChunkDecoder.STATUS_INCOMPLETE && payload == out && decoder.Value() == d
              case Bad(_, _, _) => status == ChunkDecoder.STATUS_ERROR
              case Complete(_, out, used) => status >= 0 && used <= |data| && payload == out && rest == data[used..]
    {
      hide C.Run;
      ghost var r := C.Run(decoder.Value(), data);
      var slice := new byte[|data|](k requires 0 <= k < |data| => data[k]);
      assert slice[..slice.Length] == data;
      var size;
      status, size := decoder.Decode(slice, slice.Length);
      payload, rest := slice[..size], [];
      if r.Complete? {
        ChunkDecoder.CastKeepsCount(slice.Length - r.used);
      }
      if status >= 0 {
        rest := slice[size..size + status];
      }
    }

    /** Octets of a chunked body. */
    method ReadChunks(data: seq<byte>) returns (go: bool, received: seq<Received>, rest: seq<byte>)
      requires Valid() && stage == InChunks && |data| < 0x8000_0000
      modifies Repr()
      ensures Valid() && fresh(Repr() - old(Repr()))
      ensures MoveOn(old(Value()), data, policy) == if go then Go(received, Value(), rest) else Stay(Value())
    {
      hide C.Run, Consistent;
      go, received := false, [];
      var status, payload;
      status, payload, rest := DecodeSlice(data);
      if status >= 0 {
        go, received := true, [Received(start, fields, framing, got + payload)];
        Restart();
      } else if status == ChunkDecoder.STATUS_INCOMPLETE {
        got := got + payload;
        BodyIsConsistent(Value(), policy);
      } else {
        GiveUp();
      }
    }

    /** One move, whatever the stage. */
    method Step(data: seq<byte>) returns (go: bool, received: seq<Received>, rest: seq<byte>)
      requires Valid() && |data| < 0x8000_0000
      modifies Repr()
      ensures Valid() && fresh(Repr() - old(Repr()))
      ensures MoveOn(old(Value()), data, policy) == if go then Go(received, Value(), rest) else Stay(Value())
    {
      hide MoveOn, Consistent;
      received := [];
      match stage {
        case InHead =>
          go, rest := ReadHead(data);
        case InFixed =>
          go, received, rest := ReadFixed(data);
        case InChunks =>
          go, received, rest := ReadChunks(data);
        case Dead =>
          BrokenStays(data, policy);
          go, rest := false, [];
      }
    }

    /** An arrival: head, body, next head and so on until the octets are used up. */
    method Receive(data: seq<byte>) returns (received: seq<Received>)
      requires Valid() && Backlog(Value()) + |data| < 0x8000_0000
      modifies Repr()
      ensures Valid() && fresh(Repr() - old(Repr()))
      ensures Progress(Value(), received) == Arrive(old(Value()), data, policy)
    {
      hide MoveOn, Arrive, Behind, Valid, Value;
      ghost var whole := Arrive(Value(), data, policy);
      received := [];
      var rest, go := data, true;
      BehindTwice([], [], whole);
      while go
        invariant Valid() && fresh(Repr() - old(Repr()))
        invariant go ==> Backlog(Value()) + |rest| < 0x8000_0000
        invariant go ==> whole == Behind(received, Arrive(Value(), rest, policy))
        invariant !go ==> whole == Progress(Value(), received)
        decreases if go then 1 else 0, Backlog(Value()) + |rest|, if Value().Heading? then 0 else 1
      {
        ArriveUnfolds(Value(), rest, policy);
        var r;
        go, r, rest := Step(rest);
        if go {
          BehindTwice(received, r, Arrive(Value(), rest, policy));
          received := received + r;
        } else {
          BehindKeepsConn(received, Progress(Value(), []));
          assert received + [] == received;
        }
      }
    }
  }
}
