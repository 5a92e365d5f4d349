/** The head parser in the form of the source: scans over the buffer, a parser state object and
    output structures updated in place. Every method is proved against module HeadSpec. */
module Head {
  import opened Bytes
  import opened Types
  import opened HeadSpec
  import StartGrammar
  import Words

  class ParserState {
    var mode: Mode
    var phase: Phase
    var cursor: nat

    constructor (mode: Mode)
      ensures this.mode == mode && phase == InitialPhase(mode) && cursor == 0
    {
      this.mode := mode;
      phase := if mode == HeadersMode then AtHeaders else AtStartLine;
      cursor := 0;
    }

    /** Back to the initial phase; outputs of earlier calls are not touched. */
    method Reset()
      modifies this
      ensures mode == old(mode) && phase == InitialPhase(mode) && cursor == 0
    {
      phase := if mode == HeadersMode then AtHeaders else AtStartLine;
      cursor := 0;
    }
  }

  class Request {
    var verb: Method
    var methodStr: nat
    var methodLen: nat
    var path: nat
    var pathLen: nat
    var version: Version
    const headers: array<Header>
    var numHeaders: nat

    var bodyMode: BodyMode
    var contentLength: nat
    var keepAlive: bool
    var protocolUpgrade: bool
    var expectsContinue: bool
    var hasTrailerFields: bool

    ghost predicate Valid()
      reads this
    {
      headers.Length == MAX_HEADERS && numHeaders <= MAX_HEADERS
    }

    function Line(): StartLine
      reads this
    {
      RequestLine(verb, methodStr, methodLen, path, pathLen, version)
    }

    function Fields(): seq<Header>
      requires numHeaders <= headers.Length
      reads this, headers
    {
      headers[..numHeaders]
    }

    /** A zeroed structure. */
    constructor ()
      ensures Valid() && fresh(headers)
      ensures Line() == ZeroLine(RequestMode) && Fields() == []
      ensures bodyMode == NoBody && contentLength == 0 && !keepAlive && !protocolUpgrade
      ensures !expectsContinue && !hasTrailerFields
    {
      verb, methodStr, methodLen, path, pathLen, version := Unknown, 0, 0, 0, 0, Http10;
      headers := new Header[MAX_HEADERS](_ => ZERO_HEADER);
      numHeaders := 0;
      bodyMode, contentLength, keepAlive, protocolUpgrade := NoBody, 0, false, false;
      expectsContinue, hasTrailerFields := false, false;
    }
  }

  class Response {
    var version: Version
    var statusCode: int
    var reason: nat
    var reasonLen: nat
    const headers: array<Header>
    var numHeaders: nat

    var bodyMode: BodyMode
    var contentLength: nat
    var keepAlive: bool
    var protocolUpgrade: bool
    var hasTrailerFields: bool

    ghost predicate Valid()
      reads this
    {
      headers.Length == MAX_HEADERS && numHeaders <= MAX_HEADERS
    }

    function Line(): StartLine
      reads this
    {
      StatusLine(version, statusCode, reason, reasonLen)
    }

    function Fields(): seq<Header>
      requires numHeaders <= headers.Length
      reads this, headers
    {
      headers[..numHeaders]
    }

    /** A zeroed structure. */
    constructor ()
      ensures Valid() && fresh(headers)
      ensures Line() == ZeroLine(ResponseMode) && Fields() == []
      ensures bodyMode == NoBody && contentLength == 0 && !keepAlive && !protocolUpgrade && !hasTrailerFields
    {
      version, statusCode, reason, reasonLen := Http10, 0, 0, 0;
      headers := new Header[MAX_HEADERS](_ => ZERO_HEADER);
      numHeaders := 0;
      bodyMode, contentLength, keepAlive, protocolUpgrade := NoBody, 0, false, false;
      hasTrailerFields := false;
    }
  }

  // ----- scans

  method FindLineEnd(s: seq<byte>, pos: nat, policy: Policy)
    returns (status: Status, lineEnd: nat, eol: nat)
    requires pos <= |s|
    ensures match LineAt(s, pos, policy)
            case Unterminated => status == Incomplete
            case BareLf => status == Error
            case Line(n, e) => status == Ok && lineEnd == pos + n && eol == e
  {
    lineEnd, eol := 0, 0;
    var lf := MemChr(s, pos, |s|, LF);
    if lf == |s| {
      status := Incomplete;
    } else if lf > pos && s[lf - 1] == CR {
      status, lineEnd, eol := Ok, lf - 1, 2;
    } else if policy.rejectBareLf {
      status := Error;
    } else {
      status, lineEnd, eol := Ok, lf, 1;
    }
  }

  method FindHeaderNameColon(text: seq<byte>) returns (found: bool, colon: nat)
    ensures colon == Find(text, 0, |text|, COLON)
    ensures found <==> 0 < colon < |text| && AllToken(text, 0, colon)
  {
    colon := MemChr(text, 0, |text|, COLON);
    if colon == |text| || colon == 0 {
      return false, colon;
    }
    var i := 0;
    while i < colon
      invariant 0 <= i <= colon
      invariant AllToken(text, 0, i)
    {
      if !IsTokenChar(text[i]) {
        return false, colon;
      }
      i := i + 1;
    }
    return true, colon;
  }

  method FindMethodSpace(text: seq<byte>) returns (found: bool, space: nat)
    ensures found <==> 0 < Find(text, 0, |text|, SP) < |text| && AllToken(text, 0, Find(text, 0, |text|, SP))
    ensures found ==> space == Find(text, 0, |text|, SP)
  {
    var i := 0;
    while i < |text|
      invariant 0 <= i <= |text|
      invariant AllToken(text, 0, i)
      invariant Find(text, 0, |text|, SP) == Find(text, i, |text|, SP)
    {
      if text[i] == SP {
        return i != 0, i;
      }
      if !IsTokenChar(text[i]) {
        return false, i;
      }
      i := i + 1;
    }
    return false, |text|;
  }

  /** memrchr as a backward scan, one past the match. */
  method FindLastChar(s: seq<byte>, from: nat, end: nat, c: byte) returns (r: nat)
    requires from <= end <= |s|
    ensures r == FindLast(s, from, end, c)
  {
    r := end;
    while r > from && s[r - 1] != c
      invariant from <= r <= end
      invariant FindLast(s, from, end, c) == FindLast(s, from, r, c)
    {
      r := r - 1;
    }
  }

  method TrimAndValidateFieldValue(s: seq<byte>, from: nat, end: nat, littleEndian: bool)
    returns (valid: bool, start: nat, len: nat)
    requires from <= end <= |s|
    ensures start == SkipLws(s, from, end)
    ensures start + len == TrimLws(s, start, end)
    ensures valid <==> AllText(s, start, start + len)
  {
    var first := from;
    while first < end && IsLws(s[first])
      invariant from <= first <= end
      invariant SkipLws(s, from, end) == SkipLws(s, first, end)
    {
      first := first + 1;
    }
    var last := end;
    while last > first && IsLws(s[last - 1])
      invariant first <= last <= end
      invariant TrimLws(s, first, end) == TrimLws(s, first, last)
    {
      last := last - 1;
    }
    if first == end {
      return true, end, 0;
    }
    valid := Words.FieldTextIsValid(s, first, last, littleEndian);
    return valid, first, last - first;
  }

  // ----- lines and blocks

  /** METHOD SP target SP version; fields are written as far as the line was understood. */
  method RequestLineParts(text: seq<byte>, pos: nat, req: Request, policy: Policy, littleEndian: bool)
    returns (valid: bool)
    modifies req`verb, req`methodStr, req`methodLen, req`path, req`pathLen, req`version
    ensures valid <==> !RequestLineOf(text, pos, policy).NoStartLine?
    ensures valid ==> req.Line() == RequestLineOf(text, pos, policy)
  {
    hide AllToken, AllTarget, MethodFromBytes;
    var found, sp1 := FindMethodSpace(text);
    if !found {
      return false;
    }
    req.methodStr := pos;
    req.methodLen := sp1;
    req.verb := MethodFromBytes(text[..sp1]);

    var version := FindLastChar(text, sp1 + 1, |text|, SP);
    if version == sp1 + 1 {
      return false;
    }
    req.path := pos + sp1 + 1;
    req.pathLen := version - 1 - (sp1 + 1);
    if req.pathLen == 0 {
      return false;
    }
    var targetOk := Words.RequestTargetIsValid(text, sp1 + 1, version - 1, policy.allowSpacesInUri, littleEndian);
    if !targetOk {
      return false;
    }
    if |text| - version != 8 || text[version..version + 7] != HTTP_1 {
      return false;
    }
    if text[version + 7] == 49 {
      req.version := Http11;
    } else if text[version + 7] == 48 {
      req.version := Http10;
    } else {
      return false;
    }
    return true;
  }

  /** The request line of req; on any status but Ok its fields are unspecified. */
  method ParseRequestLineInto(s: seq<byte>, pos: nat, req: Request, policy: Policy, littleEndian: bool)
    returns (status: Status, end: nat)
    requires pos <= |s|
    modifies req`verb, req`methodStr, req`methodLen, req`path, req`pathLen, req`version
    ensures status == ParseRequestLine(s, pos, policy).status
    ensures status == Ok ==> req.Line() == ParseRequestLine(s, pos, policy).line
    ensures status == Ok ==> end == ParseRequestLine(s, pos, policy).end
    ensures status == Incomplete ==> req.Line() == old(req.Line())
  {
    var lineStatus, brk, eol := FindLineEnd(s, pos, policy);
    end := 0;
    if lineStatus == Incomplete {
      return if |s| - pos > MAX_REQUEST_LINE then TooLong else Incomplete, 0;
    }
    if lineStatus != Ok {
      return lineStatus, 0;
    }
    if brk - pos > MAX_REQUEST_LINE {
      return TooLong, 0;
    }
    var valid := RequestLineParts(s[pos..brk], pos, req, policy, littleEndian);
    if !valid {
      return Error, 0;
    }
    return Ok, brk + eol;
  }

  /** HTTP/1.x SP code SP reason; fields are written as far as the line was understood. */
  method StatusLineParts(text: seq<byte>, pos: nat, resp: Response, littleEndian: bool)
    returns (valid: bool)
    modifies resp`version, resp`statusCode, resp`reason, resp`reasonLen
    ensures valid <==> !StatusLineOf(text, pos).NoStartLine?
    ensures valid ==> resp.Line() == StatusLineOf(text, pos)
  {
    if |text| < 13 || text[..7] != HTTP_1 {
      return false;
    }
    if text[7] == 49 {
      resp.version := Http11;
    } else if text[7] == 48 {
      resp.version := Http10;
    } else {
      return false;
    }
    if text[8] != SP {
      return false;
    }
    if !IsDigit(text[9]) || !IsDigit(text[10]) || !IsDigit(text[11]) {
      return false;
    }
    resp.statusCode := Digit(text[9]) * 100 + Digit(text[10]) * 10 + Digit(text[11]);
    if resp.statusCode < 100 || resp.statusCode > 599 {
      return false;
    }
    if text[12] != SP {
      return false;
    }
    resp.reason := pos + 13;
    resp.reasonLen := |text| - 13;
    if |text| > 13 {
      valid := Words.FieldTextIsValid(text, 13, |text|, littleEndian);
      return valid;
    }
    return true;
  }

  /** The status line of resp; on Error its fields are unspecified. There is no length limit. */
  method ParseStatusLineInto(s: seq<byte>, pos: nat, resp: Response, policy: Policy, littleEndian: bool)
    returns (status: Status, end: nat)
    requires pos <= |s|
    modifies resp`version, resp`statusCode, resp`reason, resp`reasonLen
    ensures status == ParseStatusLine(s, pos, policy).status
    ensures status == Ok ==> resp.Line() == ParseStatusLine(s, pos, policy).line
    ensures status == Ok ==> end == ParseStatusLine(s, pos, policy).end
    ensures status == Incomplete ==> resp.Line() == old(resp.Line())
  {
    var lineStatus, brk, eol := FindLineEnd(s, pos, policy);
    end := 0;
    if lineStatus != Ok {
      return lineStatus, 0;
    }
    var valid := StatusLineParts(s[pos..brk], pos, resp, littleEndian);
    if !valid {
      return Error, 0;
    }
    return Ok, brk + eol;
  }

  /** Extends the value of the last header over a continuation line. */
  method FoldLine(text: seq<byte>, pos: nat, headers: array<Header>, count: nat, littleEndian: bool, ghost next: nat)
    returns (valid: bool)
    requires 0 < count <= headers.Length
    modifies headers
    ensures valid <==> FoldStep(text, pos, next, old(headers[..count])).Next?
    ensures valid ==> headers[..count] == FoldStep(text, pos, next, old(headers[..count])).headers
    ensures forall k :: 0 <= k < headers.Length && k != count - 1 ==> headers[k] == old(headers[k])
  {
    valid := Words.FieldTextIsValid(text, 0, |text|, littleEndian);
    if valid {
      headers[count - 1] := headers[count - 1].(valueLen := pos + |text| - headers[count - 1].value);
    }
  }

  /** Writes slot `count` from one header line; the name goes in before the value is checked. */
  method FieldLine(text: seq<byte>, pos: nat, headers: array<Header>, count: nat, max: nat,
                   littleEndian: bool, ghost next: nat)
    returns (status: Status)
    requires count <= headers.Length && max <= headers.Length
    modifies headers
    ensures match FieldStep(text, pos, next, old(headers[..count]), max)
            case Next(_, h) => status == Ok && count < headers.Length && headers[..count + 1] == h
            case Stop(st, _, _) => status == st
    ensures forall k :: 0 <= k < headers.Length && k != count ==> headers[k] == old(headers[k])
  {
    var found, colon := FindHeaderNameColon(text);
    if !found {
      return Error;
    }
    if count >= max {
      return TooManyHeaders;
    }
    headers[count] := headers[count].(name := pos, nameLen := colon);
    var valid, start, len := TrimAndValidateFieldValue(text, colon + 1, |text|, littleEndian);
    if !valid {
      return Error;
    }
    headers[count] := headers[count].(value := pos + start, valueLen := len);
    return Ok;
  }

  /** One round of the header loop, on the line at pos. */
  method HeaderLine(s: seq<byte>, pos: nat, headers: array<Header>, count: nat, max: nat,
                    policy: Policy, littleEndian: bool)
    returns (more: bool, status: Status, pos': nat, count': nat)
    requires pos < |s|
    requires count <= headers.Length && max <= headers.Length
    modifies headers
    ensures match HeaderStep(s, pos, old(headers[..count]), max, policy)
            case Next(p, h) => more && pos' == p && count <= count' <= headers.Length && headers[..count'] == h
            case Stop(st, p, h) => !more && status == st && pos' == p && count' == count
                                   && (st == Ok || st == Incomplete ==> headers[..count] == h)
    ensures forall k :: 0 <= k < count - 1 ==> headers[k] == old(headers[k])
  {
    hide FieldStep, FoldStep;
    var continuation := IsLws(s[pos]);
    if policy.rejectObsFold && continuation {
      return false, Error, pos, count;
    }
    var lineStatus, brk, eol := FindLineEnd(s, pos, policy);
    if lineStatus == Incomplete {
      if |s| - pos > MAX_HEADER_LINE {
        return false, TooLong, pos, count;
      }
      return false, Incomplete, pos, count;
    }
    if lineStatus != Ok {
      return false, lineStatus, pos, count;
    }
    if brk - pos > MAX_HEADER_LINE {
      return false, TooLong, pos, count;
    }
    if brk == pos {
      return false, Ok, pos + eol, count;
    }
    if continuation {
      if count == 0 {
        return false, Error, pos, count;
      }
      var foldOk := FoldLine(s[pos..brk], pos, headers, count, littleEndian, brk + eol);
      if !foldOk {
        return false, Error, pos, count;
      }
      return true, Ok, brk + eol, count;
    }
    var fieldStatus := FieldLine(s[pos..brk], pos, headers, count, max, littleEndian, brk + eol);
    if fieldStatus != Ok {
      return false, fieldStatus, pos, count;
    }
    return true, Ok, brk + eol, count + 1;
  }

  /** The header loop. On Ok and Incomplete it reports the new count and how far it got; on an
      error neither moves, although slots past the old count may have been written and the
      value of the last old header may have been extended by a fold. */
  method ParseHeaderBlock(s: seq<byte>, base: nat, headers: array<Header>, initial: nat, max: nat,
                          policy: Policy, littleEndian: bool)
    returns (status: Status, count: nat, blockEnd: nat)
    requires base <= |s|
    requires initial <= headers.Length && max <= headers.Length
    modifies headers
    ensures var b := ParseBlock(s, base, old(headers[..initial]), max, policy);
            && status == b.status
            && count <= headers.Length
            && (status == Ok || status == Incomplete ==>
                  count == |b.headers| && headers[..count] == b.headers && base + blockEnd == b.pos)
            && (status != Ok && status != Incomplete ==>
                  count == initial && blockEnd == 0)
    ensures forall k :: 0 <= k < initial - 1 ==> headers[k] == old(headers[k])
  {
    count := initial;
    var pos := base;
    ghost var target := ParseBlock(s, base, headers[..initial], max, policy);
    while pos < |s|
      invariant base <= pos <= |s|
      invariant initial <= count <= headers.Length
      invariant ParseBlock(s, pos, headers[..count], max, policy) == target
      invariant forall k :: 0 <= k < initial - 1 ==> headers[k] == old(headers[k])
    {
      var more, lineStatus, pos', count' := HeaderLine(s, pos, headers, count, max, policy, littleEndian);
      if !more {
        if lineStatus == Ok || lineStatus == Incomplete {
          return lineStatus, count, pos' - base;
        }
        return lineStatus, initial, 0;
      }
      pos, count := pos', count';
    }
    return Incomplete, count, pos - base;
  }

  // ----- stateful entry points

  ghost function RequestState(state: ParserState, req: Request): HeadState
    requires req.numHeaders <= req.headers.Length
    reads state, req, req.headers
  {
    HeadState(state.phase, state.cursor, req.Line(), req.Fields())
  }

  ghost function ResponseState(state: ParserState, resp: Response): HeadState
    requires resp.numHeaders <= resp.headers.Length
    reads state, resp, resp.headers
  {
    HeadState(state.phase, state.cursor, resp.Line(), resp.Fields())
  }

  /** What a stateful call leaves behind: everything on Ok and Incomplete; phase, cursor and
      count on errors. */
  ghost predicate Leaves(o: Outcome, status: Status, consumed: nat, st: HeadState, was: HeadState) {
    && status == o.status && consumed == o.consumed
    && st.phase == o.state.phase && st.cursor == o.state.cursor
    && (status == Ok || status == Incomplete ==> st == o.state)
    && (status != Ok && status != Incomplete ==> |st.headers| == |was.headers|)
  }

  method ParseRequestStateful(state: ParserState, s: seq<byte>, req: Request, policy: Policy, littleEndian: bool)
    returns (status: Status, consumed: nat)
    requires req.Valid()
    requires CursorFits(state.phase, state.cursor, s)
    modifies state`phase, state`cursor, req.headers, req`numHeaders
    modifies req`verb, req`methodStr, req`methodLen, req`path, req`pathLen, req`version
    ensures req.Valid()
    ensures state.mode != RequestMode ==>
              status == Error && RequestState(state, req) == old(RequestState(state, req))
    ensures state.mode == RequestMode ==>
              Leaves(Advance(RequestMode, old(RequestState(state, req)), s, MAX_HEADERS, policy),
                     status, consumed, RequestState(state, req), old(RequestState(state, req)))
  {
    consumed := 0;
    if state.mode != RequestMode {
      return Error, 0;
    }
    if state.phase == Failed {
      return Error, 0;
    }
    if state.phase == Done {
      return Ok, state.cursor;
    }
    if state.phase == AtStartLine {
      var lineEnd;
      status, lineEnd := ParseRequestLineInto(s, state.cursor, req, policy, littleEndian);
      if status != Ok {
        if status == Error || status == TooLong {
          state.phase := Failed;
        }
        return status, 0;
      }
      state.cursor := lineEnd;
      state.phase := AtHeaders;
    }
    var count, blockEnd;
    status, count, blockEnd :=
      ParseHeaderBlock(s, state.cursor, req.headers, req.numHeaders, MAX_HEADERS, policy, littleEndian);
    req.numHeaders := count;
    state.cursor := state.cursor + blockEnd;
    if status == Incomplete {
      return status, 0;
    }
    if status != Ok {
      state.phase := Failed;
      return status, 0;
    }
    state.phase := Done;
    return Ok, state.cursor;
  }

  method ParseResponseStateful(state: ParserState, s: seq<byte>, resp: Response, policy: Policy, littleEndian: bool)
    returns (status: Status, consumed: nat)
    requires resp.Valid()
    requires CursorFits(state.phase, state.cursor, s)
    modifies state`phase, state`cursor, resp.headers, resp`numHeaders
    modifies resp`version, resp`statusCode, resp`reason, resp`reasonLen
    ensures resp.Valid()
    ensures state.mode != ResponseMode ==>
              status == Error && ResponseState(state, resp) == old(ResponseState(state, resp))
    ensures state.mode == ResponseMode ==>
              Leaves(Advance(ResponseMode, old(ResponseState(state, resp)), s, MAX_HEADERS, policy),
                     status, consumed, ResponseState(state, resp), old(ResponseState(state, resp)))
  {
    consumed := 0;
    if state.mode != ResponseMode {
      return Error, 0;
    }
    if state.phase == Failed {
      return Error, 0;
    }
    if state.phase == Done {
      return Ok, state.cursor;
    }
    if state.phase == AtStartLine {
      var lineEnd;
      status, lineEnd := ParseStatusLineInto(s, state.cursor, resp, policy, littleEndian);
      if status != Ok {
        if status == Error {
          state.phase := Failed;
        }
        return status, 0;
      }
      state.cursor := lineEnd;
      state.phase := AtHeaders;
    }
    var count, blockEnd;
    status, count, blockEnd :=
      ParseHeaderBlock(s, state.cursor, resp.headers, resp.numHeaders, MAX_HEADERS, policy, littleEndian);
    resp.numHeaders := count;
    state.cursor := state.cursor + blockEnd;
    if status == Incomplete {
      return status, 0;
    }
    if status != Ok {
      state.phase := Failed;
      return status, 0;
    }
    state.phase := Done;
    return Ok, state.cursor;
  }

  /** Headers on their own: the caller owns the array, its capacity and the count. */
  method ParseHeadersStateful(state: ParserState, s: seq<byte>, headers: array<Header>, num: nat, max: nat,
                              policy: Policy, littleEndian: bool)
    returns (status: Status, num': nat, consumed: nat)
    requires num <= headers.Length && max <= headers.Length
    requires CursorFits(state.phase, state.cursor, s)
    modifies state`phase, state`cursor, headers
    ensures num' <= headers.Length
    ensures state.mode != HeadersMode ==>
              && status == Error && num' == num && headers[..] == old(headers[..])
              && state.phase == old(state.phase) && state.cursor == old(state.cursor)
    ensures state.mode == HeadersMode ==>
              var was := HeadState(old(state.phase), old(state.cursor), NoStartLine, old(headers[..num]));
              var now := HeadState(state.phase, state.cursor, NoStartLine, headers[..num']);
              Leaves(Advance(HeadersMode, was, s, max, policy), status, consumed, now, was)
  {
    consumed := 0;
    num' := num;
    if state.mode != HeadersMode {
      return Error, num, 0;
    }
    if state.phase == Failed {
      return Error, num, 0;
    }
    if state.phase == Done {
      return Ok, num, state.cursor;
    }
    if state.phase != AtHeaders {
      state.phase := Failed;
      return Error, num, 0;
    }
    var blockEnd;
    status, num', blockEnd := ParseHeaderBlock(s, state.cursor, headers, num, max, policy, littleEndian);
    state.cursor := state.cursor + blockEnd;
    if status == Incomplete {
      return status, num', 0;
    }
    if status != Ok {
      state.phase := Failed;
      return status, num', 0;
    }
    state.phase := Done;
    return Ok, num', state.cursor;
  }

  // ----- one-shot entry points

  lemma OneShotStarts(mode: Mode, s: seq<byte>, max: nat, policy: Policy)
    ensures OneShot(mode, s, max, policy) == Advance(mode, Initial(mode), s, max, policy)
  {
    hide Advance;
  }

  lemma NoStartKept(s: seq<byte>, max: nat, policy: Policy)
    ensures OneShot(HeadersMode, s, max, policy).state.line == NoStartLine
  {
    hide ParseBlock;
  }

  /** The structure is zeroed first, so what it held before does not matter. */
  method ParseRequest(s: seq<byte>, policy: Policy, littleEndian: bool)
    returns (status: Status, req: Request, consumed: nat)
    ensures fresh(req) && fresh(req.headers) && req.Valid()
    ensures var o := OneShot(RequestMode, s, MAX_HEADERS, policy);
            && status == o.status && consumed == o.consumed
            && (status == Ok || status == Incomplete ==> req.Line() == o.state.line && req.Fields() == o.state.headers)
            && (status != Ok && status != Incomplete ==> req.numHeaders == 0)
    ensures forall line, hs, end ::
              StartGrammar.HeadIs(RequestMode, s, line, hs, end, 64, policy)
              <==> status == Ok && line == req.Line() && hs == req.Fields() && end == consumed
    ensures status == TooManyHeaders <==> StartGrammar.OverfullHead(RequestMode, s, 64, policy)
  {
    hide OneShot, StartGrammar.HeadIs, StartGrammar.OverfullHead;
    StartGrammar.AcceptedExactly(RequestMode, s, MAX_HEADERS, policy);
    StartGrammar.TooManyInHead(RequestMode, s, MAX_HEADERS, policy);
    OneShotStarts(RequestMode, s, MAX_HEADERS, policy);
    req := new Request();
    var state := new ParserState(RequestMode);
    status, consumed := ParseRequestStateful(state, s, req, policy, littleEndian);
  }

  method ParseResponse(s: seq<byte>, policy: Policy, littleEndian: bool)
    returns (status: Status, resp: Response, consumed: nat)
    ensures fresh(resp) && fresh(resp.headers) && resp.Valid()
    ensures var o := OneShot(ResponseMode, s, MAX_HEADERS, policy);
            && status == o.status && consumed == o.consumed
            && (status == Ok || status == Incomplete ==>
                  resp.Line() == o.state.line && resp.Fields() == o.state.headers)
            && (status != Ok && status != Incomplete ==> resp.numHeaders == 0)
    ensures forall line, hs, end ::
              StartGrammar.HeadIs(ResponseMode, s, line, hs, end, 64, policy)
              <==> status == Ok && line == resp.Line() && hs == resp.Fields() && end == consumed
    ensures status == TooManyHeaders <==> StartGrammar.OverfullHead(ResponseMode, s, 64, policy)
  {
    hide OneShot, StartGrammar.HeadIs, StartGrammar.OverfullHead;
    StartGrammar.AcceptedExactly(ResponseMode, s, MAX_HEADERS, policy);
    StartGrammar.TooManyInHead(ResponseMode, s, MAX_HEADERS, policy);
    OneShotStarts(ResponseMode, s, MAX_HEADERS, policy);
    resp := new Response();
    var state := new ParserState(ResponseMode);
    status, consumed := ParseResponseStateful(state, s, resp, policy, littleEndian);
  }

  method ParseHeaders(s: seq<byte>, headers: array<Header>, max: nat, policy: Policy, littleEndian: bool)
    returns (status: Status, num: nat, consumed: nat)
    requires max <= headers.Length
    modifies headers
    ensures num <= headers.Length
    ensures var o := OneShot(HeadersMode, s, max, policy);
            && status == o.status && consumed == o.consumed
            && (status == Ok || status == Incomplete ==> headers[..num] == o.state.headers)
            && (status != Ok && status != Incomplete ==> num == 0)
    ensures forall hs, end ::
              StartGrammar.HeadIs(HeadersMode, s, NoStartLine, hs, end, max, policy)
              <==> status == Ok && hs == headers[..num] && end == consumed
    ensures status == TooManyHeaders <==> StartGrammar.OverfullHead(HeadersMode, s, max, policy)
  {
    hide OneShot, StartGrammar.HeadIs, StartGrammar.OverfullHead;
    StartGrammar.AcceptedExactly(HeadersMode, s, max, policy);
    StartGrammar.TooManyInHead(HeadersMode, s, max, policy);
    OneShotStarts(HeadersMode, s, max, policy);
    NoStartKept(s, max, policy);
    var state := new ParserState(HeadersMode);
    assert headers[..0] == [];
    status, num, consumed := ParseHeadersStateful(state, s, headers, 0, max, policy, littleEndian);
  }
}
