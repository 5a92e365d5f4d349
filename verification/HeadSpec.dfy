/** The head parser as functions of a buffer and an offset: one line, one start line, one
    header line, a header block, and the transition of a stateful call. The methods of
    module Head are proved against these; the theorems are proved about them. */
module HeadSpec {
  import opened Bytes
  import opened Types

  // ----- lines

  datatype Line =
    | Unterminated
    | BareLf
    | Line(len: nat, eol: nat)

  /** The line that starts at pos: it ends at the first LF, and a CR right before that LF is
      part of the line ending. */
  function LineAt(s: seq<byte>, pos: nat, policy: Policy): (r: Line)
    requires pos <= |s|
    ensures r.Line? ==> 1 <= r.eol <= 2 && pos + r.len + r.eol <= |s|
    ensures r.Line? ==> s[pos + r.len + r.eol - 1] == LF
    ensures r.Line? && r.eol == 2 ==> s[pos + r.len] == CR
    ensures r.Line? ==> forall k :: pos <= k < pos + r.len ==> s[k] != LF
    ensures r.Line? && policy.rejectBareLf ==> r.eol == 2
  {
    var lf := Find(s, pos, |s|, LF);
    if lf == |s| then Unterminated
    else if lf > pos && s[lf - 1] == CR then Line(lf - 1 - pos, 2)
    else if policy.rejectBareLf then BareLf
    else Line(lf - pos, 1)
  }

  /** lf is the first LF at or behind pos. */
  predicate FirstLf(s: seq<byte>, pos: nat, lf: nat) {
    pos <= lf < |s| && s[lf] == LF && forall k :: pos <= k < lf ==> s[k] != LF
  }

  /** Exactly when a line is unfinished, ends in a refused bare LF, or is found, and with which
      length and ending. */
  lemma LineAtCases(s: seq<byte>, pos: nat, policy: Policy)
    requires pos <= |s|
    ensures LineAt(s, pos, policy).Unterminated? <==> forall k :: pos <= k < |s| ==> s[k] != LF
    ensures LineAt(s, pos, policy).BareLf? <==>
            policy.rejectBareLf && exists lf: nat :: FirstLf(s, pos, lf) && !(pos < lf && s[lf - 1] == CR)
    ensures forall len: nat, eol: nat ::
              LineAt(s, pos, policy) == Line(len, eol) <==>
                && 1 <= eol <= 2 && FirstLf(s, pos, pos + len + eol - 1)
                && if eol == 2 then s[pos + len] == CR
                   else !policy.rejectBareLf && (len > 0 ==> s[pos + len - 1] != CR)
  {
    var lf := Find(s, pos, |s|, LF);
    assert lf < |s| ==> FirstLf(s, pos, lf);
  }

  // ----- start lines

  const HTTP_1: seq<byte> := [72, 84, 84, 80, 47, 49, 46]

  /** A start-line attempt; `end` is meaningful when the status is Ok. */
  datatype StartResult = StartResult(status: Status, line: StartLine, end: nat)

  function Refuse(status: Status): StartResult {
    StartResult(status, NoStartLine, 0)
  }

  /** NoStartLine stands for a malformed line. */
  function Accept(line: StartLine, end: nat): (r: StartResult)
    ensures r.status == Ok ==> r == StartResult(Ok, line, end) && !line.NoStartLine?
    ensures r.status == Ok || r.status == Error
  {
    if line.NoStartLine? then Refuse(Error) else StartResult(Ok, line, end)
  }

  function ParseRequestLine(s: seq<byte>, pos: nat, policy: Policy): (r: StartResult)
    requires pos <= |s|
    ensures r.status == Ok ==> pos < r.end <= |s| && r.line.RequestLine?
    ensures r.status != TooManyHeaders
  {
    match LineAt(s, pos, policy)
    case Unterminated => Refuse(if |s| - pos > MAX_REQUEST_LINE then TooLong else Incomplete)
    case BareLf => Refuse(Error)
    case Line(len, eol) =>
      if len > MAX_REQUEST_LINE then Refuse(TooLong)
      else Accept(RequestLineOf(s[pos..pos + len], pos, policy), pos + len + eol)
  }

  /** METHOD SP target SP version. The method ends at the first SP, the target at the last. */
  function RequestLineOf(text: seq<byte>, pos: nat, policy: Policy): (r: StartLine)
    ensures r.NoStartLine? || r.RequestLine?
  {
    var sp1 := Find(text, 0, |text|, SP);
    if sp1 == |text| || sp1 == 0 || !AllToken(text, 0, sp1) then NoStartLine
    else
      var version := FindLast(text, sp1 + 1, |text|, SP);
      if version <= sp1 + 2 || !AllTarget(text, sp1 + 1, version - 1, policy.allowSpacesInUri) then NoStartLine
      else if |text| - version != 8 || text[version..version + 7] != HTTP_1 then NoStartLine
      else if text[version + 7] != 49 && text[version + 7] != 48 then NoStartLine
      else
        RequestLine(MethodFromBytes(text[..sp1]), pos, sp1, pos + sp1 + 1, version - 1 - (sp1 + 1),
                    if text[version + 7] == 49 then Http11 else Http10)
  }

  function ParseStatusLine(s: seq<byte>, pos: nat, policy: Policy): (r: StartResult)
    requires pos <= |s|
    ensures r.status == Ok ==> pos < r.end <= |s| && r.line.StatusLine?
    ensures r.status == Ok || r.status == Error || r.status == Incomplete
  {
    match LineAt(s, pos, policy)
    case Unterminated => Refuse(Incomplete)
    case BareLf => Refuse(Error)
    case Line(len, eol) => Accept(StatusLineOf(s[pos..pos + len], pos), pos + len + eol)
  }

  /** HTTP/1.x SP three digits SP reason. */
  function StatusLineOf(text: seq<byte>, pos: nat): (r: StartLine)
    ensures r.NoStartLine? || r.StatusLine?
  {
    if |text| < 13 || text[..7] != HTTP_1 then NoStartLine
    else if text[7] != 49 && text[7] != 48 then NoStartLine
    else if text[8] != SP then NoStartLine
    else if !IsDigit(text[9]) || !IsDigit(text[10]) || !IsDigit(text[11]) then NoStartLine
    else
      var code := Digit(text[9]) * 100 + Digit(text[10]) * 10 + Digit(text[11]);
      if code < 100 || code > 599 || text[12] != SP || !AllText(text, 13, |text|) then NoStartLine
      else StatusLine(if text[7] == 49 then Http11 else Http10, code, pos + 13, |text| - 13)
  }

  function ParseStartLine(mode: Mode, s: seq<byte>, pos: nat, policy: Policy): (r: StartResult)
    requires pos <= |s|
    ensures r.status == Ok ==> pos < r.end <= |s|
    ensures r.status != TooManyHeaders
  {
    match mode
    case RequestMode => ParseRequestLine(s, pos, policy)
    case ResponseMode => ParseStatusLine(s, pos, policy)
    case HeadersMode => Refuse(Error)
  }

  // ----- header lines

  /** One round of the header loop: the next line was taken, or the loop ends. */
  datatype Step =
    | Next(pos: nat, headers: seq<Header>)
    | Stop(status: Status, pos: nat, headers: seq<Header>)

  function HeaderStep(s: seq<byte>, pos: nat, hs: seq<Header>, max: nat, policy: Policy): (r: Step)
    requires pos < |s|
    ensures r.Next? ==> pos < r.pos <= |s| && r.headers != []
    ensures r.Stop? ==> pos <= r.pos <= |s|
    ensures r.Stop? && r.status != Ok ==> r.pos == pos
    ensures r.Stop? && r.status == Ok ==> pos < r.pos
    ensures r.Stop? ==> r.headers == hs
  {
    var continuation := IsLws(s[pos]);
    if policy.rejectObsFold && continuation then Stop(Error, pos, hs)
    else
      match LineAt(s, pos, policy)
      case Unterminated => Stop(if |s| - pos > MAX_HEADER_LINE then TooLong else Incomplete, pos, hs)
      case BareLf => Stop(Error, pos, hs)
      case Line(len, eol) =>
        if len > MAX_HEADER_LINE then Stop(TooLong, pos, hs)
        else if len == 0 then Stop(Ok, pos + eol, hs)
        else if continuation then FoldStep(s[pos..pos + len], pos, pos + len + eol, hs)
        else FieldStep(s[pos..pos + len], pos, pos + len + eol, hs, max)
  }

  /** A continuation line extends the value of the last header up to the end of its text. */
  function FoldStep(text: seq<byte>, pos: nat, next: nat, hs: seq<Header>): (r: Step)
    ensures r.Stop? ==> r == Stop(Error, pos, hs)
    ensures r.Next? ==> r.pos == next && |r.headers| == |hs| > 0
  {
    if hs == [] || !AllText(text, 0, |text|) then Stop(Error, pos, hs)
    else
      var h := hs[|hs| - 1];
      Next(next, hs[..|hs| - 1] + [h.(valueLen := pos + |text| - h.value)])
  }

  /** name ":" OWS value OWS. The count is checked between the name and the value. */
  function FieldStep(text: seq<byte>, pos: nat, next: nat, hs: seq<Header>, max: nat): (r: Step)
    ensures r.Stop? ==> r.pos == pos && r.headers == hs && (r.status == Error || r.status == TooManyHeaders)
    ensures r.Next? ==> r.pos == next && |r.headers| == |hs| + 1 <= max
  {
    var colon := Find(text, 0, |text|, COLON);
    if colon == |text| || colon == 0 || !AllToken(text, 0, colon) then Stop(Error, pos, hs)
    else if |hs| >= max then Stop(TooManyHeaders, pos, hs)
    else
      var first := SkipLws(text, colon + 1, |text|);
      var last := TrimLws(text, first, |text|);
      if !AllText(text, first, last) then Stop(Error, pos, hs)
      else Next(next, hs + [Header(pos, colon, pos + first, last - first)])
  }

  /** How a header block ends: the status, and where the accepted part stops. */
  datatype Block = Block(status: Status, pos: nat, headers: seq<Header>)

  function ParseBlock(s: seq<byte>, pos: nat, hs: seq<Header>, max: nat, policy: Policy): (r: Block)
    requires pos <= |s|
    ensures pos <= r.pos <= |s|
    ensures r.status == Ok ==> pos < r.pos
    decreases |s| - pos
  {
    if pos == |s| then Block(Incomplete, pos, hs)
    else
      match HeaderStep(s, pos, hs, max, policy)
      case Next(p, h) => ParseBlock(s, p, h, max, policy)
      case Stop(status, p, h) => Block(status, p, h)
  }

  // ----- stateful calls

  /** Parser state and outputs of a message in progress. */
  datatype HeadState = HeadState(phase: Phase, cursor: nat, line: StartLine, headers: seq<Header>)

  datatype Outcome = Outcome(status: Status, state: HeadState, consumed: nat)

  function InitialPhase(mode: Mode): Phase {
    if mode == HeadersMode then AtHeaders else AtStartLine
  }

  function Initial(mode: Mode): HeadState {
    HeadState(InitialPhase(mode), 0, ZeroLine(mode), [])
  }

  /** The cursor only has to lie inside the buffer while there is something left to parse. */
  predicate CursorFits(phase: Phase, cursor: nat, s: seq<byte>) {
    phase == AtStartLine || phase == AtHeaders ==> cursor <= |s|
  }

  /** Where a call leaves the parser: decided, or inside the buffer with more to come. */
  predicate Settled(o: Outcome, s: seq<byte>) {
    && (o.status == Ok ==> o.state.phase == Done && o.consumed == o.state.cursor)
    && (o.status == Incomplete ==>
          (o.state.phase == AtStartLine || o.state.phase == AtHeaders) && o.consumed == 0 && o.state.cursor <= |s|)
    && (o.status != Ok && o.status != Incomplete ==> o.state.phase == Failed && o.consumed == 0)
  }

  function AdvanceHeaders(st: HeadState, s: seq<byte>, max: nat, policy: Policy): (o: Outcome)
    requires st.cursor <= |s| && st.phase == AtHeaders
    ensures Settled(o, s)
  {
    var b := ParseBlock(s, st.cursor, st.headers, max, policy);
    if b.status == Ok then Outcome(Ok, st.(phase := Done, cursor := b.pos, headers := b.headers), b.pos)
    else if b.status == Incomplete then Outcome(Incomplete, st.(cursor := b.pos, headers := b.headers), 0)
    else Outcome(b.status, st.(phase := Failed), 0)
  }

  /** One stateful call on the buffer accumulated so far. */
  function Advance(mode: Mode, st: HeadState, s: seq<byte>, max: nat, policy: Policy): (o: Outcome)
    requires CursorFits(st.phase, st.cursor, s)
    ensures Settled(o, s)
  {
    match st.phase
    case Failed => Outcome(Error, st, 0)
    case Done => Outcome(Ok, st, st.cursor)
    case AtStartLine =>
      var r := ParseStartLine(mode, s, st.cursor, policy);
      if r.status == Incomplete then Outcome(Incomplete, st, 0)
      else if r.status != Ok then Outcome(r.status, st.(phase := Failed), 0)
      else AdvanceHeaders(st.(phase := AtHeaders, cursor := r.end, line := r.line), s, max, policy)
    case AtHeaders => AdvanceHeaders(st, s, max, policy)
  }

  /** A one-shot call: zeroed outputs, a fresh state, one stateful call. */
  function OneShot(mode: Mode, s: seq<byte>, max: nat, policy: Policy): Outcome {
    Advance(mode, Initial(mode), s, max, policy)
  }
}
