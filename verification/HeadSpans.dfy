/** Where the spans of an accepted head lie: they tile the consumed octets in order. */
module HeadSpans {
  import opened Bytes
  import opened Types
  import opened HeadSpec

  /** s[brk..end] is CRLF or a bare LF. */
  ghost predicate LineEnding(s: seq<byte>, brk: nat, end: nat) {
    || (end == brk + 1 <= |s| && s[brk] == LF)
    || (end == brk + 2 <= |s| && s[brk] == CR && s[brk + 1] == LF)
  }

  ghost predicate Blank(s: seq<byte>, from: nat, end: nat)
    requires end <= |s|
  {
    forall k :: from <= k < end ==> IsLws(s[k])
  }

  /** The name is a non-empty token followed by a colon, and the value lies behind it. */
  ghost predicate NamedSpan(s: seq<byte>, h: Header) {
    && 0 < h.nameLen && 0 <= h.valueLen
    && h.name + h.nameLen < h.value && h.value + h.valueLen <= |s|
    && AllToken(s, h.name, h.name + h.nameLen)
    && s[h.name + h.nameLen] == COLON
  }

  /** The octets from h.name to end are exactly name, colon, OWS, value, OWS, line ending. */
  ghost predicate FieldLine(s: seq<byte>, h: Header, brk: nat, end: nat) {
    && NamedSpan(s, h)
    && h.value + h.valueLen <= brk
    && LineEnding(s, brk, end)
    && Blank(s, h.name + h.nameLen + 1, h.value)
    && Blank(s, h.value + h.valueLen, brk)
    && AllText(s, h.value, h.value + h.valueLen)
    && (h.valueLen > 0 ==> !IsLws(s[h.value]) && !IsLws(s[h.value + h.valueLen - 1]))
  }

  /** The header lines fill s[lo..hi] without gap or overlap, in order. */
  ghost predicate Tiled(s: seq<byte>, lo: nat, hi: nat, hs: seq<Header>)
    decreases |hs|
  {
    if hs == [] then lo == hi
    else
      var h := hs[|hs| - 1];
      && lo <= h.name
      && Tiled(s, lo, h.name, hs[..|hs| - 1])
      && exists brk: nat :: FieldLine(s, h, brk, hi)
  }

  /** Names and values lie in order and apart inside s[lo..hi]. */
  ghost predicate Ordered(s: seq<byte>, lo: nat, hi: nat, hs: seq<Header>)
    decreases |hs|
  {
    if hs == [] then lo <= hi
    else
      var h := hs[|hs| - 1];
      && Ordered(s, lo, h.name, hs[..|hs| - 1])
      && NamedSpan(s, h) && h.value + h.valueLen < hi
  }

  /** A text is exactly name, colon, OWS, value, OWS. */
  ghost predicate FieldText(text: seq<byte>, colon: nat, first: nat, last: nat) {
    && 0 < colon < first <= last <= |text|
    && AllToken(text, 0, colon) && text[colon] == COLON
    && Blank(text, colon + 1, first) && Blank(text, last, |text|) && AllText(text, first, last)
    && (first < last ==> !IsLws(text[first]) && !IsLws(text[last - 1]))
  }

  lemma FieldStepParts(text: seq<byte>, pos: nat, next: nat, hs: seq<Header>, max: nat)
    requires FieldStep(text, pos, next, hs, max).Next?
    ensures var r := FieldStep(text, pos, next, hs, max);
            && r.headers == hs + [r.headers[|hs|]]
            && var h := r.headers[|hs|];
            && h.name == pos && pos <= h.value && 0 <= h.valueLen
            && FieldText(text, h.nameLen, h.value - pos, h.value - pos + h.valueLen)
  {
    var colon := Find(text, 0, |text|, COLON);
    var first := SkipLws(text, colon + 1, |text|);
    var last := TrimLws(text, first, |text|);
    assert FieldText(text, colon, first, last);
  }

  lemma FieldTextShifts(s: seq<byte>, pos: nat, len: nat, eol: nat, h: Header)
    requires pos + len + eol <= |s| && LineEnding(s, pos + len, pos + len + eol)
    requires h.name == pos && pos <= h.value && 0 <= h.valueLen
    requires FieldText(s[pos..pos + len], h.nameLen, h.value - pos, h.value - pos + h.valueLen)
    ensures FieldLine(s, h, pos + len, pos + len + eol)
  {
    var text := s[pos..pos + len];
    forall k | pos <= k < pos + len
      ensures s[k] == text[k - pos]
    {
    }
  }

  /** A line accepted by FieldStep is a field line of the buffer. */
  lemma FieldStepMakesLine(s: seq<byte>, pos: nat, len: nat, eol: nat, hs: seq<Header>, max: nat)
    requires pos + len + eol <= |s| && LineEnding(s, pos + len, pos + len + eol)
    requires FieldStep(s[pos..pos + len], pos, pos + len + eol, hs, max).Next?
    ensures var r := FieldStep(s[pos..pos + len], pos, pos + len + eol, hs, max);
            && r.headers == hs + [r.headers[|hs|]]
            && r.headers[|hs|].name == pos
            && FieldLine(s, r.headers[|hs|], pos + len, pos + len + eol)
  {
    hide FieldStep, FieldText, FieldLine;
    FieldStepParts(s[pos..pos + len], pos, pos + len + eol, hs, max);
    FieldTextShifts(s, pos, len, eol, FieldStep(s[pos..pos + len], pos, pos + len + eol, hs, max).headers[|hs|]);
  }

  lemma LineAtEnding(s: seq<byte>, pos: nat, policy: Policy)
    requires pos <= |s| && LineAt(s, pos, policy).Line?
    ensures var l := LineAt(s, pos, policy); LineEnding(s, pos + l.len, pos + l.len + l.eol)
  {
  }

  /** Without folding, the header lines of an accepted block tile it up to the empty line. */
  lemma {:induction false} BlockTiles(s: seq<byte>, lo: nat, pos: nat, hs: seq<Header>, max: nat, policy: Policy)
    returns (last: nat)
    requires policy.rejectObsFold && pos <= |s|
    requires Tiled(s, lo, pos, hs) && |hs| <= max && lo <= pos
    requires ParseBlock(s, pos, hs, max, policy).status == Ok
    ensures var b := ParseBlock(s, pos, hs, max, policy);
            && lo <= last
            && Tiled(s, lo, last, b.headers) && LineEnding(s, last, b.pos) && |b.headers| <= max
    decreases |s| - pos
  {
    hide FieldStep, FoldStep, FieldLine;
    var step := HeaderStep(s, pos, hs, max, policy);
    var line := LineAt(s, pos, policy);
    LineAtEnding(s, pos, policy);
    if step.Next? {
      FieldStepMakesLine(s, pos, line.len, line.eol, hs, max);
      assert step.headers[..|step.headers| - 1] == hs;
      last := BlockTiles(s, lo, step.pos, step.headers, max, policy);
    } else {
      last := pos;
    }
  }

  lemma {:induction false} OrderedWidens(s: seq<byte>, lo: nat, mid: nat, hi: nat, hs: seq<Header>)
    requires Ordered(s, lo, mid, hs) && mid <= hi
    ensures Ordered(s, lo, hi, hs)
  {
  }

  lemma StepOrdered(s: seq<byte>, lo: nat, pos: nat, hs: seq<Header>, max: nat, policy: Policy)
    requires pos < |s| && Ordered(s, lo, pos, hs) && |hs| <= max
    requires HeaderStep(s, pos, hs, max, policy).Next?
    ensures var step := HeaderStep(s, pos, hs, max, policy);
            Ordered(s, lo, step.pos, step.headers) && |step.headers| <= max
  {
    hide FieldStep, FoldStep, NamedSpan, LineAt;
    if IsLws(s[pos]) {
      FoldOrdered(s, lo, pos, hs, max, policy);
    } else {
      FieldOrdered(s, lo, pos, hs, max, policy);
    }
  }

  lemma FoldOrdered(s: seq<byte>, lo: nat, pos: nat, hs: seq<Header>, max: nat, policy: Policy)
    requires pos < |s| && Ordered(s, lo, pos, hs) && |hs| <= max && IsLws(s[pos])
    requires HeaderStep(s, pos, hs, max, policy).Next?
    ensures var step := HeaderStep(s, pos, hs, max, policy);
            Ordered(s, lo, step.pos, step.headers) && |step.headers| <= max
  {
    hide FieldStep, NamedSpan, AllText, LineAt;
    var step := HeaderStep(s, pos, hs, max, policy);
    var line := LineAt(s, pos, policy);
    var h, h' := hs[|hs| - 1], step.headers[|hs| - 1];
    assert NamedSpan(s, h') by {
      FoldKeepsName(s, h, h', pos, line.len);
    }
    assert step.headers[..|hs| - 1] == hs[..|hs| - 1];
  }

  lemma FieldOrdered(s: seq<byte>, lo: nat, pos: nat, hs: seq<Header>, max: nat, policy: Policy)
    requires pos < |s| && Ordered(s, lo, pos, hs) && |hs| <= max && !IsLws(s[pos])
    requires HeaderStep(s, pos, hs, max, policy).Next?
    ensures var step := HeaderStep(s, pos, hs, max, policy);
            Ordered(s, lo, step.pos, step.headers) && |step.headers| <= max
  {
    hide FieldStep, FoldStep, NamedSpan, AllText, Blank, LineEnding, LineAt;
    var step := HeaderStep(s, pos, hs, max, policy);
    var line := LineAt(s, pos, policy);
    LineAtEnding(s, pos, policy);
    FieldStepMakesLine(s, pos, line.len, line.eol, hs, max);
    assert step.headers[..|hs|] == hs;
  }

  /** With folding or without, the spans of a block stay in order, apart and inside it. */
  lemma {:induction false} BlockOrdered(s: seq<byte>, lo: nat, pos: nat, hs: seq<Header>, max: nat, policy: Policy)
    requires pos <= |s|
    requires Ordered(s, lo, pos, hs) && |hs| <= max
    ensures var b := ParseBlock(s, pos, hs, max, policy);
            Ordered(s, lo, b.pos, b.headers) && |b.headers| <= max
    decreases |s| - pos
  {
    hide HeaderStep, Ordered;
    if pos < |s| {
      var step := HeaderStep(s, pos, hs, max, policy);
      if step.Next? {
        StepOrdered(s, lo, pos, hs, max, policy);
        BlockOrdered(s, lo, step.pos, step.headers, max, policy);
      } else {
        OrderedWidens(s, lo, pos, step.pos, hs);
      }
    }
  }

  lemma FoldKeepsName(s: seq<byte>, h: Header, h': Header, pos: nat, len: nat)
    requires NamedSpan(s, h) && h.value + h.valueLen < pos && pos + len <= |s|
    requires h' == h.(valueLen := pos + len - h.value)
    ensures NamedSpan(s, h')
  {
  }

  /** A request line fills s[0..end]: method, SP, target, SP, version, line ending. */
  ghost predicate RequestLineTiles(s: seq<byte>, line: StartLine, end: nat, allowSpaces: bool) {
    && line.RequestLine?
    && line.methodStr == 0 && 0 < line.methodLen && line.path == line.methodLen + 1 && 0 < line.pathLen
    && var version := line.path + line.pathLen + 1;
    && version + 8 < end <= |s|
    && AllToken(s, 0, line.methodLen) && s[line.methodLen] == SP
    && AllTarget(s, line.path, line.path + line.pathLen, allowSpaces) && s[version - 1] == SP
    && s[version..version + 8] == HTTP_1 + [if line.version == Http11 then 49 else 48]
    && LineEnding(s, version + 8, end)
  }

  lemma RequestLineOfFills(text: seq<byte>, policy: Policy)
    requires RequestLineOf(text, 0, policy).RequestLine?
    ensures var line := RequestLineOf(text, 0, policy);
            var version := line.path + line.pathLen + 1;
            && line.methodStr == 0 && 0 < line.methodLen && line.path == line.methodLen + 1 && 0 < line.pathLen
            && version + 8 == |text|
            && AllToken(text, 0, line.methodLen) && text[line.methodLen] == SP
            && AllTarget(text, line.path, line.path + line.pathLen, policy.allowSpacesInUri) && text[version - 1] == SP
            && text[version..version + 8] == HTTP_1 + [if line.version == Http11 then 49 else 48]
  {
    hide AllToken, AllTarget;
    var line := RequestLineOf(text, 0, policy);
    var version := line.path + line.pathLen + 1;
    assert text[version..version + 8] == text[version..version + 7] + [text[version + 7]];
  }

  lemma RequestLineFills(s: seq<byte>, policy: Policy)
    requires ParseRequestLine(s, 0, policy).status == Ok
    ensures var r := ParseRequestLine(s, 0, policy);
            && RequestLineTiles(s, r.line, r.end, policy.allowSpacesInUri)
            && r.line.methodLen + r.line.pathLen + 10 <= MAX_REQUEST_LINE
  {
    hide RequestLineOf;
    var r := ParseRequestLine(s, 0, policy);
    var l := LineAt(s, 0, policy);
    LineAtEnding(s, 0, policy);
    var text := s[0..l.len];
    RequestLineOfFills(text, policy);
    assert forall k :: 0 <= k < l.len ==> text[k] == s[k];
    var version := r.line.path + r.line.pathLen + 1;
    assert text[version..version + 8] == s[version..version + 8];
  }

  /** An accepted request: the request line, then the header lines, then the empty line, and
      together they are exactly the consumed octets. */
  lemma RequestTiles(s: seq<byte>, policy: Policy) returns (first: nat, last: nat)
    requires policy.rejectObsFold
    requires OneShot(RequestMode, s, MAX_HEADERS, policy).status == Ok
    ensures var o := OneShot(RequestMode, s, MAX_HEADERS, policy);
            && RequestLineTiles(s, o.state.line, first, policy.allowSpacesInUri)
            && Tiled(s, first, last, o.state.headers)
            && LineEnding(s, last, o.consumed)
            && |o.state.headers| <= MAX_HEADERS
  {
    hide ParseRequestLine, ParseBlock, RequestLineTiles;
    RequestLineFills(s, policy);
    first := ParseRequestLine(s, 0, policy).end;
    last := BlockTiles(s, first, first, [], MAX_HEADERS, policy);
  }

  /** A status line fills s[0..end]: version, SP, three digits of the code, SP, reason, line ending. */
  ghost predicate StatusLineTiles(s: seq<byte>, line: StartLine, end: nat) {
    && line.StatusLine?
    && line.reason == 13 && 13 + line.reasonLen < end <= |s|
    && s[..8] == HTTP_1 + [if line.version == Http11 then 49 else 48]
    && s[8] == SP && s[12] == SP
    && IsDigit(s[9]) && IsDigit(s[10]) && IsDigit(s[11])
    && line.code == Digit(s[9]) * 100 + Digit(s[10]) * 10 + Digit(s[11])
    && 100 <= line.code <= 599
    && AllText(s, 13, 13 + line.reasonLen)
    && LineEnding(s, 13 + line.reasonLen, end)
  }

  lemma StatusLineFills(s: seq<byte>, policy: Policy)
    requires ParseStatusLine(s, 0, policy).status == Ok
    ensures var r := ParseStatusLine(s, 0, policy); StatusLineTiles(s, r.line, r.end)
  {
    var r := ParseStatusLine(s, 0, policy);
    var l := LineAt(s, 0, policy);
    LineAtEnding(s, 0, policy);
    var text := s[0..l.len];
    assert forall k :: 0 <= k < l.len ==> text[k] == s[k];
    assert s[..8] == text[..7] + [text[7]];
  }

  /** An accepted response: the status line, then the header lines, then the empty line, and
      together they are exactly the consumed octets. */
  lemma ResponseTiles(s: seq<byte>, policy: Policy) returns (first: nat, last: nat)
    requires policy.rejectObsFold
    requires OneShot(ResponseMode, s, MAX_HEADERS, policy).status == Ok
    ensures var o := OneShot(ResponseMode, s, MAX_HEADERS, policy);
            && StatusLineTiles(s, o.state.line, first)
            && Tiled(s, first, last, o.state.headers)
            && LineEnding(s, last, o.consumed)
            && |o.state.headers| <= MAX_HEADERS
  {
    hide ParseStatusLine, ParseBlock, StatusLineTiles;
    StatusLineFills(s, policy);
    first := ParseStatusLine(s, 0, policy).end;
    last := BlockTiles(s, first, first, [], MAX_HEADERS, policy);
  }

  /** The spans of a start line lie in order and apart inside s[0..end]; without one, end is 0. */
  ghost predicate StartOrdered(line: StartLine, end: nat) {
    match line
    case RequestLine(_, method0, methodLen, path, pathLen, _) =>
      method0 == 0 && 0 < methodLen < path && 0 < pathLen && path + pathLen < end
    case StatusLine(_, _, reason, reasonLen) => 13 <= reason && reason + reasonLen < end
    case NoStartLine => end == 0
  }

  lemma StartIsOrdered(mode: Mode, s: seq<byte>, policy: Policy)
    requires ParseStartLine(mode, s, 0, policy).status == Ok
    ensures var r := ParseStartLine(mode, s, 0, policy); StartOrdered(r.line, r.end)
  {
    hide ParseRequestLine, ParseStatusLine;
    if mode == RequestMode {
      RequestLineFills(s, policy);
    } else {
      StatusLineFills(s, policy);
    }
  }

  /** Where the header lines of an accepted head begin. */
  function HeadersBegin(mode: Mode, s: seq<byte>, policy: Policy): nat {
    if mode == HeadersMode then 0 else ParseStartLine(mode, s, 0, policy).end
  }

  /** For any policy and any mode: the start-line spans, then the header spans, in order, apart and
      inside the consumed octets. */
  lemma HeadersOrdered(mode: Mode, s: seq<byte>, max: nat, policy: Policy)
    requires OneShot(mode, s, max, policy).status == Ok
    ensures var o := OneShot(mode, s, max, policy);
            var first := HeadersBegin(mode, s, policy);
            && o.consumed <= |s| && |o.state.headers| <= max
            && StartOrdered(o.state.line, first)
            && Ordered(s, first, o.consumed, o.state.headers)
  {
    hide ParseStartLine, ParseBlock, StartOrdered;
    if mode == HeadersMode {
      NoStartOrdered();
      BlockOrdered(s, 0, 0, [], max, policy);
    } else {
      var r := ParseStartLine(mode, s, 0, policy);
      StartIsOrdered(mode, s, policy);
      BlockOrdered(s, r.end, r.end, [], max, policy);
    }
  }

  lemma NoStartOrdered()
    ensures StartOrdered(NoStartLine, 0)
  {
  }
}
