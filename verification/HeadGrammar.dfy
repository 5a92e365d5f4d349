/** What the header block is, octet by octet: which lines it takes, where every value ends, and how
    the line it stops at decides the status. Nothing here mentions the functions of the parser but
    the theorems, which say that the parser computes exactly this. */
module HeadGrammar {
  import opened Bytes
  import opened Types
  import opened HeadSpec
  import opened HeadSpans
  import opened HeadPrint

  /** The longest header line, without its ending. */
  const LINE_LIMIT: nat := 8192

  /** A line from `from` whose text ends at brk and whose ending ends at end, as policy allows. */
  ghost predicate Ends(s: seq<byte>, from: nat, brk: nat, end: nat, policy: Policy) {
    && LineEnding(s, brk, end) && from <= brk <= from + LINE_LIMIT
    && (policy.rejectBareLf ==> end == brk + 2)
  }

  /** A header line: the value is what stands between the whitespace, and an empty one stands at
      the end of the line. */
  ghost predicate HeaderLine(s: seq<byte>, h: Header, brk: nat, end: nat, policy: Policy) {
    && FieldLine(s, h, brk, end) && Ends(s, h.name, brk, end, policy)
    && (h.valueLen == 0 ==> h.value == brk)
  }

  /** One continuation line. */
  ghost predicate Continuation(s: seq<byte>, from: nat, brk: nat, end: nat, policy: Policy) {
    && !policy.rejectObsFold
    && Ends(s, from, brk, end, policy) && from < brk && IsLws(s[from]) && AllText(s, from, brk)
  }

  /** One or more continuation lines fill s[from..end], and the text of the last ends at brk. */
  ghost predicate Continuations(s: seq<byte>, from: nat, brk: nat, end: nat, policy: Policy)
    decreases end
  {
    exists p: nat :: p < end && Continuation(s, p, brk, end, policy)
                     && (p == from || exists b: nat :: Continuations(s, from, b, p, policy))
  }

  /** A header line with its continuation lines fills s[h.name..end]; the value ends where the
      text of the last of these lines ends. */
  ghost predicate FieldLines(s: seq<byte>, h: Header, end: nat, policy: Policy) {
    || (exists brk: nat :: HeaderLine(s, h, brk, end, policy))
    || (exists v: nat, brk: nat, mid: nat, last: nat ::
          && HeaderLine(s, h.(valueLen := v), brk, mid, policy)
          && Continuations(s, mid, last, end, policy)
          && h.value + h.valueLen == last)
  }

  /** The fields fill s[lo..hi], in order and without a gap. */
  ghost predicate Section(s: seq<byte>, lo: nat, hi: nat, hs: seq<Header>, policy: Policy)
    decreases |hs|
  {
    if hs == [] then lo == hi
    else
      var h := hs[|hs| - 1];
      lo <= h.name && Section(s, lo, h.name, hs[..|hs| - 1], policy) && FieldLines(s, h, hi, policy)
  }

  /** A non-empty token and a colon begin the line. */
  ghost predicate Named(s: seq<byte>, pos: nat, brk: nat)
    requires brk <= |s|
  {
    exists c: nat :: pos < c < brk && s[c] == COLON && AllToken(s, pos, c)
  }

  /** A complete line from pos, whose text ends at brk, is not taken behind n fields: the status. */
  ghost predicate LineStops(s: seq<byte>, pos: nat, brk: nat, n: nat, max: nat, status: Status)
    requires pos < brk <= |s|
  {
    if IsLws(s[pos]) then status == Error && (n == 0 || !AllText(s, pos, brk))
    else if !Named(s, pos, brk) then status == Error
    else if n >= max then status == TooManyHeaders
    else status == Error && exists k: nat :: pos <= k < brk && !IsText(s[k])
  }

  /** The same for a line that ends in the LF at lf, whatever its length and ending. */
  ghost predicate StopsAtLine(s: seq<byte>, pos: nat, lf: nat, n: nat, max: nat, policy: Policy, status: Status,
                              end: nat)
    requires pos <= lf < |s|
  {
    var crlf := pos < lf && s[lf - 1] == CR;
    var brk := if crlf then lf - 1 else lf;
    if !crlf && policy.rejectBareLf then status == Error && end == pos
    else if brk - pos > LINE_LIMIT then status == TooLong && end == pos
    else if brk == pos then status == Ok && end == lf + 1
    else end == pos && LineStops(s, pos, brk, n, max, status)
  }

  /** How the block ends behind n fields at pos: the status, and where the accepted part stops. */
  ghost predicate StopsAt(s: seq<byte>, pos: nat, n: nat, max: nat, policy: Policy, status: Status, end: nat)
    requires pos <= |s|
  {
    if pos == |s| then status == Incomplete && end == pos
    else if IsLws(s[pos]) && policy.rejectObsFold then status == Error && end == pos
    else if forall k :: pos <= k < |s| ==> s[k] != LF then
      end == pos && status == if |s| - pos > LINE_LIMIT then TooLong else Incomplete
    else exists lf: nat :: FirstLf(s, pos, lf) && StopsAtLine(s, pos, lf, n, max, policy, status, end)
  }

  // ----- one line

  /** A field line from pos is taken with exactly the spans of the header line. */
  lemma FieldStepTakes(text: seq<byte>, pos: nat, next: nat, hs: seq<Header>, max: nat, colon: nat, first: nat,
                       last: nat)
    requires FieldText(text, colon, first, last) && (first == last ==> first == |text|) && |hs| < max
    ensures FieldStep(text, pos, next, hs, max)
            == Next(next, hs + [Header(pos, colon, pos + first, last - first)])
  {
    assert Find(text, 0, |text|, COLON) == colon;
    assert SkipLws(text, colon + 1, |text|) == first;
    assert TrimLws(text, first, |text|) == last;
  }

  lemma FieldTextOfLine(s: seq<byte>, h: Header, brk: nat, end: nat, policy: Policy)
    requires HeaderLine(s, h, brk, end, policy)
    ensures h.name <= brk <= |s| && h.name < h.value
    ensures FieldText(s[h.name..brk], h.nameLen, h.value - h.name, h.value - h.name + h.valueLen)
  {
    var text := s[h.name..brk];
    assert forall k :: h.name <= k < brk ==> s[k] == text[k - h.name];
  }

  lemma LineIs(s: seq<byte>, pos: nat, brk: nat, end: nat, policy: Policy)
    requires Ends(s, pos, brk, end, policy)
    requires forall k :: pos <= k < brk ==> s[k] != LF && s[k] != CR
    ensures pos <= |s| && LineAt(s, pos, policy) == Line(brk - pos, end - brk)
  {
    LineAtCases(s, pos, policy);
  }

  lemma FieldLineIsClean(s: seq<byte>, h: Header, brk: nat, end: nat)
    requires FieldLine(s, h, brk, end)
    ensures h.name < brk <= |s| && !IsLws(s[h.name])
    ensures forall k :: h.name <= k < brk ==> s[k] != LF && s[k] != CR
  {
    forall k | h.name <= k < brk
      ensures s[k] != LF && s[k] != CR
    {
      assert k < h.name + h.nameLen ==> IsTokenChar(s[k]);
      assert h.name + h.nameLen < k < h.value ==> IsLws(s[k]);
      assert h.value <= k < h.value + h.valueLen ==> IsText(s[k]);
      assert h.value + h.valueLen <= k ==> IsLws(s[k]);
    }
  }

  lemma HeaderLineTaken(s: seq<byte>, h: Header, brk: nat, end: nat, hs: seq<Header>, max: nat, policy: Policy)
    requires HeaderLine(s, h, brk, end, policy) && |hs| < max
    ensures h.name < |s| && HeaderStep(s, h.name, hs, max, policy) == Next(end, hs + [h])
  {
    hide FieldStep, FoldStep, FieldText, FieldLine, LineAt;
    FieldLineIsClean(s, h, brk, end);
    FieldTextOfLine(s, h, brk, end, policy);
    LineIs(s, h.name, brk, end, policy);
    HeaderLineParts(s, h, brk, end, policy);
    FieldStepTakes(s[h.name..brk], h.name, end, hs, max, h.nameLen, h.value - h.name, h.value - h.name + h.valueLen);
  }

  lemma HeaderLineParts(s: seq<byte>, h: Header, brk: nat, end: nat, policy: Policy)
    requires HeaderLine(s, h, brk, end, policy)
    ensures 0 <= h.valueLen && (h.valueLen == 0 ==> h.value == brk)
  {
  }

  lemma ContinuationTaken(s: seq<byte>, from: nat, brk: nat, end: nat, hs: seq<Header>, max: nat, policy: Policy)
    requires Continuation(s, from, brk, end, policy) && hs != []
    ensures from < |s|
    ensures HeaderStep(s, from, hs, max, policy)
            == Next(end, hs[..|hs| - 1] + [hs[|hs| - 1].(valueLen := brk - hs[|hs| - 1].value)])
  {
    hide FieldStep, LineAt;
    assert forall k :: from <= k < brk ==> IsText(s[k]);
    LineIs(s, from, brk, end, policy);
    var text := s[from..brk];
    assert forall k :: 0 <= k < |text| ==> text[k] == s[from + k];
  }

  // ----- taken lines are read

  lemma {:induction false} ContinuationsTaken(s: seq<byte>, from: nat, brk: nat, end: nat, hs: seq<Header>, max: nat,
                                              policy: Policy)
    requires Continuations(s, from, brk, end, policy) && hs != [] && from <= |s|
    ensures end <= |s|
    ensures ParseBlock(s, from, hs, max, policy)
            == ParseBlock(s, end, hs[..|hs| - 1] + [hs[|hs| - 1].(valueLen := brk - hs[|hs| - 1].value)], max, policy)
    decreases end
  {
    hide HeaderStep, Continuation;
    var p: nat :| p < end && Continuation(s, p, brk, end, policy)
                  && (p == from || exists b: nat :: Continuations(s, from, b, p, policy));
    if p == from {
      ContinuationTaken(s, from, brk, end, hs, max, policy);
    } else {
      var b: nat :| Continuations(s, from, b, p, policy);
      ContinuationsTaken(s, from, b, p, hs, max, policy);
      var hs' := hs[..|hs| - 1] + [hs[|hs| - 1].(valueLen := b - hs[|hs| - 1].value)];
      ContinuationTaken(s, p, brk, end, hs', max, policy);
      assert hs'[..|hs'| - 1] == hs[..|hs| - 1];
    }
  }

  lemma FieldLinesTaken(s: seq<byte>, h: Header, end: nat, hs: seq<Header>, max: nat, policy: Policy)
    requires FieldLines(s, h, end, policy) && |hs| < max
    ensures h.name <= end <= |s|
    ensures ParseBlock(s, h.name, hs, max, policy) == ParseBlock(s, end, hs + [h], max, policy)
  {
    hide HeaderStep, HeaderLine, Continuations;
    if brk: nat :| HeaderLine(s, h, brk, end, policy) {
      HeaderLineTaken(s, h, brk, end, hs, max, policy);
      BlockUnfolds(s, h.name, hs, max, policy);
    } else {
      var v: nat, brk: nat, mid: nat, last: nat :| HeaderLine(s, h.(valueLen := v), brk, mid, policy)
                                                   && Continuations(s, mid, last, end, policy)
                                                   && h.value + h.valueLen == last;
      var h0 := h.(valueLen := v);
      HeaderLineTaken(s, h0, brk, mid, hs, max, policy);
      BlockUnfolds(s, h.name, hs, max, policy);
      ContinuationsTaken(s, mid, last, end, hs + [h0], max, policy);
      assert (hs + [h0])[..|hs|] == hs;
      ContinuationsGoOn(s, mid, last, end, policy);
    }
  }

  lemma {:induction false} ContinuationsGoOn(s: seq<byte>, from: nat, brk: nat, end: nat, policy: Policy)
    requires Continuations(s, from, brk, end, policy)
    ensures from < end
    decreases end
  {
    var p: nat :| p < end && Continuation(s, p, brk, end, policy)
                  && (p == from || exists b: nat :: Continuations(s, from, b, p, policy));
    if p != from {
      var b: nat :| Continuations(s, from, b, p, policy);
      ContinuationsGoOn(s, from, b, p, policy);
    }
  }

  lemma {:induction false} SectionTaken(s: seq<byte>, lo: nat, hi: nat, hs: seq<Header>, max: nat, policy: Policy)
    requires Section(s, lo, hi, hs, policy) && |hs| <= max && lo <= |s|
    ensures lo <= hi <= |s|
    ensures ParseBlock(s, lo, [], max, policy) == ParseBlock(s, hi, hs, max, policy)
    decreases |hs|
  {
    hide ParseBlock, FieldLines;
    if hs != [] {
      var init, h := hs[..|hs| - 1], hs[|hs| - 1];
      SectionTaken(s, lo, h.name, init, max, policy);
      FieldLinesTaken(s, h, hi, init, max, policy);
      assert init + [h] == hs;
    }
  }

  // ----- the line the block stops at

  /** What FieldStep refuses, on the octets of the line. */
  lemma FieldStepRefuses(s: seq<byte>, pos: nat, brk: nat, next: nat, hs: seq<Header>, max: nat)
    requires pos < brk <= |s| && !IsLws(s[pos])
    ensures var step := FieldStep(s[pos..brk], pos, next, hs, max);
            && (step.Stop? ==> LineStops(s, pos, brk, |hs|, max, step.status))
            && (forall st :: LineStops(s, pos, brk, |hs|, max, st) ==> step == Stop(st, pos, hs))
  {
    var text := s[pos..brk];
    var colon := Find(text, 0, |text|, COLON);
    assert forall k :: pos <= k < brk ==> s[k] == text[k - pos];
    assert forall k :: 0 <= k < |text| ==> text[k] == s[pos + k];
    NamedByFind(s, pos, brk);
    if Named(s, pos, brk) && |hs| < max {
      var first := SkipLws(text, colon + 1, |text|);
      var last := TrimLws(text, first, |text|);
      if !AllText(text, first, last) {
        var k :| first <= k < last && !IsText(text[k]);
        assert !IsText(s[pos + k]);
      } else {
        forall k | pos <= k < brk
          ensures IsText(s[k])
        {
          assert s[k] == text[k - pos];
        }
      }
    }
  }

  lemma NamedByFind(s: seq<byte>, pos: nat, brk: nat)
    requires pos < brk <= |s|
    ensures var text := s[pos..brk];
            var colon := Find(text, 0, |text|, COLON);
            Named(s, pos, brk) <==> 0 < colon < |text| && AllToken(text, 0, colon)
  {
    var text := s[pos..brk];
    var colon := Find(text, 0, |text|, COLON);
    assert forall k :: pos <= k < brk ==> s[k] == text[k - pos];
    if Named(s, pos, brk) {
      var c: nat :| pos < c < brk && s[c] == COLON && AllToken(s, pos, c);
      assert text[c - pos] == COLON;
      assert forall k :: 0 <= k < c - pos ==> text[k] == s[pos + k];
      assert colon == c - pos;
    }
    if 0 < colon < |text| && AllToken(text, 0, colon) {
      assert s[pos + colon] == COLON;
      assert forall k :: pos <= k < pos + colon ==> IsTokenChar(s[k]) by {
        assert forall k :: pos <= k < pos + colon ==> s[k] == text[k - pos];
      }
    }
  }

  lemma FoldStepRefuses(s: seq<byte>, pos: nat, brk: nat, next: nat, hs: seq<Header>, max: nat)
    requires pos < brk <= |s| && IsLws(s[pos])
    ensures var step := FoldStep(s[pos..brk], pos, next, hs);
            && (step.Stop? ==> LineStops(s, pos, brk, |hs|, max, step.status))
            && (forall st :: LineStops(s, pos, brk, |hs|, max, st) ==> step == Stop(st, pos, hs))
  {
    var text := s[pos..brk];
    assert forall k :: pos <= k < brk ==> s[k] == text[k - pos];
    assert forall k :: 0 <= k < |text| ==> text[k] == s[pos + k];
  }

  lemma LineAtFirstLf(s: seq<byte>, pos: nat, lf: nat, policy: Policy)
    requires FirstLf(s, pos, lf)
    ensures LineAt(s, pos, policy)
            == if pos < lf && s[lf - 1] == CR then Line(lf - 1 - pos, 2)
               else if policy.rejectBareLf then BareLf
               else Line(lf - pos, 1)
  {
    assert Find(s, pos, |s|, LF) == lf;
  }

  lemma FirstLfExists(s: seq<byte>, pos: nat) returns (lf: nat)
    requires pos <= |s| && !(forall k :: pos <= k < |s| ==> s[k] != LF)
    ensures FirstLf(s, pos, lf)
  {
    lf := Find(s, pos, |s|, LF);
  }

  /** A step that stops, stops as the octets say; and the octets determine it. */
  lemma StepStops(s: seq<byte>, pos: nat, hs: seq<Header>, max: nat, policy: Policy)
    requires pos < |s|
    ensures var step := HeaderStep(s, pos, hs, max, policy);
            && (step.Stop? ==> StopsAt(s, pos, |hs|, max, policy, step.status, step.pos))
            && (forall st, end :: StopsAt(s, pos, |hs|, max, policy, st, end) ==> step == Stop(st, end, hs))
  {
    hide FieldStep, FoldStep, LineStops;
    if !(IsLws(s[pos]) && policy.rejectObsFold) {
      if forall k :: pos <= k < |s| ==> s[k] != LF {
        LineAtCases(s, pos, policy);
      } else {
        var lf := FirstLfExists(s, pos);
        CompleteLineStops(s, pos, lf, hs, max, policy);
      }
    }
  }

  lemma CompleteLineStops(s: seq<byte>, pos: nat, lf: nat, hs: seq<Header>, max: nat, policy: Policy)
    requires pos < |s| && FirstLf(s, pos, lf) && !(IsLws(s[pos]) && policy.rejectObsFold)
    ensures var step := HeaderStep(s, pos, hs, max, policy);
            && (step.Stop? ==> StopsAt(s, pos, |hs|, max, policy, step.status, step.pos))
            && (forall st, end :: StopsAt(s, pos, |hs|, max, policy, st, end) ==> step == Stop(st, end, hs))
  {
    hide HeaderStep, StopsAtLine;
    FirstLfIsUnique(s, pos, lf);
    ThatLineStops(s, pos, lf, hs, max, policy);
  }

  lemma FirstLfIsUnique(s: seq<byte>, pos: nat, lf: nat)
    requires FirstLf(s, pos, lf)
    ensures !(forall k :: pos <= k < |s| ==> s[k] != LF)
    ensures forall other: nat :: FirstLf(s, pos, other) ==> other == lf
  {
    assert s[lf] == LF;
  }

  lemma ThatLineStops(s: seq<byte>, pos: nat, lf: nat, hs: seq<Header>, max: nat, policy: Policy)
    requires pos < |s| && FirstLf(s, pos, lf) && !(IsLws(s[pos]) && policy.rejectObsFold)
    ensures var step := HeaderStep(s, pos, hs, max, policy);
            && (step.Stop? ==> StopsAtLine(s, pos, lf, |hs|, max, policy, step.status, step.pos))
            && (forall st, end :: StopsAtLine(s, pos, lf, |hs|, max, policy, st, end) ==> step == Stop(st, end, hs))
  {
    hide FieldStep, FoldStep, LineStops, LineAt;
    LineAtFirstLf(s, pos, lf, policy);
    var brk := if pos < lf && s[lf - 1] == CR then lf - 1 else lf;
    if pos < brk {
      FieldOrFold(s, pos, brk, lf + 1, hs, max);
    }
  }

  lemma FieldOrFold(s: seq<byte>, pos: nat, brk: nat, next: nat, hs: seq<Header>, max: nat)
    requires pos < brk <= |s|
    ensures var step := if IsLws(s[pos]) then FoldStep(s[pos..brk], pos, next, hs)
                        else FieldStep(s[pos..brk], pos, next, hs, max);
            && (step.Stop? ==> LineStops(s, pos, brk, |hs|, max, step.status))
            && (forall st :: LineStops(s, pos, brk, |hs|, max, st) ==> step == Stop(st, pos, hs))
  {
    hide FieldStep, FoldStep, LineStops;
    if IsLws(s[pos]) {
      FoldStepRefuses(s, pos, brk, next, hs, max);
    } else {
      FieldStepRefuses(s, pos, brk, next, hs, max);
    }
  }

  // ----- read lines are taken

  /** A field line the parser takes is a header line. */
  lemma TakenHeaderLine(s: seq<byte>, pos: nat, hs: seq<Header>, max: nat, policy: Policy)
    requires pos < |s| && !IsLws(s[pos]) && HeaderStep(s, pos, hs, max, policy).Next?
    ensures var step := HeaderStep(s, pos, hs, max, policy);
            && |step.headers| == |hs| + 1 <= max && step.headers[..|hs|] == hs
            && step.headers[|hs|].name == pos
            && exists brk: nat :: HeaderLine(s, step.headers[|hs|], brk, step.pos, policy)
  {
    hide FieldStep, FieldLine, FoldStep, LineAt;
    var line := LineAt(s, pos, policy);
    LineAtEnding(s, pos, policy);
    FieldStepMakesLine(s, pos, line.len, line.eol, hs, max);
    EmptyValueAtEnd(s[pos..pos + line.len], pos, pos + line.len + line.eol, hs, max);
    var step := HeaderStep(s, pos, hs, max, policy);
    assert HeaderLine(s, step.headers[|hs|], pos + line.len, step.pos, policy);
  }

  lemma EmptyValueAtEnd(text: seq<byte>, pos: nat, next: nat, hs: seq<Header>, max: nat)
    requires FieldStep(text, pos, next, hs, max).Next?
    ensures var h := FieldStep(text, pos, next, hs, max).headers[|hs|];
            h.valueLen == 0 ==> h.value == pos + |text|
  {
  }

  /** A continuation the parser takes extends the lines of the last field. */
  lemma TakenContinuation(s: seq<byte>, pos: nat, hs: seq<Header>, max: nat, policy: Policy)
    requires pos < |s| && IsLws(s[pos]) && HeaderStep(s, pos, hs, max, policy).Next?
    requires hs != [] && FieldLines(s, hs[|hs| - 1], pos, policy)
    ensures var step := HeaderStep(s, pos, hs, max, policy);
            && |step.headers| == |hs| && step.headers[..|hs| - 1] == hs[..|hs| - 1]
            && step.headers[|hs| - 1].name == hs[|hs| - 1].name
            && FieldLines(s, step.headers[|hs| - 1], step.pos, policy)
  {
    hide HeaderStep, Continuation, HeaderLine;
    var h := hs[|hs| - 1];
    var brk := ContinuationRead(s, pos, hs, max, policy);
    var step := HeaderStep(s, pos, hs, max, policy);
    var h' := step.headers[|hs| - 1];
    if b: nat :| HeaderLine(s, h, b, pos, policy) {
      ValueIsNat(s, h, b, pos, policy);
      assert h'.(valueLen := h.valueLen) == h;
      assert Continuations(s, pos, brk, step.pos, policy);
    } else {
      var v: nat, b: nat, mid: nat, last: nat :| HeaderLine(s, h.(valueLen := v), b, mid, policy)
                                                 && Continuations(s, mid, last, pos, policy)
                                                 && h.value + h.valueLen == last;
      assert h'.(valueLen := v) == h.(valueLen := v);
      assert Continuations(s, mid, brk, step.pos, policy);
    }
  }

  lemma ValueIsNat(s: seq<byte>, h: Header, brk: nat, end: nat, policy: Policy)
    requires HeaderLine(s, h, brk, end, policy)
    ensures 0 <= h.valueLen
  {
  }

  lemma ContinuationRead(s: seq<byte>, pos: nat, hs: seq<Header>, max: nat, policy: Policy) returns (brk: nat)
    requires pos < |s| && IsLws(s[pos]) && HeaderStep(s, pos, hs, max, policy).Next?
    ensures var step := HeaderStep(s, pos, hs, max, policy);
            && pos < step.pos && hs != [] && Continuation(s, pos, brk, step.pos, policy)
            && |step.headers| == |hs| && step.headers[..|hs| - 1] == hs[..|hs| - 1]
            && step.headers[|hs| - 1] == hs[|hs| - 1].(valueLen := brk - hs[|hs| - 1].value)
  {
    hide FieldStep, LineAt;
    var line := LineAt(s, pos, policy);
    LineAtEnding(s, pos, policy);
    brk := pos + line.len;
    var text := s[pos..brk];
    assert forall k :: pos <= k < brk ==> s[k] == text[k - pos];
  }

  lemma SectionGrows(s: seq<byte>, lo: nat, pos: nat, hs: seq<Header>, max: nat, policy: Policy)
    requires pos < |s| && lo <= pos && Section(s, lo, pos, hs, policy) && |hs| <= max
    requires HeaderStep(s, pos, hs, max, policy).Next?
    ensures var step := HeaderStep(s, pos, hs, max, policy);
            Section(s, lo, step.pos, step.headers, policy) && |step.headers| <= max
  {
    hide HeaderStep, FieldLines, HeaderLine;
    if IsLws(s[pos]) {
      var brk := ContinuationRead(s, pos, hs, max, policy);
      TakenContinuation(s, pos, hs, max, policy);
    } else {
      TakenHeaderLine(s, pos, hs, max, policy);
      var step := HeaderStep(s, pos, hs, max, policy);
      LineOfItsOwn(s, step.headers[|hs|], step.pos, policy);
    }
  }

  lemma LineOfItsOwn(s: seq<byte>, h: Header, end: nat, policy: Policy)
    requires exists brk: nat :: HeaderLine(s, h, brk, end, policy)
    ensures FieldLines(s, h, end, policy)
  {
    hide HeaderLine;
  }

  lemma {:induction false} BlockReads(s: seq<byte>, lo: nat, pos: nat, hs: seq<Header>, max: nat, policy: Policy)
    returns (p: nat)
    requires lo <= pos <= |s| && Section(s, lo, pos, hs, policy) && |hs| <= max
    ensures var b := ParseBlock(s, pos, hs, max, policy);
            && p <= |s| && Section(s, lo, p, b.headers, policy) && |b.headers| <= max
            && StopsAt(s, p, |b.headers|, max, policy, b.status, b.pos)
    decreases |s| - pos
  {
    hide HeaderStep, Section;
    p := pos;
    if pos < |s| {
      var step := HeaderStep(s, pos, hs, max, policy);
      if step.Next? {
        SectionGrows(s, lo, pos, hs, max, policy);
        p := BlockReads(s, lo, step.pos, step.headers, max, policy);
      } else {
        StepStops(s, pos, hs, max, policy);
      }
    }
  }

  lemma StopDecides(s: seq<byte>, pos: nat, hs: seq<Header>, max: nat, policy: Policy, status: Status, end: nat)
    requires pos <= |s| && StopsAt(s, pos, |hs|, max, policy, status, end)
    ensures ParseBlock(s, pos, hs, max, policy) == Block(status, end, hs)
  {
    hide HeaderStep, LineStops;
    if pos < |s| {
      StepStops(s, pos, hs, max, policy);
    }
  }

  // ----- the block, exactly

  /** The fields fill s[pos..p], and the line at p ends the block with the given result. */
  ghost predicate BlockIs(s: seq<byte>, pos: nat, p: nat, b: Block, max: nat, policy: Policy) {
    && p <= |s| && |b.headers| <= max
    && Section(s, pos, p, b.headers, policy) && StopsAt(s, p, |b.headers|, max, policy, b.status, b.pos)
  }

  /** A block has a result if and only if its octets are the lines of those fields, continuation
      lines included, up to a line that ends it in that way: for every status, every policy and
      every capacity. */
  lemma BlockExactly(s: seq<byte>, pos: nat, b: Block, max: nat, policy: Policy)
    requires pos <= |s|
    ensures ParseBlock(s, pos, [], max, policy) == b <==> exists p: nat :: BlockIs(s, pos, p, b, max, policy)
  {
    hide ParseBlock, Section, StopsAt;
    if ParseBlock(s, pos, [], max, policy) == b {
      NothingIsSection(s, pos, policy);
      var p := BlockReads(s, pos, pos, [], max, policy);
      assert BlockIs(s, pos, p, b, max, policy);
    }
    forall p: nat | BlockIs(s, pos, p, b, max, policy)
      ensures ParseBlock(s, pos, [], max, policy) == b
    {
      SectionTaken(s, pos, p, b.headers, max, policy);
      StopDecides(s, p, b.headers, max, policy, b.status, b.pos);
    }
  }

  lemma NothingIsSection(s: seq<byte>, pos: nat, policy: Policy)
    ensures Section(s, pos, pos, [], policy)
  {
  }

  /** The line at p is complete, within the limit, no continuation, and begins with a name. */
  ghost predicate NamedLine(s: seq<byte>, p: nat, policy: Policy) {
    && p < |s| && !IsLws(s[p])
    && exists brk: nat, end: nat :: Ends(s, p, brk, end, policy) && Named(s, p, brk) && FirstLf(s, p, end - 1)
                                    && (end == brk + 1 && p < brk ==> s[brk - 1] != CR)
  }

  /** Too many headers, exactly: the capacity is used up and one more named line is complete,
      whatever its value is. */
  lemma TooManyExactly(s: seq<byte>, pos: nat, max: nat, policy: Policy)
    requires pos <= |s|
    ensures ParseBlock(s, pos, [], max, policy).status == TooManyHeaders
            <==> exists p: nat, hs :: |hs| == max && Section(s, pos, p, hs, policy) && NamedLine(s, p, policy)
  {
    hide ParseBlock, Section, StopsAt, NamedLine;
    var b := ParseBlock(s, pos, [], max, policy);
    if b.status == TooManyHeaders {
      NothingIsSection(s, pos, policy);
      var p := BlockReads(s, pos, pos, [], max, policy);
      StopsWithTooMany(s, p, |b.headers|, max, policy);
      assert |b.headers| == max && Section(s, pos, p, b.headers, policy) && NamedLine(s, p, policy);
    }
    forall p: nat, hs | |hs| == max && Section(s, pos, p, hs, policy) && NamedLine(s, p, policy)
      ensures b.status == TooManyHeaders
    {
      InsideBuffer(s, p, policy);
      StopsWithTooMany(s, p, max, max, policy);
      SectionTaken(s, pos, p, hs, max, policy);
      StopDecides(s, p, hs, max, policy, TooManyHeaders, p);
    }
  }

  lemma InsideBuffer(s: seq<byte>, p: nat, policy: Policy)
    requires NamedLine(s, p, policy)
    ensures p < |s|
  {
  }

  lemma StopsWithTooMany(s: seq<byte>, p: nat, n: nat, max: nat, policy: Policy)
    requires p <= |s| && n <= max
    ensures (exists end: nat :: StopsAt(s, p, n, max, policy, TooManyHeaders, end))
            <==> n == max && NamedLine(s, p, policy)
    ensures n == max && NamedLine(s, p, policy) ==> StopsAt(s, p, n, max, policy, TooManyHeaders, p)
  {
    hide Named, AllText;
    if end: nat :| StopsAt(s, p, n, max, policy, TooManyHeaders, end) {
      var lf := FirstLfExists(s, p);
      var brk := if p < lf && s[lf - 1] == CR then lf - 1 else lf;
      assert Ends(s, p, brk, lf + 1, policy) && Named(s, p, brk) && FirstLf(s, p, lf + 1 - 1);
    }
    if n == max && NamedLine(s, p, policy) {
      var brk: nat, end: nat :| Ends(s, p, brk, end, policy) && Named(s, p, brk) && FirstLf(s, p, end - 1)
                                && (end == brk + 1 && p < brk ==> s[brk - 1] != CR);
      NamedIsNonEmpty(s, p, brk);
      assert s[end - 1] == LF;
      assert StopsAt(s, p, n, max, policy, TooManyHeaders, p);
    }
  }

  lemma NamedIsNonEmpty(s: seq<byte>, p: nat, brk: nat)
    requires brk <= |s| && Named(s, p, brk)
    ensures p < brk
  {
  }
}
