/** The two ways to read a trailer section, the header parser on the octets left after the last
    chunk and the decoder that consumes the trailer itself: when exactly they agree. */
module ChunkTrailers {
  import opened Bytes
  import opened Types
  import HeadSpec
  import HeadSpans
  import HeadPrint
  import opened ChunkSpec
  import opened ChunkGrammar

  lemma FieldTextIsClean(text: seq<byte>, colon: nat, first: nat, last: nat)
    requires HeadSpans.FieldText(text, colon, first, last)
    ensures NoCrLf(text)
  {
    forall k | 0 <= k < |text|
      ensures text[k] != CR && text[k] != LF
    {
      assert k < colon ==> IsTokenChar(text[k]);
      assert k == colon ==> text[k] == COLON;
      assert colon < k < first ==> IsLws(text[k]);
      assert first <= k < last ==> IsText(text[k]);
      assert last <= k ==> IsLws(text[k]);
    }
  }

  /** A header line the parser accepts is a trailer line the decoder skips. */
  lemma AcceptedLineIsClean(s: seq<byte>, pos: nat, hs: seq<Header>, max: nat, policy: Policy)
    returns (line: seq<byte>)
    requires policy.rejectBareLf && pos < |s|
    requires HeadSpec.HeaderStep(s, pos, hs, max, policy).Next?
    ensures line != [] && NoCrLf(line)
    ensures HeadSpec.HeaderStep(s, pos, hs, max, policy).pos == pos + |line| + 2
    ensures s[pos..pos + |line| + 2] == line + CRLF
  {
    hide HeadSpec.FieldStep, HeadSpans.FieldText;
    var l := HeadSpec.LineAt(s, pos, policy);
    line := s[pos..pos + l.len];
    if IsLws(s[pos]) {
      assert AllText(line, 0, |line|);
    } else {
      var next := pos + l.len + l.eol;
      HeadSpans.FieldStepParts(line, pos, next, hs, max);
      var h := HeadSpec.FieldStep(line, pos, next, hs, max).headers[|hs|];
      FieldTextIsClean(line, h.nameLen, h.value - pos, h.value - pos + h.valueLen);
    }
    assert s[pos..pos + l.len + 2] == line + [s[pos + l.len], s[pos + l.len + 1]];
  }

  lemma RunEmptyLine(d: Decoder, s: seq<byte>)
    requires d.state == Trailer && d.hexCount == TRAILER_LINE_START
    requires |s| >= 2 && s[..2] == CRLF
    ensures Run(d, s).Complete? && Run(d, s).out == [] && Run(d, s).used == 2
  {
    var d1 := d.(hexCount := TRAILER_DONE_LF);
    assert s[0] == s[..2][0] && s[1] == s[..2][1];
    assert s[1..][0] == LF;
    RunTook(d, s);
    RunStops(d1, s[1..]);
  }

  /** On the octets of an accepted block the trailer machine completes where the block ends. */
  lemma {:induction false} BlockIsTrailer(d: Decoder, s: seq<byte>, pos: nat, hs: seq<Header>, max: nat, policy: Policy)
    requires policy.rejectBareLf && pos <= |s|
    requires d.state == Trailer && d.hexCount == TRAILER_LINE_START
    requires HeadSpec.ParseBlock(s, pos, hs, max, policy).status == Ok
    ensures var r := Run(d, s[pos..]);
            r.Complete? && r.out == [] && r.used == HeadSpec.ParseBlock(s, pos, hs, max, policy).pos - pos
    decreases |s| - pos
  {
    hide Run, HeadSpec.FieldStep, HeadSpec.FoldStep;
    var step := HeadSpec.HeaderStep(s, pos, hs, max, policy);
    if step.Next? {
      var line := AcceptedLineIsClean(s, pos, hs, max, policy);
      RunTrailerLine(d, line);
      RunSplit(d, line + CRLF, s[step.pos..]);
      assert s[pos..] == s[pos..step.pos] + s[step.pos..];
      BlockIsTrailer(d, s, step.pos, step.headers, max, policy);
    } else {
      assert s[pos..][..2] == [s[pos], s[pos + 1]];
      RunEmptyLine(d, s[pos..]);
    }
  }

  /** If a decoder without trailer handling stops after u octets, and a header parser that rejects
      bare LF then accepts n of the remaining octets, a decoder with trailer handling fed the whole
      stops after u + n with the same payload. */
  lemma TrailerPathsAgree(s: seq<byte>, max: nat, policy: Policy)
    requires policy.rejectBareLf
    requires Run(Start(false), s).Complete? && Run(Start(false), s).used <= |s|
    requires HeadSpec.OneShot(HeadersMode, s[Run(Start(false), s).used..], max, policy).status == Ok
    ensures var a := Run(Start(false), s);
            var n := HeadSpec.OneShot(HeadersMode, s[a.used..], max, policy).consumed;
            var b := Run(Start(true), s);
            b.Complete? && b.out == a.out && b.used == a.used + n
  {
    hide Run, Wire, ValidChunks, ValidLast, ValidTrailers, HeadSpec.ParseBlock, Payload, Describes;
    var a := Run(Start(false), s);
    StartDescribed(false);
    var e := CompletesOnSentence(InSize([], []), Start(false), s);
    assert Wire(e, false) == s[..a.used];
    var d := RunToTrailer(e);
    BlockIsTrailer(d, s[a.used..], 0, [], max, policy);
    assert s[a.used..][0..] == s[a.used..];
    RunSplit(Start(true), s[..a.used], s[a.used..]);
    assert s == s[..a.used] + s[a.used..];
    assert a.out + [] == a.out;
  }

  // ----- which trailer sections the header parser takes

  /** A line that names a field: a non-empty token before its first colon, and text in the trimmed
      rest. */
  predicate NamesField(line: seq<byte>) {
    var colon := Find(line, 0, |line|, COLON);
    && 0 < colon < |line| && AllToken(line, 0, colon)
    && var first := SkipLws(line, colon + 1, |line|);
       AllText(line, first, TrimLws(line, first, |line|))
  }

  /** What a header line must be: within the limit, and a field, or, where folding is allowed and
      there is a field to continue, whitespace and text. */
  predicate HeaderLine(line: seq<byte>, behindField: bool, policy: Policy) {
    && 0 < |line| <= MAX_HEADER_LINE
    && if IsLws(line[0]) then !policy.rejectObsFold && behindField && AllText(line, 0, |line|) else NamesField(line)
  }

  function FieldCount(lines: seq<seq<byte>>): nat {
    if lines == [] then 0
    else (if lines[0] != [] && IsLws(lines[0][0]) then 0 else 1) + FieldCount(lines[1..])
  }

  /** The lines continue a block of n fields within the capacity. */
  predicate HeaderLines(lines: seq<seq<byte>>, n: nat, max: nat, policy: Policy) {
    && n + FieldCount(lines) <= max
    && forall i :: 0 <= i < |lines| ==> HeaderLine(lines[i], n > 0 || i > 0, policy)
  }

  lemma {:induction false} TrailersCons(line: seq<byte>, lines: seq<seq<byte>>)
    ensures TrailersWire([line] + lines) == line + CRLF + TrailersWire(lines)
    decreases |lines|
  {
    if lines == [] {
      assert [line] + lines == [] + [line];
      TrailersSnoc([], line);
      assert [] + line + CRLF == line + CRLF + [];
    } else {
      var init, last := lines[..|lines| - 1], lines[|lines| - 1];
      hide TrailersWire;
      TrailersCons(line, init);
      TrailersSnoc([line] + init, last);
      TrailersSnoc(init, last);
      assert [line] + lines == [line] + init + [last] && lines == init + [last];
      Regroup(line + CRLF, TrailersWire(init), last);
    }
  }

  lemma Regroup(a: seq<byte>, b: seq<byte>, c: seq<byte>)
    ensures a + b + c + CRLF == a + (b + c + CRLF)
  {
  }

  lemma TrailersFront(lines: seq<seq<byte>>)
    requires lines != []
    ensures TrailersWire(lines) == lines[0] + CRLF + TrailersWire(lines[1..])
  {
    TrailersCons(lines[0], lines[1..]);
    assert lines == [lines[0]] + lines[1..];
  }

  lemma FieldLineDecides(line: seq<byte>, pos: nat, next: nat, hs: seq<Header>, max: nat)
    ensures var step := HeadSpec.FieldStep(line, pos, next, hs, max);
            step.Next? <==> NamesField(line) && |hs| < max
  {
  }

  lemma FoldLineDecides(line: seq<byte>, pos: nat, next: nat, hs: seq<Header>)
    ensures var step := HeadSpec.FoldStep(line, pos, next, hs);
            step.Next? <==> hs != [] && AllText(line, 0, |line|)
  {
  }

  /** One line followed by CRLF, read by the header parser. */
  lemma LineDecides(s: seq<byte>, pos: nat, line: seq<byte>, hs: seq<Header>, max: nat, policy: Policy)
    requires line != [] && NoCrLf(line) && HeadPrint.Carries(s, pos, line + CRLF)
    requires |hs| <= max
    ensures pos + |line| + 2 <= |s|
    ensures var step := HeadSpec.HeaderStep(s, pos, hs, max, policy);
            var n := if IsLws(line[0]) then 0 else 1;
            && (step.Next? <==> HeaderLine(line, hs != [], policy) && |hs| + n <= max)
            && (step.Next? ==> step.pos == pos + |line| + 2 && |step.headers| == |hs| + n > 0)
            && (step.Stop? ==> step.status != Ok)
  {
    hide HeadSpec.FieldStep, HeadSpec.FoldStep, HeadSpec.LineAt, NamesField, HeadPrint.Carries;
    HeadPrint.PrintedLine(s, pos, line, policy);
    assert s[pos] == s[pos..pos + |line|][0];
    FieldLineDecides(line, pos, pos + |line| + 2, hs, max);
    FoldLineDecides(line, pos, pos + |line| + 2, hs);
  }

  lemma HeaderLinesFront(lines: seq<seq<byte>>, n: nat, max: nat, policy: Policy)
    requires lines != [] && lines[0] != []
    ensures var k := n + if IsLws(lines[0][0]) then 0 else 1;
            && (HeaderLines(lines, n, max, policy) && k > 0 ==>
                  HeaderLine(lines[0], n > 0, policy) && k <= max && HeaderLines(lines[1..], k, max, policy))
            && (HeaderLine(lines[0], n > 0, policy) && k <= max && HeaderLines(lines[1..], k, max, policy) ==>
                  HeaderLines(lines, n, max, policy))
            && (HeaderLine(lines[0], n > 0, policy) ==> k > 0)
  {
    hide NamesField;
    var k := n + if IsLws(lines[0][0]) then 0 else 1;
    if HeaderLine(lines[0], n > 0, policy) && HeaderLines(lines[1..], k, max, policy) {
      forall i | 0 <= i < |lines|
        ensures HeaderLine(lines[i], n > 0 || i > 0, policy)
      {
        assert i > 0 ==> lines[i] == lines[1..][i - 1];
      }
    }
  }

  /** The header parser takes a trailer section, whatever follows it, exactly when every line is a
      header line and the fields fit; and then it stops at the end of the section. */
  lemma {:induction false} BlockTakesTrailers(s: seq<byte>, pos: nat, lines: seq<seq<byte>>, hs: seq<Header>, max: nat,
        policy: Policy)
    requires ValidTrailers(lines) && HeadPrint.Carries(s, pos, TrailersWire(lines) + CRLF) && |hs| <= max
    ensures pos <= |s|
    ensures var b := HeadSpec.ParseBlock(s, pos, hs, max, policy);
            && (b.status == Ok <==> HeaderLines(lines, |hs|, max, policy))
            && (b.status == Ok ==> b.pos == pos + |TrailersWire(lines)| + 2)
    decreases |lines|
  {
    hide HeadSpec.HeaderStep, HeaderLine, NoCrLf, HeadPrint.Carries;
    if lines == [] {
      assert [] + CRLF == CRLF;
      HeadPrint.PrintedEnd(s, pos, hs, max, policy);
    } else {
      var t, rest := lines[0] + CRLF, TrailersWire(lines[1..]) + CRLF;
      TrailersFront(lines);
      hide TrailersWire, HeaderLines;
      assert TrailersWire(lines) + CRLF == t + rest;
      HeadPrint.CarriesParts(s, pos, t, rest);
      LineDecides(s, pos, lines[0], hs, max, policy);
      HeaderLinesFront(lines, |hs|, max, policy);
      var step := HeadSpec.HeaderStep(s, pos, hs, max, policy);
      if step.Next? {
        BlockTakesTrailers(s, step.pos, lines[1..], step.headers, max, policy);
      }
    }
  }

  // ----- the two paths

  /** A trailer section of the given lines, with its empty line, is what s goes on with. */
  predicate GoesOnWith(s: seq<byte>, lines: seq<seq<byte>>) {
    ValidTrailers(lines) && TrailersWire(lines) + CRLF <= s
  }

  /** Behind the last chunk, a decoder with trailer handling completes exactly when some trailer
      section follows, and it stops at the end of that section with the same payload. */
  lemma DecoderTakesTrailers(s: seq<byte>)
    requires Run(Start(false), s).Complete?
    ensures var a, b := Run(Start(false), s), Run(Start(true), s);
            && a.used <= |s|
            && (b.Complete? <==> exists lines :: GoesOnWith(s[a.used..], lines))
            && forall lines :: GoesOnWith(s[a.used..], lines) ==>
                                 b.Complete? && b.out == a.out && b.used == a.used + |TrailersWire(lines)| + 2
  {
    hide Run, Wire, ValidChunks, ValidLast, ValidTrailers, Payload, Describes, TrailersWire;
    StartDescribed(false);
    StartDescribed(true);
    var a, b := Run(Start(false), s), Run(Start(true), s);
    var e := CompletesOnSentence(InSize([], []), Start(false), s);
    assert Wire(e, false) == s[..a.used];
    forall lines | GoesOnWith(s[a.used..], lines)
      ensures b.Complete? && b.out == a.out && b.used == a.used + |TrailersWire(lines)| + 2
    {
      SentenceWithTrailers(e, lines, s);
    }
    if b.Complete? {
      var e2 := CompletesOnSentence(InSize([], []), Start(true), s);
      assert Wire(e2, true) == s[..b.used];
      TrailersBehind(e2, s, b.used);
    }
  }

  lemma WireSplits(e: Encoding)
    ensures Wire(e, true) == Wire(e, false) + (TrailersWire(e.trailers) + CRLF)
    ensures Wire(e, false) == Wire(e.(trailers := []), false)
  {
    hide ChunksWire, SizeWire, TrailersWire;
  }

  lemma PrefixParts(s: seq<byte>, head: seq<byte>, tail: seq<byte>, rest: seq<byte>)
    requires s == head + tail + rest
    ensures s == head + (tail + rest) && s[|head|..] == tail + rest && tail <= s[|head|..]
  {
  }

  lemma PrefixRest(s: seq<byte>, head: seq<byte>, tail: seq<byte>)
    requires head <= s && tail <= s[|head|..]
    ensures s == head + tail + s[|head| + |tail|..]
  {
    assert s[|head|..] == tail + s[|head|..][|tail|..];
    assert s == head + s[|head|..];
  }

  /** A sentence up to the last size line, with a trailer section behind it. */
  lemma SentenceWithTrailers(e: Encoding, lines: seq<seq<byte>>, s: seq<byte>)
    requires Valid(e, false) && Wire(e, false) <= s && GoesOnWith(s[|Wire(e, false)|..], lines)
    ensures var b := Run(Start(true), s);
            b.Complete? && b.out == Payload(e.chunks) && b.used == |Wire(e, false)| + |TrailersWire(lines)| + 2
  {
    hide Run, Wire, TrailersWire, ValidChunks, ValidLast, ValidTrailers, Payload;
    var e2 := e.(trailers := lines);
    WireSplits(e);
    WireSplits(e2);
    assert e2.(trailers := []) == e.(trailers := []);
    PrefixRest(s, Wire(e, false), TrailersWire(lines) + CRLF);
    SentenceCompletes(e2, true, s[|Wire(e2, true)|..]);
  }

  /** What a decoder with trailer handling read is that, and one without stops before it. */
  lemma TrailersBehind(e: Encoding, s: seq<byte>, used: nat)
    requires Valid(e, true) && used <= |s| && Wire(e, true) == s[..used]
    ensures var a := Run(Start(false), s);
            a.Complete? && a.used <= |s| && GoesOnWith(s[a.used..], e.trailers)
  {
    hide Run, Wire, TrailersWire, ValidChunks, ValidLast, ValidTrailers, Payload;
    var e1 := e.(trailers := []);
    NoTrailers();
    WireSplits(e);
    var head, tail := Wire(e1, false), TrailersWire(e.trailers) + CRLF;
    assert s == s[..used] + s[used..];
    PrefixParts(s, head, tail, s[used..]);
    SentenceCompletes(e1, false, tail + s[used..]);
  }

  lemma NoTrailers()
    ensures ValidTrailers([])
  {
  }

  /** The two paths agree exactly on the trailer sections whose lines are header lines that fit:
      for every policy, both succeed if and only if such a section follows the last chunk, and then
      they stop at the same octet with the same payload. A header parser that rejects bare LF never
      succeeds alone; the decoder does, on every other trailer section. */
  lemma TrailerPathsMeet(s: seq<byte>, max: nat, policy: Policy)
    requires Run(Start(false), s).Complete? && Run(Start(false), s).used <= |s|
    ensures var a, b := Run(Start(false), s), Run(Start(true), s);
            var h := HeadSpec.OneShot(HeadersMode, s[a.used..], max, policy);
            && (h.status == Ok && b.Complete? <==>
                  exists lines :: GoesOnWith(s[a.used..], lines) && HeaderLines(lines, 0, max, policy))
            && (h.status == Ok && b.Complete? ==> b.out == a.out && b.used == a.used + h.consumed)
            && (h.status == Ok && policy.rejectBareLf ==> b.Complete?)
            && (b.Complete? && h.status != Ok <==>
                  exists lines :: GoesOnWith(s[a.used..], lines) && !HeaderLines(lines, 0, max, policy))
  {
    hide Run, HeadSpec.ParseBlock, HeaderLines, GoesOnWith;
    var a, b := Run(Start(false), s), Run(Start(true), s);
    var tail := s[a.used..];
    var h := HeadSpec.OneShot(HeadersMode, tail, max, policy);
    DecoderTakesTrailers(s);
    if h.status == Ok && policy.rejectBareLf {
      TrailerPathsAgree(s, max, policy);
    }
    forall lines | GoesOnWith(tail, lines)
      ensures h.status == Ok <==> HeaderLines(lines, 0, max, policy)
      ensures h.status == Ok ==> h.consumed == |TrailersWire(lines)| + 2
    {
      ParserOnTrailers(tail, lines, max, policy);
    }
  }

  lemma ParserOnTrailers(s: seq<byte>, lines: seq<seq<byte>>, max: nat, policy: Policy)
    requires GoesOnWith(s, lines)
    ensures var h := HeadSpec.OneShot(HeadersMode, s, max, policy);
            && (h.status == Ok <==> HeaderLines(lines, 0, max, policy))
            && (h.status == Ok ==> h.consumed == |TrailersWire(lines)| + 2)
  {
    hide HeadSpec.ParseBlock, HeaderLines, TrailersWire, ValidTrailers;
    var wire := TrailersWire(lines) + CRLF;
    assert s[0..0 + |wire|] == wire;
    BlockTakesTrailers(s, 0, lines, [], max, policy);
  }

  // ----- where bare LF is allowed

  /** Every LF in s[from..end] comes behind a CR of s[from..end]. */
  predicate CrBeforeLf(s: seq<byte>, from: nat, end: nat)
    requires from <= end <= |s|
  {
    forall k :: from <= k < end && s[k] == LF ==> from < k && s[k - 1] == CR
  }

  lemma StepStricter(s: seq<byte>, pos: nat, hs: seq<Header>, max: nat, policy: Policy)
    requires pos < |s|
    requires var step := HeadSpec.HeaderStep(s, pos, hs, max, policy);
             (step.Next? || step.status == Ok) && CrBeforeLf(s, pos, step.pos)
    ensures HeadSpec.HeaderStep(s, pos, hs, max, policy.(rejectBareLf := true))
            == HeadSpec.HeaderStep(s, pos, hs, max, policy)
    ensures s[HeadSpec.HeaderStep(s, pos, hs, max, policy).pos - 1] == LF
  {
    hide HeadSpec.FieldStep, HeadSpec.FoldStep;
  }

  /** An accepted block without a bare LF is accepted where bare LF is rejected. */
  lemma {:induction false} BlockStricter(s: seq<byte>, pos: nat, hs: seq<Header>, max: nat, policy: Policy)
    requires pos <= |s|
    requires var b := HeadSpec.ParseBlock(s, pos, hs, max, policy); b.status == Ok && CrBeforeLf(s, pos, b.pos)
    ensures HeadSpec.ParseBlock(s, pos, hs, max, policy.(rejectBareLf := true))
            == HeadSpec.ParseBlock(s, pos, hs, max, policy)
    decreases |s| - pos
  {
    hide HeadSpec.HeaderStep;
    var step := HeadSpec.HeaderStep(s, pos, hs, max, policy);
    StepStricter(s, pos, hs, max, policy);
    if step.Next? {
      BlockStricter(s, step.pos, step.headers, max, policy);
    }
  }

  lemma CrBeforeLfJoins(a: seq<byte>, b: seq<byte>)
    requires CrBeforeLf(a, 0, |a|) && CrBeforeLf(b, 0, |b|)
    ensures CrBeforeLf(a + b, 0, |a + b|)
  {
    var s := a + b;
    assert forall k :: 0 <= k < |a| ==> s[k] == a[k];
    assert forall k :: |a| <= k < |s| ==> s[k] == b[k - |a|];
  }

  lemma {:induction false} TrailersHaveNoBareLf(lines: seq<seq<byte>>)
    requires ValidTrailers(lines)
    ensures var t := TrailersWire(lines) + CRLF; CrBeforeLf(t, 0, |t|)
    decreases |lines|
  {
    if lines == [] {
      assert [] + CRLF == CRLF;
    } else {
      TrailersFront(lines);
      hide TrailersWire;
      var line, rest := lines[0], TrailersWire(lines[1..]) + CRLF;
      TrailersHaveNoBareLf(lines[1..]);
      CrBeforeLfJoins(line, CRLF);
      CrBeforeLfJoins(line + CRLF, rest);
      assert TrailersWire(lines) + CRLF == line + CRLF + rest;
    }
  }

  /** When the header parser accepts the trailer section, the decoder completes too exactly when
      no octet that the parser consumed is a bare LF. */
  lemma DecoderFollowsParser(s: seq<byte>, max: nat, policy: Policy)
    requires Run(Start(false), s).Complete? && Run(Start(false), s).used <= |s|
    requires HeadSpec.OneShot(HeadersMode, s[Run(Start(false), s).used..], max, policy).status == Ok
    ensures var tail := s[Run(Start(false), s).used..];
            var n := HeadSpec.OneShot(HeadersMode, tail, max, policy).consumed;
            n <= |tail| && (Run(Start(true), s).Complete? <==> CrBeforeLf(tail, 0, n))
  {
    hide Run, HeadSpec.ParseBlock, GoesOnWith, HeaderLines, CrBeforeLf, TrailersWire, ValidTrailers;
    var tail := s[Run(Start(false), s).used..];
    var n := HeadSpec.OneShot(HeadersMode, tail, max, policy).consumed;
    DecoderTakesTrailers(s);
    if CrBeforeLf(tail, 0, n) {
      BlockStricter(tail, 0, [], max, policy);
      TrailerPathsAgree(s, max, policy.(rejectBareLf := true));
    }
    forall lines | GoesOnWith(tail, lines)
      ensures CrBeforeLf(tail, 0, n)
    {
      ParserOnTrailers(tail, lines, max, policy);
      SectionHasNoBareLf(tail, lines, n);
    }
  }

  lemma SectionHasNoBareLf(s: seq<byte>, lines: seq<seq<byte>>, n: nat)
    requires GoesOnWith(s, lines) && n == |TrailersWire(lines)| + 2
    ensures n <= |s| && CrBeforeLf(s, 0, n)
  {
    hide TrailersWire, ValidTrailers;
    TrailersHaveNoBareLf(lines);
    var t := TrailersWire(lines) + CRLF;
    assert forall k :: 0 <= k < n ==> s[k] == t[k];
  }

  // ----- where they differ

  lemma NoColonIsMalformed(s: seq<byte>, line: seq<byte>, max: nat, policy: Policy)
    requires line != [] && NoCrLf(line) && |line| <= MAX_HEADER_LINE && !IsLws(line[0])
    requires Find(line, 0, |line|, COLON) == |line| && HeadPrint.Carries(s, 0, line + CRLF)
    ensures HeadSpec.OneShot(HeadersMode, s, max, policy).status == Error
  {
    hide HeadSpec.HeaderStep, HeadPrint.Carries, Find;
    NoColonHeaderStep(s, line, max, policy);
  }

  lemma NoColonHeaderStep(s: seq<byte>, line: seq<byte>, max: nat, policy: Policy)
    requires line != [] && NoCrLf(line) && |line| <= MAX_HEADER_LINE && !IsLws(line[0])
    requires Find(line, 0, |line|, COLON) == |line| && HeadPrint.Carries(s, 0, line + CRLF)
    ensures s != [] && HeadSpec.HeaderStep(s, 0, [], max, policy) == HeadSpec.Stop(Error, 0, [])
  {
    hide HeadSpec.LineAt, HeadSpec.FieldStep, HeadPrint.Carries, Find;
    HeadPrint.PrintedLine(s, 0, line, policy);
    NoColonStep(line, 0, |line| + 2, [], max);
    assert s[0] == s[0..0 + |line|][0];
  }

  lemma NoColonStep(line: seq<byte>, pos: nat, next: nat, hs: seq<Header>, max: nat)
    requires Find(line, 0, |line|, COLON) == |line|
    ensures HeadSpec.FieldStep(line, pos, next, hs, max) == HeadSpec.Stop(Error, pos, hs)
  {
  }

  /** The decoder skips trailer lines without looking for a colon; the header parser refuses every
      line that has none. */
  lemma DecoderSkipsMore(line: seq<byte>, rest: seq<byte>, max: nat, policy: Policy)
    requires line != [] && NoCrLf(line) && |line| <= MAX_HEADER_LINE && !IsLws(line[0])
    requires Find(line, 0, |line|, COLON) == |line|
    ensures var s := EMPTY_BODY + (line + CRLF + (CRLF + rest));
            && Run(Start(false), s).Complete? && Run(Start(false), s).used == 3
            && Run(Start(true), s).Complete? && Run(Start(true), s).used == 3 + |line| + 4
            && HeadSpec.OneShot(HeadersMode, s[3..], max, policy).status == Error
  {
    hide Run, HeadSpec.OneShot, NoCrLf, Wire;
    var tail := line + CRLF + (CRLF + rest);
    var s := EMPTY_BODY + tail;
    var e := EmptyBody([line]);
    var e1 := EmptyBody([]);
    SentenceCompletes(e1, false, tail);
    WireSplits(e);
    assert TrailersWire([line]) == TrailersWire([]) + line + CRLF;
    assert s == Wire(e, true) + rest;
    SentenceCompletes(e, true, rest);
    assert s[3..] == tail;
    assert tail[0..0 + |line + CRLF|] == line + CRLF;
    NoColonIsMalformed(tail, line, max, policy);
  }

  /** Where bare LF is allowed the header parser can succeed alone: on an empty line that ends in
      a bare LF, whatever follows. */
  lemma ParserTakesBareLf(rest: seq<byte>, max: nat, policy: Policy)
    requires !policy.rejectBareLf
    ensures var s: seq<byte> := EMPTY_BODY + ([LF] + rest);
            && Run(Start(false), s).Complete? && Run(Start(false), s).used == 3
            && HeadSpec.OneShot(HeadersMode, s[3..], max, policy).status == Ok
            && Run(Start(true), s).Bad?
  {
    hide Run;
    var tail: seq<byte> := [LF] + rest;
    var e := EmptyBody([]);
    SentenceCompletes(e, false, tail);
    assert (EMPTY_BODY + tail)[3..] == tail;
    assert Find(tail, 0, |tail|, LF) == 0;
    var d := RunToTrailer(e);
    RunSplit(Start(true), EMPTY_BODY, tail);
    RunStops(d, tail);
  }
}
