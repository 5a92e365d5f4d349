/** What a start line is, letter by letter, and with the header block behind it what a head is: the
    parser accepts exactly these octets, with exactly these parts. */
module StartGrammar {
  import opened Bytes
  import opened Types
  import opened Spelling
  import opened HeadSpec
  import opened HeadSpans
  import opened HeadGrammar

  // ----- methods

  function MethodName(m: Method): string {
    match m
    case Get => "GET"
    case Post => "POST"
    case Put => "PUT"
    case Delete => "DELETE"
    case Head => "HEAD"
    case Options => "OPTIONS"
    case Patch => "PATCH"
    case Connect => "CONNECT"
    case Trace => "TRACE"
    case Unknown => "UNKNOWN"
  }

  /** The octets name the method; Unknown is every token that names no other. */
  ghost predicate Names(t: seq<byte>, m: Method) {
    if m == Unknown then forall other: Method :: other != Unknown ==> t != Ascii(MethodName(other))
    else t == Ascii(MethodName(m))
  }

  lemma MethodsSpelled()
    ensures GET == Ascii("GET") && PUT == Ascii("PUT") && POST == Ascii("POST") && HEAD == Ascii("HEAD")
    ensures PATCH == Ascii("PATCH") && TRACE == Ascii("TRACE") && DELETE == Ascii("DELETE")
    ensures OPTIONS == Ascii("OPTIONS") && CONNECT == Ascii("CONNECT")
  {
  }

  /** The lookup undoes the names. */
  lemma MethodLookup(t: seq<byte>, m: Method)
    ensures MethodFromBytes(t) == m <==> Names(t, m)
  {
    hide Ascii;
    MethodsSpelled();
    NamesDiffer();
    if m == Unknown && Names(t, m) {
      var other := MethodFromBytes(t);
      assert other != Unknown ==> t != Ascii(MethodName(other));
    }
  }

  lemma NamesDiffer()
    ensures GET != PUT && |GET| == |PUT| == 3 && POST != HEAD && |POST| == |HEAD| == 4
    ensures PATCH != TRACE && |PATCH| == |TRACE| == 5 && |DELETE| == 6
    ensures OPTIONS != CONNECT && |OPTIONS| == |CONNECT| == 7
  {
    assert GET[0] != PUT[0] && POST[0] != HEAD[0] && PATCH[0] != TRACE[0] && OPTIONS[0] != CONNECT[0];
  }

  function VersionName(v: Version): string {
    match v
    case Http11 => "HTTP/1.1"
    case Http10 => "HTTP/1.0"
  }

  // ----- request lines

  /** Method, SP, target, SP, version: the spans, the method they name, and the line ending. */
  ghost predicate RequestLineIs(s: seq<byte>, line: StartLine, end: nat, policy: Policy) {
    && line.RequestLine?
    && line.methodStr == 0 && 0 < line.methodLen && line.path == line.methodLen + 1 && 0 < line.pathLen
    && var version := line.path + line.pathLen + 1;
    && Ends(s, 0, version + 8, end, policy)
    && AllToken(s, 0, line.methodLen) && Names(s[..line.methodLen], line.verb)
    && s[line.methodLen] == 32 && s[version - 1] == 32
    && (forall k :: line.path <= k < version - 1 ==>
                      (32 < s[k] && s[k] != 127) || (s[k] == 32 && policy.allowSpacesInUri))
    && s[version..version + 8] == Ascii(VersionName(line.version))
  }

  lemma VersionSpelled(t: seq<byte>, v: Version)
    requires |t| == 8
    ensures t == Ascii(VersionName(v)) <==> t[..7] == HTTP_1 && t[7] == if v == Http11 then 49 else 48
  {
    var name := Ascii(VersionName(v));
    assert name[..7] == HTTP_1;
    assert name[7] == if v == Http11 then 49 else 48;
    assert t == t[..7] + [t[7]] && name == name[..7] + [name[7]];
  }

  lemma NoSpaceInVersion(text: seq<byte>, version: nat)
    requires version + 8 == |text| && text[version..version + 7] == HTTP_1 && text[version + 7] != SP
    ensures forall k :: version <= k < |text| ==> text[k] != SP
  {
    forall k | version <= k < version + 7
      ensures text[k] != SP
    {
      assert text[k] == HTTP_1[k - version];
    }
  }

  lemma SpacesFound(text: seq<byte>, m: nat, version: nat)
    requires 0 < m < version - 1 && version + 8 == |text|
    requires AllToken(text, 0, m) && text[m] == SP && text[version - 1] == SP
    requires forall k :: version <= k < |text| ==> text[k] != SP
    ensures Find(text, 0, |text|, SP) == m && FindLast(text, m + 1, |text|, SP) == version
  {
  }

  /** On a text of that form the parts are found. */
  lemma RequestTextParsed(text: seq<byte>, line: StartLine, policy: Policy)
    requires line.RequestLine?
    requires line.methodStr == 0 && 0 < line.methodLen && line.path == line.methodLen + 1 && 0 < line.pathLen
    requires var version := line.path + line.pathLen + 1;
             && |text| == version + 8
             && AllToken(text, 0, line.methodLen) && text[line.methodLen] == SP && text[version - 1] == SP
             && AllTarget(text, line.path, version - 1, policy.allowSpacesInUri)
             && text[version..version + 7] == HTTP_1
             && text[version + 7] == if line.version == Http11 then 49 else 48
    ensures RequestLineOf(text, 0, policy) == line.(verb := MethodFromBytes(text[..line.methodLen]))
  {
    hide AllToken, AllTarget, MethodFromBytes;
    var version := line.path + line.pathLen + 1;
    NoSpaceInVersion(text, version);
    SpacesFound(text, line.methodLen, version);
  }

  lemma LineOfText(s: seq<byte>, brk: nat, end: nat, policy: Policy)
    requires Ends(s, 0, brk, end, policy) && forall k :: 0 <= k < brk ==> s[k] != LF && s[k] != CR
    ensures LineAt(s, 0, policy) == Line(brk, end - brk) && s[0..brk] == s[..brk]
  {
    LineIs(s, 0, brk, end, policy);
  }

  lemma RequestLineIsRead(s: seq<byte>, line: StartLine, end: nat, policy: Policy)
    requires RequestLineIs(s, line, end, policy)
    ensures ParseRequestLine(s, 0, policy) == StartResult(Ok, line, end)
  {
    hide RequestLineOf, MethodFromBytes, Names, LineAt, Ends;
    var version := line.path + line.pathLen + 1;
    EndsInside(s, 0, version + 8, end, policy);
    var text := s[0..version + 8];
    RequestOctets(s, line, end, policy);
    RequestParts(s, line, end, policy);
    LineOfText(s, version + 8, end, policy);
    VersionSpelled(s[version..version + 8], line.version);
    RequestTextParsed(text, line, policy);
    assert text[..line.methodLen] == s[..line.methodLen];
    MethodLookup(s[..line.methodLen], line.verb);
  }

  lemma EndsInside(s: seq<byte>, from: nat, brk: nat, end: nat, policy: Policy)
    requires Ends(s, from, brk, end, policy)
    ensures brk < end <= |s| && brk <= from + 8192
  {
  }

  lemma VersionOctets(s: seq<byte>, version: nat, v: Version)
    requires version + 8 <= |s| && s[version..version + 8] == Ascii(VersionName(v))
    ensures s[version..version + 7] == HTTP_1 && s[version + 7] == if v == Http11 then 49 else 48
    ensures forall k :: version <= k < version + 8 ==> s[k] != LF && s[k] != CR
  {
    hide Ascii;
    var name := s[version..version + 8];
    VersionSpelled(name, v);
    assert s[version..version + 7] == name[..7] && s[version + 7] == name[7];
    forall k | version <= k < version + 7
      ensures s[k] != LF && s[k] != CR
    {
      assert s[k] == HTTP_1[k - version];
    }
  }

  /** The line holds no CR or LF. */
  lemma RequestOctets(s: seq<byte>, line: StartLine, end: nat, policy: Policy)
    requires RequestLineIs(s, line, end, policy)
    ensures var version := line.path + line.pathLen + 1;
            version + 8 <= |s| && forall k :: 0 <= k < version + 8 ==> s[k] != LF && s[k] != CR
  {
    hide Names, Ends, Ascii;
    var version := line.path + line.pathLen + 1;
    EndsInside(s, 0, version + 8, end, policy);
    VersionOctets(s, version, line.version);
    assert forall k :: 0 <= k < line.methodLen ==> IsTokenChar(s[k]);
  }

  /** The parts lie in the text as they lie in the buffer. */
  lemma RequestParts(s: seq<byte>, line: StartLine, end: nat, policy: Policy)
    requires RequestLineIs(s, line, end, policy) && line.path + line.pathLen + 9 <= |s|
    ensures var version := line.path + line.pathLen + 1;
            var text := s[0..version + 8];
            && AllToken(text, 0, line.methodLen) && text[line.methodLen] == SP && text[version - 1] == SP
            && AllTarget(text, line.path, version - 1, policy.allowSpacesInUri)
            && text[version..version + 7] == HTTP_1
            && text[version + 7] == if line.version == Http11 then 49 else 48
  {
    hide Names, Ends, Ascii;
    var version := line.path + line.pathLen + 1;
    VersionOctets(s, version, line.version);
    var text := s[0..version + 8];
    assert text[version..version + 7] == s[version..version + 7];
    assert forall k :: 0 <= k < version + 8 ==> text[k] == s[k];
  }

  lemma RequestLineIsThere(s: seq<byte>, policy: Policy)
    requires ParseRequestLine(s, 0, policy).status == Ok
    ensures var r := ParseRequestLine(s, 0, policy); RequestLineIs(s, r.line, r.end, policy)
  {
    hide RequestLineOf, Names, MethodFromBytes, LineAt;
    RequestLineFills(s, policy);
    var r := ParseRequestLine(s, 0, policy);
    var version := r.line.path + r.line.pathLen + 1;
    VerbOfLine(s, policy);
    MethodLookup(s[..r.line.methodLen], r.line.verb);
    VersionSpelled(s[version..version + 8], r.line.version);
    assert s[version..version + 8][..7] == HTTP_1;
    BareLfRefused(s, 0, policy);
  }

  /** Under a policy that rejects bare LF every found line ends in CRLF. */
  lemma BareLfRefused(s: seq<byte>, pos: nat, policy: Policy)
    requires pos <= |s|
    ensures LineAt(s, pos, policy).Line? && policy.rejectBareLf ==> LineAt(s, pos, policy).eol == 2
  {
  }

  lemma VerbOfLine(s: seq<byte>, policy: Policy)
    requires ParseRequestLine(s, 0, policy).status == Ok
    ensures var r := ParseRequestLine(s, 0, policy);
            && r.line.RequestLine? && r.line.methodLen <= |s|
            && r.line.verb == MethodFromBytes(s[..r.line.methodLen])
            && LineAt(s, 0, policy).Line? && r.end == LineAt(s, 0, policy).len + LineAt(s, 0, policy).eol
            && LineAt(s, 0, policy).len == r.line.path + r.line.pathLen + 9
  {
    hide AllToken, AllTarget, MethodFromBytes;
    var l := LineAt(s, 0, policy);
    var text := s[0..l.len];
    var r := ParseRequestLine(s, 0, policy);
    assert text[..r.line.methodLen] == s[..r.line.methodLen];
  }

  /** The request line, exactly: which lines are accepted with which parts and verb, and which are
      too long or unfinished; all others are malformed. */
  lemma RequestLineExactly(s: seq<byte>, policy: Policy)
    ensures forall line, end :: ParseRequestLine(s, 0, policy) == StartResult(Ok, line, end)
                                <==> RequestLineIs(s, line, end, policy)
    ensures var status := ParseRequestLine(s, 0, policy).status;
            && (status == Ok <==> exists line, end :: RequestLineIs(s, line, end, policy))
            && (status == Incomplete <==> |s| <= 8192 && forall k :: 0 <= k < |s| ==> s[k] != LF)
            && (status == TooLong <==>
                  || (|s| > 8192 && forall k :: 0 <= k < |s| ==> s[k] != LF)
                  || (exists lf: nat :: FirstLf(s, 0, lf) && LongLine(s, lf, policy)))
            && status != TooManyHeaders
  {
    hide RequestLineIs;
    forall line, end
      ensures ParseRequestLine(s, 0, policy) == StartResult(Ok, line, end) <==> RequestLineIs(s, line, end, policy)
    {
      if RequestLineIs(s, line, end, policy) {
        RequestLineIsRead(s, line, end, policy);
      }
      if ParseRequestLine(s, 0, policy) == StartResult(Ok, line, end) {
        RequestLineIsThere(s, policy);
      }
    }
    OkHasParts(s, policy);
    RequestLineLengths(s, policy);
  }

  /** The line that ends in the LF at lf has an allowed ending and more than the limit of octets. */
  predicate LongLine(s: seq<byte>, lf: nat, policy: Policy)
    requires lf < |s|
  {
    if 0 < lf && s[lf - 1] == CR then lf - 1 > 8192 else !policy.rejectBareLf && lf > 8192
  }

  lemma OkHasParts(s: seq<byte>, policy: Policy)
    ensures ParseRequestLine(s, 0, policy).status == Ok ==>
              var r := ParseRequestLine(s, 0, policy); r == StartResult(Ok, r.line, r.end)
  {
  }

  lemma RequestLineLengths(s: seq<byte>, policy: Policy)
    ensures var status := ParseRequestLine(s, 0, policy).status;
            && (status == Incomplete <==> |s| <= 8192 && forall k :: 0 <= k < |s| ==> s[k] != LF)
            && (status == TooLong <==>
                  || (|s| > 8192 && forall k :: 0 <= k < |s| ==> s[k] != LF)
                  || (exists lf: nat :: FirstLf(s, 0, lf) && LongLine(s, lf, policy)))
  {
    hide RequestLineOf, LineAt;
    LineAtCases(s, 0, policy);
    if exists k :: 0 <= k < |s| && s[k] == LF {
      var lf := FirstLfExists(s, 0);
      LineAtFirstLf(s, 0, lf, policy);
      FirstLfIsUnique(s, 0, lf);
    }
  }

  // ----- status lines

  /** Version, SP, three digits, SP, reason: a code from 100 to 599, its decimal digits, and the
      line ending; there is no limit. */
  ghost predicate StatusLineIs(s: seq<byte>, line: StartLine, end: nat, policy: Policy) {
    && line.StatusLine? && line.reason == 13
    && var brk := 13 + line.reasonLen;
    && LineEnding(s, brk, end) && (policy.rejectBareLf ==> end == brk + 2)
    && s[..8] == Ascii(VersionName(line.version)) && s[8] == 32 && s[12] == 32
    && 100 <= line.code <= 599
    && s[9] == Ascii(DIGITS)[line.code / 100] && s[10] == Ascii(DIGITS)[line.code / 10 % 10]
    && s[11] == Ascii(DIGITS)[line.code % 10]
    && forall k :: 13 <= k < brk ==> s[k] == 9 || (32 <= s[k] && s[k] != 127)
  }

  lemma DigitIs(a: byte, d: nat)
    requires d < 10
    ensures a == Ascii(DIGITS)[d] <==> IsDigit(a) && Digit(a) == d
  {
    DigitAt(d);
  }

  lemma ThreeDigits(x: int, y: int, z: int, code: int)
    requires 0 <= x < 10 && 0 <= y < 10 && 0 <= z < 10 && 100 <= code <= 599
    ensures x == code / 100 && y == code / 10 % 10 && z == code % 10 <==> x * 100 + y * 10 + z == code
  {
    if x * 100 + y * 10 + z == code {
      assert code / 10 == x * 10 + y;
    }
  }

  lemma CodeDigits(a: byte, b: byte, c: byte, code: int)
    requires 100 <= code <= 599
    ensures a == Ascii(DIGITS)[code / 100] && b == Ascii(DIGITS)[code / 10 % 10] && c == Ascii(DIGITS)[code % 10]
            <==> IsDigit(a) && IsDigit(b) && IsDigit(c) && Digit(a) * 100 + Digit(b) * 10 + Digit(c) == code
  {
    hide Ascii;
    DigitIs(a, code / 100);
    DigitIs(b, code / 10 % 10);
    DigitIs(c, code % 10);
    if IsDigit(a) && IsDigit(b) && IsDigit(c) {
      ThreeDigits(Digit(a), Digit(b), Digit(c), code);
    }
  }

  lemma StatusLineIsRead(s: seq<byte>, line: StartLine, end: nat, policy: Policy)
    requires StatusLineIs(s, line, end, policy)
    ensures ParseStatusLine(s, 0, policy) == StartResult(Ok, line, end)
  {
    var brk := 13 + line.reasonLen;
    var text := s[0..brk];
    CodeDigits(s[9], s[10], s[11], line.code);
    VersionSpelled(s[..8], line.version);
    StatusOctets(s, line, end, policy);
    StatusLineAt(s, brk, end, policy);
    hide LineAt;
    assert text[..7] == s[..8][..7] && text[7] == s[..8][7];
    assert AllText(text, 13, |text|);
  }

  lemma StatusLineAt(s: seq<byte>, brk: nat, end: nat, policy: Policy)
    requires LineEnding(s, brk, end) && (policy.rejectBareLf ==> end == brk + 2)
    requires forall k :: 0 <= k < brk ==> s[k] != LF && s[k] != CR
    ensures LineAt(s, 0, policy) == Line(brk, end - brk)
  {
    LineAtCases(s, 0, policy);
  }

  lemma StatusOctets(s: seq<byte>, line: StartLine, end: nat, policy: Policy)
    requires StatusLineIs(s, line, end, policy)
    ensures 13 + line.reasonLen < end <= |s|
    ensures forall k :: 0 <= k < 13 + line.reasonLen ==> s[k] != LF && s[k] != CR
  {
    CodeDigits(s[9], s[10], s[11], line.code);
    VersionSpelled(s[..8], line.version);
    assert forall k :: 0 <= k < 7 ==> s[k] == s[..8][..7][k];
    assert s[7] == s[..8][7];
  }

  lemma StatusLineIsThere(s: seq<byte>, policy: Policy)
    requires ParseStatusLine(s, 0, policy).status == Ok
    ensures var r := ParseStatusLine(s, 0, policy); StatusLineIs(s, r.line, r.end, policy)
  {
    StatusLineFills(s, policy);
    var r := ParseStatusLine(s, 0, policy);
    CodeDigits(s[9], s[10], s[11], r.line.code);
    VersionSpelled(s[..8], r.line.version);
    assert s[..8][..7] == HTTP_1;
    BareLfRefused(s, 0, policy);
    StatusLengths(s, policy);
    hide LineAt, StatusLineOf;
  }

  lemma StatusLengths(s: seq<byte>, policy: Policy)
    requires ParseStatusLine(s, 0, policy).status == Ok
    ensures var r := ParseStatusLine(s, 0, policy);
            LineAt(s, 0, policy).Line? && LineAt(s, 0, policy).len == 13 + r.line.reasonLen
            && r.end == LineAt(s, 0, policy).len + LineAt(s, 0, policy).eol
  {
  }

  /** The status line, exactly. */
  lemma StatusLineExactly(s: seq<byte>, policy: Policy)
    ensures forall line, end :: ParseStatusLine(s, 0, policy) == StartResult(Ok, line, end)
                                <==> StatusLineIs(s, line, end, policy)
    ensures var status := ParseStatusLine(s, 0, policy).status;
            && (status == Ok <==> exists line, end :: StatusLineIs(s, line, end, policy))
            && (status == Incomplete <==> forall k :: 0 <= k < |s| ==> s[k] != LF)
            && status != TooLong && status != TooManyHeaders
  {
    hide StatusLineIs;
    forall line, end
      ensures ParseStatusLine(s, 0, policy) == StartResult(Ok, line, end) <==> StatusLineIs(s, line, end, policy)
    {
      if StatusLineIs(s, line, end, policy) {
        StatusLineIsRead(s, line, end, policy);
      }
      if ParseStatusLine(s, 0, policy) == StartResult(Ok, line, end) {
        StatusLineIsThere(s, policy);
      }
    }
    StatusLineWaits(s, policy);
  }

  lemma StatusLineWaits(s: seq<byte>, policy: Policy)
    ensures var r := ParseStatusLine(s, 0, policy);
            && (r.status == Ok ==> r == StartResult(Ok, r.line, r.end))
            && (r.status == Incomplete <==> forall k :: 0 <= k < |s| ==> s[k] != LF)
  {
    hide StatusLineOf, LineAt;
    LineAtCases(s, 0, policy);
  }

  // ----- whole heads

  /** s begins with a start line of the kind, which ends at end. */
  ghost predicate StartIs(mode: Mode, s: seq<byte>, line: StartLine, end: nat, policy: Policy) {
    match mode
    case RequestMode => RequestLineIs(s, line, end, policy)
    case ResponseMode => StatusLineIs(s, line, end, policy)
    case HeadersMode => line == NoStartLine && end == 0
  }

  /** s begins with a head of these parts that ends at end. */
  ghost predicate HeadIs(mode: Mode, s: seq<byte>, line: StartLine, hs: seq<Header>, end: nat, max: nat,
                         policy: Policy) {
    exists first: nat, p: nat ::
      StartIs(mode, s, line, first, policy) && BlockIs(s, first, p, Block(Ok, end, hs), max, policy)
  }

  lemma StartExactly(mode: Mode, s: seq<byte>, line: StartLine, end: nat, policy: Policy)
    requires mode != HeadersMode
    ensures ParseStartLine(mode, s, 0, policy) == StartResult(Ok, line, end) <==> StartIs(mode, s, line, end, policy)
  {
    hide ParseRequestLine, ParseStatusLine, RequestLineIs, StatusLineIs;
    RequestLineExactly(s, policy);
    StatusLineExactly(s, policy);
  }

  /** A head is accepted, with these parts and this length, if and only if the octets begin with
      that head: in every mode, under every policy and for every capacity. */
  lemma HeadExactly(mode: Mode, s: seq<byte>, line: StartLine, hs: seq<Header>, end: nat, max: nat, policy: Policy)
    ensures OneShot(mode, s, max, policy) == Outcome(Ok, HeadState(Done, end, line, hs), end)
            <==> HeadIs(mode, s, line, hs, end, max, policy)
  {
    hide ParseStartLine, ParseBlock, StartIs, BlockIs;
    if mode == HeadersMode {
      NoStart(s, policy);
      BlockExactly(s, 0, Block(Ok, end, hs), max, policy);
      HeadersHead(s, line, hs, end, max, policy);
    } else {
      if OneShot(mode, s, max, policy) == Outcome(Ok, HeadState(Done, end, line, hs), end) {
        var r := ParseStartLine(mode, s, 0, policy);
        StartExactly(mode, s, r.line, r.end, policy);
        StartKeepsParts(mode, s, policy);
        BlockExactly(s, r.end, Block(Ok, end, hs), max, policy);
      }
      forall first: nat, p: nat | StartIs(mode, s, line, first, policy)
                                  && BlockIs(s, first, p, Block(Ok, end, hs), max, policy)
        ensures OneShot(mode, s, max, policy) == Outcome(Ok, HeadState(Done, end, line, hs), end)
      {
        StartExactly(mode, s, line, first, policy);
        BlockExactly(s, first, Block(Ok, end, hs), max, policy);
      }
    }
  }

  lemma StartKeepsParts(mode: Mode, s: seq<byte>, policy: Policy)
    ensures var r := ParseStartLine(mode, s, 0, policy); r.status == Ok ==> r == StartResult(Ok, r.line, r.end)
  {
  }

  lemma NoStart(s: seq<byte>, policy: Policy)
    ensures forall line, end :: StartIs(HeadersMode, s, line, end, policy) <==> line == NoStartLine && end == 0
  {
  }

  lemma HeadersHead(s: seq<byte>, line: StartLine, hs: seq<Header>, end: nat, max: nat, policy: Policy)
    ensures OneShot(HeadersMode, s, max, policy) == Outcome(Ok, HeadState(Done, end, line, hs), end)
            <==> line == NoStartLine && ParseBlock(s, 0, [], max, policy) == Block(Ok, end, hs)
  {
    hide ParseBlock;
  }

  /** A head is not accepted for exactly the reason that its octets give: the start line's, or, behind
      a start line, that of the line at which the header block stops. */
  lemma RefusalExactly(mode: Mode, s: seq<byte>, max: nat, policy: Policy, status: Status)
    requires status != Ok && mode != HeadersMode
    ensures OneShot(mode, s, max, policy).status == status
            <==> || ParseStartLine(mode, s, 0, policy).status == status
                 || (exists line, first: nat, p: nat, b: Block ::
                       && StartIs(mode, s, line, first, policy) && BlockIs(s, first, p, b, max, policy)
                       && b.status == status)
  {
    hide ParseStartLine, ParseBlock, StartIs, BlockIs;
    var r := ParseStartLine(mode, s, 0, policy);
    StartKeepsParts(mode, s, policy);
    if r.status == Ok {
      StartExactly(mode, s, r.line, r.end, policy);
      var b := ParseBlock(s, r.end, [], max, policy);
      BlockExactly(s, r.end, b, max, policy);
    }
    forall line, first: nat, p: nat, b: Block | StartIs(mode, s, line, first, policy)
                                                && BlockIs(s, first, p, b, max, policy)
      ensures OneShot(mode, s, max, policy).status == b.status
    {
      StartExactly(mode, s, line, first, policy);
      BlockExactly(s, first, b, max, policy);
    }
  }

  /** The same for all parts at once. */
  lemma AcceptedExactly(mode: Mode, s: seq<byte>, max: nat, policy: Policy)
    ensures var o := OneShot(mode, s, max, policy);
            forall line, hs, end ::
              HeadIs(mode, s, line, hs, end, max, policy)
              <==> o.status == Ok && line == o.state.line && hs == o.state.headers && end == o.consumed
  {
    hide OneShot, HeadIs;
    var o := OneShot(mode, s, max, policy);
    OkIsDone(mode, s, max, policy);
    forall line, hs, end
      ensures HeadIs(mode, s, line, hs, end, max, policy)
              <==> o.status == Ok && line == o.state.line && hs == o.state.headers && end == o.consumed
    {
      HeadExactly(mode, s, line, hs, end, max, policy);
    }
  }

  lemma OkIsDone(mode: Mode, s: seq<byte>, max: nat, policy: Policy)
    ensures var o := OneShot(mode, s, max, policy);
            o.status == Ok ==>
              o == Outcome(Ok, HeadState(Done, o.consumed, o.state.line, o.state.headers), o.consumed)
  {
    hide Advance;
  }

  /** A start line, max fields, and one more named line. */
  ghost predicate OverfullHead(mode: Mode, s: seq<byte>, max: nat, policy: Policy) {
    exists line, first: nat, p: nat, hs ::
      && StartIs(mode, s, line, first, policy) && |hs| == max
      && Section(s, first, p, hs, policy) && NamedLine(s, p, policy)
  }

  /** Too many headers in a head, exactly. */
  lemma TooManyInHead(mode: Mode, s: seq<byte>, max: nat, policy: Policy)
    ensures OneShot(mode, s, max, policy).status == TooManyHeaders <==> OverfullHead(mode, s, max, policy)
  {
    hide ParseStartLine, ParseBlock, StartIs, Section, NamedLine;
    NoTooManyAtStart(mode, s, policy);
    StartKeepsParts(mode, s, policy);
    NoStart(s, policy);
    if mode == HeadersMode {
      TooManyExactly(s, 0, max, policy);
      assert StartIs(mode, s, NoStartLine, 0, policy);
      HeadersStatus(s, max, policy);
    } else {
      var r := ParseStartLine(mode, s, 0, policy);
      if r.status == Ok {
        StartExactly(mode, s, r.line, r.end, policy);
        TooManyExactly(s, r.end, max, policy);
      }
      forall line, first: nat | StartIs(mode, s, line, first, policy)
        ensures r == StartResult(Ok, line, first)
      {
        StartExactly(mode, s, line, first, policy);
      }
    }
  }

  lemma HeadersStatus(s: seq<byte>, max: nat, policy: Policy)
    ensures OneShot(HeadersMode, s, max, policy).status == ParseBlock(s, 0, [], max, policy).status
  {
    hide ParseBlock;
  }

  lemma NoTooManyAtStart(mode: Mode, s: seq<byte>, policy: Policy)
    ensures ParseStartLine(mode, s, 0, policy).status != TooManyHeaders
  {
  }
}
