/** The canonical serialisation of a head, and why parsing undoes it. */
module HeadPrint {
  import opened Bytes
  import opened Types
  import opened HeadSpec
  import opened HeadPolicy
  import opened HeadSpans

  /** The start line as strings. */
  datatype Start =
    | RequestStart(verb: seq<byte>, target: seq<byte>, version: Version)
    | StatusStart(version: Version, code: int, reason: seq<byte>)

  predicate Token(t: seq<byte>) {
    t != [] && AllToken(t, 0, |t|)
  }

  predicate Trimmed(v: seq<byte>) {
    v != [] ==> !IsLws(v[0]) && !IsLws(v[|v| - 1])
  }

  /** A token for a name, trimmed text for a value. */
  predicate Shapely(f: Field) {
    Token(f.name) && AllText(f.value, 0, |f.value|) && Trimmed(f.value)
  }

  /** Its canonical line keeps the limit. */
  predicate Fits(f: Field) {
    |f.name| + 2 + |f.value| <= MAX_HEADER_LINE
  }

  predicate ValidField(f: Field) {
    Shapely(f) && Fits(f)
  }

  predicate ValidFields(fs: seq<Field>) {
    forall k :: 0 <= k < |fs| ==> ValidField(fs[k])
  }

  predicate ValidStart(st: Start) {
    match st
    case RequestStart(verb, target, _) =>
      && Token(verb) && target != [] && AllTarget(target, 0, |target|, false)
      && |verb| + |target| + 10 <= MAX_REQUEST_LINE
    case StatusStart(_, code, reason) =>
      100 <= code <= 599 && AllText(reason, 0, |reason|)
  }

  function VersionByte(v: Version): byte {
    if v == Http11 then 49 else 48
  }

  function FieldTextOf(f: Field): seq<byte> {
    f.name + [COLON, SP] + f.value
  }

  function StartTextOf(st: Start): seq<byte>
    requires ValidStart(st)
  {
    match st
    case RequestStart(verb, target, version) =>
      verb + [SP] + target + [SP] + HTTP_1 + [VersionByte(version)]
    case StatusStart(version, code, reason) =>
      HTTP_1 + [VersionByte(version), SP, 48 + code / 100, 48 + code / 10 % 10, 48 + code % 10, SP] + reason
  }

  function PrintFields(fs: seq<Field>): seq<byte> {
    if fs == [] then [] else FieldTextOf(fs[0]) + CRLF + PrintFields(fs[1..])
  }

  function PrintHead(st: Start, fs: seq<Field>): seq<byte>
    requires ValidStart(st)
  {
    StartTextOf(st) + CRLF + PrintFields(fs) + CRLF
  }

  function ModeOf(st: Start): Mode {
    if st.RequestStart? then RequestMode else ResponseMode
  }

  // ----- reading spans back

  predicate Inside(s: seq<byte>, h: Header) {
    h.name + h.nameLen <= |s| && 0 <= h.valueLen && h.value + h.valueLen <= |s|
  }

  function FieldAt(s: seq<byte>, h: Header): Field {
    if Inside(s, h) then Field(s[h.name..h.name + h.nameLen], s[h.value..h.value + h.valueLen])
    else Field([], [])
  }

  function FieldsAt(s: seq<byte>, hs: seq<Header>): (fs: seq<Field>)
    ensures |fs| == |hs|
    ensures forall k :: 0 <= k < |hs| ==> fs[k] == FieldAt(s, hs[k])
  {
    seq(|hs|, k requires 0 <= k < |hs| => FieldAt(s, hs[k]))
  }

  predicate LineInside(s: seq<byte>, line: StartLine) {
    match line
    case RequestLine(_, m, ml, p, pl, _) => m + ml <= |s| && p + pl <= |s|
    case StatusLine(_, _, r, rl) => r + rl <= |s|
    case NoStartLine => false
  }

  function StartAt(s: seq<byte>, line: StartLine): Start
    requires LineInside(s, line)
  {
    match line
    case RequestLine(_, m, ml, p, pl, v) => RequestStart(s[m..m + ml], s[p..p + pl], v)
    case StatusLine(v, code, r, rl) => StatusStart(v, code, s[r..r + rl])
  }

  // ----- one printed line

  /** s carries t at offset pos. */
  predicate Carries(s: seq<byte>, pos: nat, t: seq<byte>) {
    pos + |t| <= |s| && s[pos..pos + |t|] == t
  }

  lemma CarriesParts(s: seq<byte>, pos: nat, a: seq<byte>, b: seq<byte>)
    requires Carries(s, pos, a + b)
    ensures Carries(s, pos, a) && Carries(s, pos + |a|, b)
  {
    assert s[pos..pos + |a|] == (a + b)[..|a|];
    assert s[pos + |a|..pos + |a| + |b|] == (a + b)[|a|..];
  }

  predicate NoLf(t: seq<byte>) {
    forall k :: 0 <= k < |t| ==> t[k] != LF
  }

  lemma PrintedLine(s: seq<byte>, pos: nat, t: seq<byte>, policy: Policy)
    requires Carries(s, pos, t + CRLF) && NoLf(t)
    ensures LineAt(s, pos, policy) == Line(|t|, 2)
    ensures s[pos..pos + |t|] == t
  {
    CarriesParts(s, pos, t, CRLF);
    forall k | pos <= k < pos + |t|
      ensures s[k] != LF
    {
      assert s[k] == t[k - pos];
    }
    assert s[pos + |t|] == CRLF[0] && s[pos + |t| + 1] == CRLF[1];
    assert Find(s, pos, |s|, LF) == pos + |t| + 1;
  }

  /** The span a printed field gets at offset pos. */
  function SpanOf(f: Field, pos: nat): Header {
    Header(pos, |f.name|, pos + |f.name| + 2, |f.value|)
  }

  lemma PrintedFieldParts(f: Field)
    requires Shapely(f)
    ensures var t := FieldTextOf(f);
            && NoLf(t) && t != [] && !IsLws(t[0])
            && Find(t, 0, |t|, COLON) == |f.name| && AllToken(t, 0, |f.name|)
            && SkipLws(t, |f.name| + 1, |t|) == |f.name| + 2
            && TrimLws(t, |f.name| + 2, |t|) == |t|
            && AllText(t, |f.name| + 2, |t|)
  {
    var t := FieldTextOf(f);
    var n := |f.name|;
    assert forall k :: 0 <= k < n ==> t[k] == f.name[k];
    assert t[n] == COLON && t[n + 1] == SP;
    assert forall k :: n + 2 <= k < |t| ==> t[k] == f.value[k - n - 2];
    if f.value != [] {
      assert t[n + 2] == f.value[0] && t[|t| - 1] == f.value[|f.value| - 1];
    }
  }

  lemma PrintedFieldStep(f: Field, pos: nat, next: nat, hs: seq<Header>, max: nat)
    requires ValidField(f) && |hs| < max
    ensures FieldStep(FieldTextOf(f), pos, next, hs, max) == Next(next, hs + [SpanOf(f, pos)])
  {
    PrintedFieldParts(f);
  }

  lemma PrintedHeaderStep(s: seq<byte>, pos: nat, f: Field, hs: seq<Header>, max: nat, policy: Policy)
    requires ValidField(f) && |hs| < max
    requires Carries(s, pos, FieldTextOf(f) + CRLF)
    ensures pos + |FieldTextOf(f)| + 2 <= |s|
    ensures HeaderStep(s, pos, hs, max, policy) == Next(pos + |FieldTextOf(f)| + 2, hs + [SpanOf(f, pos)])
  {
    hide FieldStep;
    PrintedFieldParts(f);
    PrintedLine(s, pos, FieldTextOf(f), policy);
    PrintedFieldStep(f, pos, pos + |FieldTextOf(f)| + 2, hs, max);
    assert s[pos] == FieldTextOf(f)[0];
  }

  // ----- a printed block

  function SpansOf(fs: seq<Field>, pos: nat): (hs: seq<Header>)
    ensures |hs| == |fs|
  {
    if fs == [] then [] else [SpanOf(fs[0], pos)] + SpansOf(fs[1..], pos + |FieldTextOf(fs[0])| + 2)
  }

  lemma PrintedEnd(s: seq<byte>, pos: nat, hs: seq<Header>, max: nat, policy: Policy)
    requires Carries(s, pos, CRLF)
    ensures ParseBlock(s, pos, hs, max, policy) == Block(Ok, pos + 2, hs)
  {
    hide FieldStep, FoldStep;
    assert [] + CRLF == CRLF;
    PrintedLine(s, pos, [], policy);
    assert s[pos] == CRLF[0];
  }

  lemma {:induction false} PrintedBlock(s: seq<byte>, pos: nat, fs: seq<Field>, hs: seq<Header>, max: nat,
        policy: Policy)
    requires ValidFields(fs) && |hs| + |fs| <= max
    requires Carries(s, pos, PrintFields(fs) + CRLF)
    ensures ParseBlock(s, pos, hs, max, policy)
            == Block(Ok, pos + |PrintFields(fs)| + 2, hs + SpansOf(fs, pos))
    decreases |fs|
  {
    hide HeaderStep, ValidField, FieldTextOf, ParseBlock, SpansOf, PrintFields, Carries;
    if fs == [] {
      NoFieldsPrinted(pos);
      assert [] + CRLF == CRLF && hs + [] == hs;
      PrintedEnd(s, pos, hs, max, policy);
    } else {
      FieldsUnfold(fs, pos);
      var t := FieldTextOf(fs[0]) + CRLF;
      var rest := PrintFields(fs[1..]) + CRLF;
      CarriesParts(s, pos, t, rest);
      PrintedHeaderStep(s, pos, fs[0], hs, max, policy);
      BlockUnfolds(s, pos, hs, max, policy);
      var hs' := hs + [SpanOf(fs[0], pos)];
      PrintedBlock(s, pos + |t|, fs[1..], hs', max, policy);
      assert hs' + SpansOf(fs[1..], pos + |t|) == hs + ([SpanOf(fs[0], pos)] + SpansOf(fs[1..], pos + |t|));
    }
  }

  lemma NoFieldsPrinted(pos: nat)
    ensures PrintFields([]) == [] && SpansOf([], pos) == []
  {
  }

  lemma FieldsUnfold(fs: seq<Field>, pos: nat)
    requires fs != []
    ensures var t := FieldTextOf(fs[0]) + CRLF;
            && PrintFields(fs) + CRLF == t + (PrintFields(fs[1..]) + CRLF)
            && |PrintFields(fs)| == |t| + |PrintFields(fs[1..])|
            && SpansOf(fs, pos) == [SpanOf(fs[0], pos)] + SpansOf(fs[1..], pos + |t|)
  {
    hide FieldTextOf, SpanOf;
    var t := FieldTextOf(fs[0]) + CRLF;
    assert PrintFields(fs) == t + PrintFields(fs[1..]);
  }

  lemma BlockUnfolds(s: seq<byte>, pos: nat, hs: seq<Header>, max: nat, policy: Policy)
    requires pos < |s| && HeaderStep(s, pos, hs, max, policy).Next?
    ensures var step := HeaderStep(s, pos, hs, max, policy);
            ParseBlock(s, pos, hs, max, policy) == ParseBlock(s, step.pos, step.headers, max, policy)
  {
    hide HeaderStep;
  }

  lemma SpanReadsBack(s: seq<byte>, pos: nat, f: Field)
    requires Carries(s, pos, FieldTextOf(f))
    ensures FieldAt(s, SpanOf(f, pos)) == f
  {
    var t := FieldTextOf(f);
    assert t == f.name + ([COLON, SP] + f.value);
    CarriesParts(s, pos, f.name, [COLON, SP] + f.value);
    CarriesParts(s, pos + |f.name|, [COLON, SP], f.value);
  }

  lemma {:induction false} SpansReadBack(s: seq<byte>, pos: nat, fs: seq<Field>)
    requires Carries(s, pos, PrintFields(fs))
    ensures FieldsAt(s, SpansOf(fs, pos)) == fs
    decreases |fs|
  {
    hide FieldTextOf, FieldAt, SpanOf;
    if fs != [] {
      var t := FieldTextOf(fs[0]) + CRLF;
      assert PrintFields(fs) == t + PrintFields(fs[1..]);
      CarriesParts(s, pos, t, PrintFields(fs[1..]));
      CarriesParts(s, pos, FieldTextOf(fs[0]), CRLF);
      SpanReadsBack(s, pos, fs[0]);
      SpansReadBack(s, pos + |t|, fs[1..]);
      assert SpansOf(fs, pos) == [SpanOf(fs[0], pos)] + SpansOf(fs[1..], pos + |t|);
      assert FieldsAt(s, SpansOf(fs, pos)) == [fs[0]] + FieldsAt(s, SpansOf(fs[1..], pos + |t|));
    }
  }

  // ----- printed start lines

  /** Where the parts of a printed request line stand. */
  lemma PrintedRequestLayout(st: Start)
    requires ValidStart(st) && st.RequestStart?
    ensures var t := StartTextOf(st);
            var m, n := |st.verb|, |st.target|;
            && |t| == m + n + 10
            && t[..m] == st.verb && t[m] == SP && t[m + 1..m + 1 + n] == st.target && t[m + 1 + n] == SP
            && t[m + n + 2..m + n + 9] == HTTP_1 && t[m + n + 9] == VersionByte(st.version)
  {
    hide AllToken, AllTarget;
  }

  lemma RequestLayoutScans(t: seq<byte>, verb: seq<byte>, target: seq<byte>, last: byte)
    requires Token(verb) && target != [] && AllTarget(target, 0, |target|, false) && last != LF && last != SP
    requires var m, n := |verb|, |target|;
             && |t| == m + n + 10
             && t[..m] == verb && t[m] == SP && t[m + 1..m + 1 + n] == target && t[m + 1 + n] == SP
             && t[m + n + 2..m + n + 9] == HTTP_1 && t[m + n + 9] == last
    ensures var m, version := |verb|, |verb| + |target| + 2;
            && NoLf(t)
            && Find(t, 0, |t|, SP) == m && AllToken(t, 0, m)
            && FindLast(t, m + 1, |t|, SP) == version && AllTarget(t, m + 1, version - 1, false)
  {
    var m, n := |verb|, |target|;
    assert forall k :: 0 <= k < m ==> t[k] == t[..m][k];
    assert forall k :: m + 1 <= k < m + 1 + n ==> t[k] == t[m + 1..m + 1 + n][k - m - 1];
    assert forall k :: m + n + 2 <= k < m + n + 9 ==> t[k] == t[m + n + 2..m + n + 9][k - (m + n + 2)];
    assert forall k :: 0 <= k < 7 ==> HTTP_1[k] != SP && HTTP_1[k] != LF;
  }

  lemma PrintedRequestParts(st: Start)
    requires ValidStart(st) && st.RequestStart?
    ensures var t := StartTextOf(st);
            var m, version := |st.verb|, |st.verb| + |st.target| + 2;
            && NoLf(t) && |t| == version + 8
            && Find(t, 0, |t|, SP) == m && AllToken(t, 0, m) && t[..m] == st.verb
            && FindLast(t, m + 1, |t|, SP) == version && AllTarget(t, m + 1, version - 1, false)
            && t[m + 1..version - 1] == st.target
            && t[version..version + 7] == HTTP_1 && t[version + 7] == VersionByte(st.version)
  {
    hide AllToken, AllTarget, StartTextOf, NoLf;
    PrintedRequestLayout(st);
    RequestLayoutScans(StartTextOf(st), st.verb, st.target, VersionByte(st.version));
  }

  lemma PrintedRequestLine(st: Start, policy: Policy)
    requires ValidStart(st) && st.RequestStart?
    ensures RequestLineOf(StartTextOf(st), 0, policy)
            == RequestLine(MethodFromBytes(st.verb), 0, |st.verb|, |st.verb| + 1, |st.target|, st.version)
  {
    PrintedRequestParts(st);
    var m, version := |st.verb|, |st.verb| + |st.target| + 2;
    TargetRelaxes(StartTextOf(st), m + 1, version - 1, STRICT, policy);
    hide StartTextOf, AllToken, AllTarget, ValidStart;
  }

  lemma PrintedStatusLine(st: Start)
    requires ValidStart(st) && st.StatusStart?
    ensures var t := StartTextOf(st);
            && NoLf(t) && |t| == 13 + |st.reason| && t[13..13 + |st.reason|] == st.reason
            && StatusLineOf(t, 0) == StatusLine(st.version, st.code, 13, |st.reason|)
  {
    var t := StartTextOf(st);
    assert t[..7] == HTTP_1;
    assert forall k :: 0 <= k < 7 ==> t[k] == HTTP_1[k];
    assert t[7] == VersionByte(st.version) && t[8] == SP && t[12] == SP;
    assert Digit(t[9]) == st.code / 100 && Digit(t[10]) == st.code / 10 % 10 && Digit(t[11]) == st.code % 10;
    assert forall k :: 13 <= k < |t| ==> t[k] == st.reason[k - 13];
  }

  /** The start line that parsing gives back for st. */
  function LineOf(st: Start): StartLine {
    match st
    case RequestStart(verb, target, version) =>
      RequestLine(MethodFromBytes(verb), 0, |verb|, |verb| + 1, |target|, version)
    case StatusStart(version, code, reason) => StatusLine(version, code, 13, |reason|)
  }

  lemma PrintedStart(s: seq<byte>, st: Start, policy: Policy)
    requires ValidStart(st) && Carries(s, 0, StartTextOf(st) + CRLF)
    ensures ParseStartLine(ModeOf(st), s, 0, policy) == StartResult(Ok, LineOf(st), |StartTextOf(st)| + 2)
    ensures LineInside(s, LineOf(st)) && StartAt(s, LineOf(st)) == st
  {
    hide RequestLineOf, StatusLineOf, StartTextOf, ValidStart, LineAt, NoLf, AllToken, AllTarget;
    var t := StartTextOf(st);
    if st.RequestStart? {
      PrintedRequestParts(st);
      PrintedRequestLine(st, policy);
      PrintedLine(s, 0, t, policy);
      SlicesOfLine(s, t, 0, |st.verb|);
      SlicesOfLine(s, t, |st.verb| + 1, |st.verb| + 1 + |st.target|);
      PrintedRequestFits(st);
    } else {
      PrintedStatusLine(st);
      PrintedLine(s, 0, t, policy);
      SlicesOfLine(s, t, 13, 13 + |st.reason|);
    }
  }

  lemma PrintedRequestFits(st: Start)
    requires ValidStart(st) && st.RequestStart?
    ensures |StartTextOf(st)| <= MAX_REQUEST_LINE
  {
  }

  lemma SlicesOfLine(s: seq<byte>, t: seq<byte>, i: nat, j: nat)
    requires i <= j <= |t| <= |s| && s[0..0 + |t|] == t
    ensures s[i..j] == t[i..j] && s[0..|t|] == t
  {
    assert s[..|t|][i..j] == s[i..j];
  }

  // ----- the round trip

  /** Parsing a canonical head followed by anything gives back its parts and stops at its end,
      under every policy. */
  lemma ParsePrinted(st: Start, fs: seq<Field>, rest: seq<byte>, policy: Policy)
    requires ValidStart(st) && ValidFields(fs) && |fs| <= MAX_HEADERS
    ensures var s := PrintHead(st, fs) + rest;
            var o := OneShot(ModeOf(st), s, MAX_HEADERS, policy);
            && o.status == Ok
            && o.consumed == |PrintHead(st, fs)|
            && LineInside(s, o.state.line) && StartAt(s, o.state.line) == st
            && FieldsAt(s, o.state.headers) == fs
  {
    hide ParseStartLine, ParseBlock, StartTextOf, ValidStart, ValidField, StartAt;
    var s := PrintHead(st, fs) + rest;
    var a := StartTextOf(st) + CRLF;
    var b := PrintFields(fs) + CRLF;
    assert s == a + (b + rest);
    assert s[0..|s|] == s;
    assert Carries(s, 0, a + (b + rest));
    CarriesParts(s, 0, a, b + rest);
    CarriesParts(s, |a|, b, rest);
    CarriesParts(s, |a|, PrintFields(fs), CRLF);
    PrintedStart(s, st, policy);
    PrintedBlock(s, |a|, fs, [], MAX_HEADERS, policy);
    assert [] + SpansOf(fs, |a|) == SpansOf(fs, |a|);
    SpansReadBack(s, |a|, fs);
  }
}
