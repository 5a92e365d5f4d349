/** Message framing as a rule about the header fields, stated without a scan: what the field
    values say, when a message is accepted, and how its body is delimited. */
module SemanticsSpec {
  import opened Bytes
  import opened Types

  // ----- case-insensitive names

  function Lower(c: byte): byte {
    if 65 <= c <= 90 then c + 32 else c
  }

  predicate EqIgnoreCase(a: seq<byte>, b: seq<byte>) {
    |a| == |b| && forall k :: 0 <= k < |a| ==> Lower(a[k]) == Lower(b[k])
  }

  const TRANSFER_ENCODING: seq<byte> := [116, 114, 97, 110, 115, 102, 101, 114, 45, 101, 110, 99, 111, 100, 105,
        110, 103]
  const CONTENT_LENGTH: seq<byte> := [99, 111, 110, 116, 101, 110, 116, 45, 108, 101, 110, 103, 116, 104]
  const CONNECTION: seq<byte> := [99, 111, 110, 110, 101, 99, 116, 105, 111, 110]
  const UPGRADE: seq<byte> := [117, 112, 103, 114, 97, 100, 101]
  const HOST: seq<byte> := [104, 111, 115, 116]
  const EXPECT: seq<byte> := [101, 120, 112, 101, 99, 116]
  const TRAILER: seq<byte> := [116, 114, 97, 105, 108, 101, 114]
  const CHUNKED: seq<byte> := [99, 104, 117, 110, 107, 101, 100]
  const CLOSE: seq<byte> := [99, 108, 111, 115, 101]
  const KEEP_ALIVE: seq<byte> := [107, 101, 101, 112, 45, 97, 108, 105, 118, 101]
  const CONTINUE_100: seq<byte> := [49, 48, 48, 45, 99, 111, 110, 116, 105, 110, 117, 101]

  /** The fields that take part in framing. */
  datatype Kind =
    | KTransferEncoding | KContentLength | KConnection | KUpgrade | KHost | KExpect | KTrailer | KOther

  function KindOf(name: seq<byte>): Kind {
    if EqIgnoreCase(name, TRANSFER_ENCODING) then KTransferEncoding
    else if EqIgnoreCase(name, CONTENT_LENGTH) then KContentLength
    else if EqIgnoreCase(name, CONNECTION) then KConnection
    else if EqIgnoreCase(name, UPGRADE) then KUpgrade
    else if EqIgnoreCase(name, HOST) then KHost
    else if EqIgnoreCase(name, EXPECT) then KExpect
    else if EqIgnoreCase(name, TRAILER) then KTrailer
    else KOther
  }

  // ----- comma lists (RFC 9110 section 5.6.1)

  function Trim(v: seq<byte>): seq<byte> {
    var first := SkipLws(v, 0, |v|);
    v[first..TrimLws(v, first, |v|)]
  }

  /** The parts between commas, trimmed. Empty parts stay, so that they can be rejected. */
  function Elements(v: seq<byte>): (es: seq<seq<byte>>)
    ensures es != []
    decreases |v|
  {
    var c := Find(v, 0, |v|, COMMA);
    if c == |v| then [Trim(v)] else [Trim(v[..c])] + Elements(v[c + 1..])
  }

  lemma ElementsUnfold(v: seq<byte>, c: nat)
    requires c == Find(v, 0, |v|, COMMA)
    ensures Elements(v) == if c == |v| then [Trim(v)] else [Trim(v[..c])] + Elements(v[c + 1..])
  {
  }

  predicate TokenElement(e: seq<byte>) {
    e != [] && AllToken(e, 0, |e|)
  }

  predicate HasParams(e: seq<byte>) {
    Find(e, 0, |e|, SEMICOLON) < |e|
  }

  /** The coding name of a transfer-coding element, without parameters. */
  function CodingName(e: seq<byte>): seq<byte> {
    var semi := Find(e, 0, |e|, SEMICOLON);
    if semi == |e| then e else e[..TrimLws(e, 0, semi)]
  }

  predicate IsChunked(e: seq<byte>) {
    EqIgnoreCase(CodingName(e), CHUNKED)
  }

  predicate ValidCoding(e: seq<byte>) {
    TokenElement(CodingName(e)) && !(IsChunked(e) && HasParams(e))
  }

  function CountChunked(es: seq<seq<byte>>): nat {
    if es == [] then 0
    else CountChunked(es[..|es| - 1]) + if IsChunked(es[|es| - 1]) then 1 else 0
  }

  // ----- numbers

  predicate AllDigits(v: seq<byte>) {
    forall k :: 0 <= k < |v| ==> IsDigit(v[k])
  }

  function DecimalValue(v: seq<byte>): nat
    requires AllDigits(v)
  {
    if v == [] then 0 else DecimalValue(v[..|v| - 1]) * 10 + Digit(v[|v| - 1])
  }

  /** A Content-Length value: a non-empty decimal number that fits 64 bits. */
  predicate ValidLength(v: seq<byte>) {
    v != [] && AllDigits(v) && DecimalValue(v) < TWO_TO_THE_64
  }

  // ----- what the fields say

  /** What one field contributes to its kind: list elements, or its value. */
  function Contribution(f: Field, k: Kind): seq<seq<byte>> {
    if KindOf(f.name) != k then []
    else if k == KTransferEncoding || k == KConnection || k == KTrailer then Elements(f.value)
    else [f.value]
  }

  function Gather(fs: seq<Field>, k: Kind): seq<seq<byte>> {
    if fs == [] then [] else Gather(fs[..|fs| - 1], k) + Contribution(fs[|fs| - 1], k)
  }

  lemma GatherOne(f: Field, k: Kind)
    ensures Gather([f], k) == Contribution(f, k)
  {
    assert [f][..0] == [];
    assert Gather([], k) + Contribution(f, k) == Contribution(f, k);
  }

  /** Everything framing depends on. Transfer-Encoding, Connection and Trailer are the elements
      of all lines together; the others are the values line by line. */
  datatype Facts = Facts(
    te: seq<seq<byte>>, cl: seq<seq<byte>>, connection: seq<seq<byte>>, upgrade: seq<seq<byte>>,
    host: seq<seq<byte>>, expectations: seq<seq<byte>>, trailer: seq<seq<byte>>)

  function FactsOf(fs: seq<Field>): Facts {
    Facts(Gather(fs, KTransferEncoding), Gather(fs, KContentLength), Gather(fs, KConnection),
          Gather(fs, KUpgrade), Gather(fs, KHost), Gather(fs, KExpect), Gather(fs, KTrailer))
  }

  predicate Says(es: seq<seq<byte>>, option: seq<byte>) {
    exists k :: 0 <= k < |es| && EqIgnoreCase(es[k], option)
  }

  predicate EndsChunked(te: seq<seq<byte>>) {
    te != [] && IsChunked(te[|te| - 1])
  }

  predicate TeOk(te: seq<seq<byte>>) {
    forall k :: 0 <= k < |te| ==> ValidCoding(te[k])
  }

  predicate LengthsOk(cl: seq<seq<byte>>) {
    && (forall k :: 0 <= k < |cl| ==> ValidLength(cl[k]))
    && (forall k :: 0 <= k < |cl| ==> DecimalValue(cl[k]) == DecimalValue(cl[0]))
  }

  predicate TokensOk(es: seq<seq<byte>>) {
    forall k :: 0 <= k < |es| ==> TokenElement(es[k])
  }

  /** Upgrade values must be tokens, except that an empty value passes. */
  predicate UpgradeOk(vs: seq<seq<byte>>) {
    forall k :: 0 <= k < |vs| ==> AllToken(vs[k], 0, |vs[k]|)
  }

  predicate HostOk(vs: seq<seq<byte>>) {
    |vs| <= 1 && forall k :: 0 <= k < |vs| ==> vs[k] != []
  }

  predicate ExpectOk(vs: seq<seq<byte>>) {
    forall k :: 0 <= k < |vs| ==> Trim(vs[k]) != []
  }

  /** Every field that framing looks at is well formed. */
  predicate CommonFieldsOk(f: Facts) {
    TeOk(f.te) && LengthsOk(f.cl) && TokensOk(f.connection) && UpgradeOk(f.upgrade) && TokensOk(f.trailer)
  }

  predicate RequestFieldsOk(f: Facts) {
    CommonFieldsOk(f) && HostOk(f.host) && ExpectOk(f.expectations)
  }

  // ----- requests (RFC 9112 sections 6.1 to 6.3, 3.2)

  predicate RequestAccepted(f: Facts, version: Version, rejectTeCl: bool) {
    && RequestFieldsOk(f)
    && !(f.te != [] && f.cl != [] && rejectTeCl)
    && (version == Http11 ==> f.host != [])
    && CountChunked(f.te) <= 1
    && (f.te != [] ==> EndsChunked(f.te))
    && (f.trailer != [] ==> f.te != [])
  }

  lemma AcceptedLengths(f: Facts, version: Version, rejectTeCl: bool)
    requires RequestAccepted(f, version, rejectTeCl)
    ensures LengthsOk(f.cl)
  {
  }

  /** The outcome handed to the body decoder and the connection layer. */
  datatype Framing = Framing(mode: BodyMode, contentLength: nat, keepAlive: bool, upgrade: bool,
                             expectsContinue: bool, trailerFields: bool)

  /** The content length keeps its earlier value unless the body has a fixed length. */
  function RequestFraming(f: Facts, version: Version, lengthBefore: nat): Framing
    requires LengthsOk(f.cl)
  {
    var mode := if f.te != [] then ChunkedBody else if f.cl != [] then FixedBody else NoBody;
    Framing(
      mode,
      if mode == FixedBody then DecimalValue(f.cl[0]) else lengthBefore,
      if Says(f.connection, CLOSE) then false
      else if Says(f.connection, KEEP_ALIVE) then true
      else version == Http11,
      f.upgrade != [] && Says(f.connection, UPGRADE),
      f.expectations != [] && EqIgnoreCase(Trim(f.expectations[|f.expectations| - 1]), CONTINUE_100),
      f.trailer != [])
  }

  // ----- responses

  predicate Bodiless(code: int) {
    100 <= code < 200 || code == 204 || code == 304
  }

  function ResponseBodyMode(f: Facts, code: int): BodyMode {
    if Bodiless(code) then NoBody
    else if EndsChunked(f.te) then ChunkedBody
    else if f.cl != [] then FixedBody
    else UntilClose
  }

  predicate ResponseAccepted(f: Facts, code: int, rejectTeCl: bool) {
    && CommonFieldsOk(f)
    && !(f.te != [] && f.cl != [] && rejectTeCl)
    && CountChunked(f.te) <= 1
    && (f.trailer != [] ==> ResponseBodyMode(f, code) == ChunkedBody)
  }

  predicate SwitchesProtocol(f: Facts, code: int) {
    code == 101 && f.upgrade != [] && Says(f.connection, UPGRADE) && !Says(f.connection, CLOSE)
  }

  /** Persistence keeps its earlier value when nothing decides it. An explicit keep-alive stays
      in force even when the body ends with the connection. */
  function ResponseFraming(f: Facts, version: Version, code: int, lengthBefore: nat, keepBefore: bool): Framing
    requires LengthsOk(f.cl)
  {
    var mode := ResponseBodyMode(f, code);
    Framing(
      mode,
      if mode == FixedBody then DecimalValue(f.cl[0]) else lengthBefore,
      if Says(f.connection, CLOSE) || SwitchesProtocol(f, code) then false
      else if Says(f.connection, KEEP_ALIVE) then true
      else if version == Http11 && mode != UntilClose then true
      else keepBefore,
      SwitchesProtocol(f, code),
      false,
      f.trailer != [])
  }
}
