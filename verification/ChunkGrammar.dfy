/** The grammar of a chunked body, independent of the state machine, and the proof that the
    decoder completes on exactly the inputs that begin with a sentence of it. */
module ChunkGrammar {
  import opened Bytes
  import opened ChunkSpec

  // ----- sentences

  /** A size line without its CRLF: digits and an optional extension that begins with ';'. */
  datatype SizeLine = SizeLine(digits: seq<byte>, ext: seq<byte>)

  datatype Chunk = Chunk(size: SizeLine, data: seq<byte>)

  datatype Encoding = Encoding(chunks: seq<Chunk>, last: SizeLine, trailers: seq<seq<byte>>)

  predicate AllHex(digits: seq<byte>) {
    forall k :: 0 <= k < |digits| ==> IsHex(digits[k])
  }

  /** The number a digit string denotes; the empty string denotes zero. */
  function HexValue(digits: seq<byte>): nat
    requires AllHex(digits)
  {
    if digits == [] then 0
    else HexValue(digits[..|digits| - 1]) * 16 + HexDigit(digits[|digits| - 1])
  }

  predicate NoCrLf(t: seq<byte>) {
    forall k :: 0 <= k < |t| ==> t[k] != CR && t[k] != LF
  }

  predicate ValidExt(ext: seq<byte>) {
    ext != [] ==> ext[0] == SEMICOLON && NoCrLf(ext)
  }

  predicate ValidDigits(digits: seq<byte>) {
    |digits| <= 16 && AllHex(digits)
  }

  /** Without digits there must be an extension: the decoder takes ";..." as size zero. */
  predicate ValidSize(z: SizeLine) {
    ValidDigits(z.digits) && ValidExt(z.ext) && (z.digits == [] ==> z.ext != [])
  }

  predicate ValidChunk(c: Chunk) {
    ValidSize(c.size) && c.data != [] && |c.data| == HexValue(c.size.digits)
  }

  predicate ValidChunks(cs: seq<Chunk>) {
    forall k :: 0 <= k < |cs| ==> ValidChunk(cs[k])
  }

  predicate ValidLast(z: SizeLine) {
    ValidSize(z) && HexValue(z.digits) == 0
  }

  predicate ValidTrailers(lines: seq<seq<byte>>) {
    forall k :: 0 <= k < |lines| ==> lines[k] != [] && NoCrLf(lines[k])
  }

  predicate Valid(e: Encoding, consumeTrailer: bool) {
    && ValidChunks(e.chunks) && ValidLast(e.last) && ValidTrailers(e.trailers)
    && (!consumeTrailer ==> e.trailers == [])
  }

  function SizeWire(z: SizeLine): seq<byte> {
    z.digits + z.ext
  }

  function ChunkWire(c: Chunk): seq<byte> {
    SizeWire(c.size) + CRLF + c.data + CRLF
  }

  function ChunksWire(cs: seq<Chunk>): seq<byte> {
    if cs == [] then [] else ChunksWire(cs[..|cs| - 1]) + ChunkWire(cs[|cs| - 1])
  }

  function TrailersWire(lines: seq<seq<byte>>): seq<byte> {
    if lines == [] then [] else TrailersWire(lines[..|lines| - 1]) + lines[|lines| - 1] + CRLF
  }

  /** The octets of an encoding. A decoder that does not consume trailers stops after the size
      line of the last chunk. */
  function Wire(e: Encoding, consumeTrailer: bool): seq<byte> {
    ChunksWire(e.chunks) + SizeWire(e.last) + CRLF
    + if consumeTrailer then TrailersWire(e.trailers) + CRLF else []
  }

  function Payload(cs: seq<Chunk>): seq<byte> {
    if cs == [] then [] else Payload(cs[..|cs| - 1]) + cs[|cs| - 1].data
  }

  // ----- what a decoder has read so far

  /** A prefix of a sentence, cut at any octet. */
  datatype Partial =
    | InSize(done: seq<Chunk>, digits: seq<byte>)
    | InExt(done: seq<Chunk>, size: SizeLine)
    | SizeCr(done: seq<Chunk>, size: SizeLine)
    | InData(done: seq<Chunk>, size: SizeLine, data: seq<byte>)
    | WantCr(done: seq<Chunk>, chunk: Chunk)
    | WantLf(done: seq<Chunk>, chunk: Chunk)
    | LineStart(done: seq<Chunk>, last: SizeLine, lines: seq<seq<byte>>)
    | EndCr(done: seq<Chunk>, last: SizeLine, lines: seq<seq<byte>>)
    | InLine(done: seq<Chunk>, last: SizeLine, lines: seq<seq<byte>>, line: seq<byte>)
    | LineCr(done: seq<Chunk>, last: SizeLine, lines: seq<seq<byte>>, line: seq<byte>)

  function Text(p: Partial): seq<byte> {
    ChunksWire(p.done) +
    match p
    case InSize(_, digits) => digits
    case InExt(_, z) => SizeWire(z)
    case SizeCr(_, z) => SizeWire(z) + [CR]
    case InData(_, z, data) => SizeWire(z) + CRLF + data
    case WantCr(_, c) => SizeWire(c.size) + CRLF + c.data
    case WantLf(_, c) => SizeWire(c.size) + CRLF + c.data + [CR]
    case LineStart(_, z, lines) => SizeWire(z) + CRLF + TrailersWire(lines)
    case EndCr(_, z, lines) => SizeWire(z) + CRLF + TrailersWire(lines) + [CR]
    case InLine(_, z, lines, line) => SizeWire(z) + CRLF + TrailersWire(lines) + line
    case LineCr(_, z, lines, line) => SizeWire(z) + CRLF + TrailersWire(lines) + line + [CR]
  }

  function PayloadSoFar(p: Partial): seq<byte> {
    match p
    case InData(done, _, data) => Payload(done) + data
    case WantCr(done, c) => Payload(done) + c.data
    case WantLf(done, c) => Payload(done) + c.data
    case _ => Payload(p.done)
  }

  /** d reads a trailer section, in the given sub-state, after a valid last size line. */
  predicate InTrailer(d: Decoder, sub: nat, z: SizeLine, lines: seq<seq<byte>>) {
    && d.state == Trailer && d.hexCount == sub && d.consumeTrailer
    && ValidLast(z) && ValidTrailers(lines)
  }

  /** p is a well-formed prefix and d is the decoder that has read it. In particular the size
      accumulator is the value of the digits read. */
  ghost predicate Describes(p: Partial, d: Decoder) {
    && ValidChunks(p.done)
    && match p
       case InSize(_, digits) =>
         d.state == Size && ValidDigits(digits) && d.hexCount == |digits| && d.left == HexValue(digits)
       case InExt(_, z) =>
         d.state == Ext && ValidSize(z) && z.ext != [] && d.left == HexValue(z.digits)
       case SizeCr(_, z) => d.state == SizeLf && ValidSize(z) && d.left == HexValue(z.digits)
       case InData(_, z, data) =>
         d.state == Data && ValidSize(z) && d.left > 0 && |data| + d.left == HexValue(z.digits)
       case WantCr(_, c) => d.state == DataCr && ValidChunk(c)
       case WantLf(_, c) => d.state == DataLf && ValidChunk(c)
       case LineStart(_, z, lines) => InTrailer(d, TRAILER_LINE_START, z, lines)
       case EndCr(_, z, lines) => InTrailer(d, TRAILER_DONE_LF, z, lines)
       case InLine(_, z, lines, line) => InTrailer(d, TRAILER_LINE, z, lines) && line != [] && NoCrLf(line)
       case LineCr(_, z, lines, line) => InTrailer(d, TRAILER_LINE_LF, z, lines) && line != [] && NoCrLf(line)
  }

  /** p extended by one accepted octet. */
  function Extend(p: Partial, c: byte, d: Decoder): Partial {
    match p
    case InSize(done, digits) =>
      if c == SEMICOLON then InExt(done, SizeLine(digits, [c]))
      else if c == CR then SizeCr(done, SizeLine(digits, []))
      else InSize(done, digits + [c])
    case InExt(done, z) => if c == CR then SizeCr(done, z) else InExt(done, z.(ext := z.ext + [c]))
    case SizeCr(done, z) => if d.left > 0 then InData(done, z, []) else LineStart(done, z, [])
    case InData(done, z, data) =>
      if d.left == 1 then WantCr(done, Chunk(z, data + [c])) else InData(done, z, data + [c])
    case WantCr(done, chunk) => WantLf(done, chunk)
    case WantLf(done, chunk) => InSize(done + [chunk], [])
    case LineStart(done, z, lines) => if c == CR then EndCr(done, z, lines) else InLine(done, z, lines, [c])
    case EndCr(_, _, _) => p
    case InLine(done, z, lines, line) =>
      if c == CR then LineCr(done, z, lines, line) else InLine(done, z, lines, line + [c])
    case LineCr(done, z, lines, line) => LineStart(done, z, lines + [line])
  }

  lemma TextSnoc(a: seq<byte>, b: seq<byte>, c: byte)
    ensures a + b + [c] == a + (b + [c])
  {
  }

  lemma HexSnoc(digits: seq<byte>, c: byte)
    requires AllHex(digits) && IsHex(c)
    ensures AllHex(digits + [c]) && HexValue(digits + [c]) == HexValue(digits) * 16 + HexDigit(c)
  {
    assert (digits + [c])[..|digits|] == digits;
  }

  lemma ChunksSnoc(cs: seq<Chunk>, c: Chunk)
    ensures ChunksWire(cs + [c]) == ChunksWire(cs) + ChunkWire(c)
    ensures Payload(cs + [c]) == Payload(cs) + c.data
  {
    assert (cs + [c])[..|cs|] == cs;
  }

  lemma TrailersSnoc(lines: seq<seq<byte>>, line: seq<byte>)
    ensures TrailersWire(lines + [line]) == TrailersWire(lines) + line + CRLF
  {
    assert (lines + [line])[..|lines|] == lines;
  }

  /** The structure keeps describing the decoder: in the size line, */
  lemma ExtendKeepsSize(p: Partial, d: Decoder, c: byte)
    requires Describes(p, d) && StepByte(d, c).Took? && (p.InSize? || p.InExt? || p.SizeCr?)
    ensures Describes(Extend(p, c, d), StepByte(d, c).d)
  {
    hide ValidChunks, ValidChunk, HexValue;
    NoDigits();
    if p.InSize? && IsHex(c) {
      HexSnoc(p.digits, c);
    }
  }

  lemma NoDigits()
    ensures HexValue([]) == 0
  {
  }

  /** in the data, */
  lemma ExtendKeepsData(p: Partial, d: Decoder, c: byte)
    requires Describes(p, d) && StepByte(d, c).Took? && (p.InData? || p.WantCr? || p.WantLf?)
    ensures Describes(Extend(p, c, d), StepByte(d, c).d)
  {
    hide ValidSize;
  }

  /** and in the trailer section. */
  lemma ExtendKeepsTrailer(p: Partial, d: Decoder, c: byte)
    requires Describes(p, d) && StepByte(d, c).Took? && (p.LineStart? || p.EndCr? || p.InLine? || p.LineCr?)
    ensures Describes(Extend(p, c, d), StepByte(d, c).d)
  {
    hide ValidChunks, ValidLast;
  }

  /** In the size line the text grows by the octet. */
  lemma ExtendSizeText(p: Partial, d: Decoder, c: byte)
    requires Describes(p, d) && (p.InSize? || p.InExt? || p.SizeCr?)
    requires StepByte(d, c).Took?
    ensures var p', step := Extend(p, c, d), StepByte(d, c);
            Text(p') == Text(p) + [c] && PayloadSoFar(p') == PayloadSoFar(p) + step.out
  {
    hide ValidChunks, ValidSize, ValidDigits, ChunksWire, Payload, HexValue;
    var head := ChunksWire(p.done);
    assert PayloadSoFar(p) + [] == PayloadSoFar(p);
    if p.SizeCr? {
      TextSnoc(head, SizeWire(p.size) + [CR], c);
      assert SizeWire(p.size) + CRLF + [] == SizeWire(p.size) + [CR] + [LF];
      assert SizeWire(p.size) + CRLF + TrailersWire([]) == SizeWire(p.size) + [CR] + [LF];
      assert Payload(p.done) + [] == Payload(p.done);
    } else if p.InSize? {
      TextSnoc(head, p.digits, c);
      assert p.digits + [] == p.digits;
    } else {
      TextSnoc(head, SizeWire(p.size), c);
      TextSnoc(p.size.digits, p.size.ext, c);
    }
  }

  /** In the data of a chunk and its CRLF. */
  lemma ExtendDataText(p: Partial, d: Decoder, c: byte)
    requires Describes(p, d) && (p.InData? || p.WantCr? || p.WantLf?)
    requires StepByte(d, c).Took?
    ensures var p', step := Extend(p, c, d), StepByte(d, c);
            Text(p') == Text(p) + [c] && PayloadSoFar(p') == PayloadSoFar(p) + step.out
  {
    hide ValidChunks, ValidSize, ValidChunk, SizeWire, ChunksWire, Payload, HexValue;
    if p.WantLf? {
      var text := SizeWire(p.chunk.size) + CRLF + p.chunk.data;
      ChunksSnoc(p.done, p.chunk);
      assert text + CRLF == text + [CR] + [c];
      TextSnoc(ChunksWire(p.done), text + [CR], c);
      assert PayloadSoFar(p) + [] == PayloadSoFar(p);
      assert ChunksWire(p.done + [p.chunk]) + [] == ChunksWire(p.done + [p.chunk]);
    } else if p.InData? {
      var text := SizeWire(p.size) + CRLF;
      TextSnoc(ChunksWire(p.done), text + p.data, c);
      TextSnoc(text, p.data, c);
      TextSnoc(Payload(p.done), p.data, c);
    } else {
      TextSnoc(ChunksWire(p.done), SizeWire(p.chunk.size) + CRLF + p.chunk.data, c);
      assert PayloadSoFar(p) + [] == PayloadSoFar(p);
    }
  }

  lemma LineEnds(base: seq<byte>, lines: seq<byte>, head: seq<byte>, line: seq<byte>)
    requires base == head + lines
    ensures head + (lines + line + CRLF) == base + line + [CR] + [LF]
  {
  }

  /** In the trailer section. */
  lemma ExtendTrailerText(p: Partial, d: Decoder, c: byte)
    requires Describes(p, d) && (p.LineStart? || p.EndCr? || p.InLine? || p.LineCr?)
    requires StepByte(d, c).Took?
    ensures var p', step := Extend(p, c, d), StepByte(d, c);
            Text(p') == Text(p) + [c] && PayloadSoFar(p') == PayloadSoFar(p) + step.out
  {
    hide ValidChunks, ValidLast, ValidTrailers, SizeWire, ChunksWire, TrailersWire, NoCrLf;
    var base := SizeWire(p.last) + CRLF + TrailersWire(p.lines);
    assert PayloadSoFar(p) + [] == PayloadSoFar(p);
    if p.LineCr? {
      TrailersSnoc(p.lines, p.line);
      LineEnds(base, TrailersWire(p.lines), SizeWire(p.last) + CRLF, p.line);
      TextSnoc(ChunksWire(p.done), base + p.line + [CR], c);
    } else if p.LineStart? {
      TextSnoc(ChunksWire(p.done), base, c);
    } else if p.InLine? {
      TextSnoc(ChunksWire(p.done), base + p.line, c);
      assert base + (p.line + [c]) == base + p.line + [c];
    }
  }

  lemma ExtendDescribes(p: Partial, d: Decoder, c: byte)
    requires Describes(p, d) && StepByte(d, c).Took?
    ensures var p', step := Extend(p, c, d), StepByte(d, c);
            Describes(p', step.d) && Text(p') == Text(p) + [c] && PayloadSoFar(p') == PayloadSoFar(p) + step.out
  {
    hide Describes, StepByte, Text, Extend, PayloadSoFar;
    if p.InSize? || p.InExt? || p.SizeCr? {
      ExtendKeepsSize(p, d, c);
      ExtendSizeText(p, d, c);
    } else if p.InData? || p.WantCr? || p.WantLf? {
      ExtendKeepsData(p, d, c);
      ExtendDataText(p, d, c);
    } else {
      ExtendKeepsTrailer(p, d, c);
      ExtendTrailerText(p, d, c);
    }
  }

  /** The octet that completes a body completes a sentence. */
  lemma CompletionIsSentence(p: Partial, d: Decoder, c: byte) returns (e: Encoding)
    requires Describes(p, d) && StepByte(d, c).Completed?
    ensures Valid(e, d.consumeTrailer) && Wire(e, d.consumeTrailer) == Text(p) + [c]
    ensures Payload(e.chunks) == PayloadSoFar(p)
  {
    hide SizeWire, ValidSize, ValidChunk, ChunksWire, TrailersWire, Payload;
    assert CRLF == [CR] + [LF];
    if p.SizeCr? {
      e := Encoding(p.done, p.size, []);
      TextSnoc(ChunksWire(p.done), SizeWire(p.size) + [CR], c);
      assert Wire(e, false) == ChunksWire(p.done) + (SizeWire(p.size) + [CR] + [LF]);
    } else {
      e := Encoding(p.done, p.last, p.lines);
      TextSnoc(ChunksWire(p.done), SizeWire(p.last) + CRLF + TrailersWire(p.lines) + [CR], c);
      assert Wire(e, true) == ChunksWire(p.done) + (SizeWire(p.last) + CRLF + TrailersWire(p.lines) + [CR] + [LF]);
    }
  }

  /** The decoder completes only on sentences. */
  lemma {:induction false} CompletesOnSentence(p: Partial, d: Decoder, s: seq<byte>) returns (e: Encoding)
    requires Describes(p, d) && Run(d, s).Complete?
    ensures Run(d, s).used <= |s|
    ensures Valid(e, d.consumeTrailer) && Wire(e, d.consumeTrailer) == Text(p) + s[..Run(d, s).used]
    ensures Payload(e.chunks) == PayloadSoFar(p) + Run(d, s).out
    decreases |s|
  {
    hide StepByte, Text, Extend, PayloadSoFar, Wire, Valid;
    NotFinished(p, d);
    var step := StepByte(d, s[0]);
    KeepsTrailerChoice(d, s[0]);
    if step.Took? {
      ExtendDescribes(p, d, s[0]);
      var p' := Extend(p, s[0], d);
      e := CompletesOnSentence(p', step.d, s[1..]);
      var u := Run(step.d, s[1..]).used;
      assert Text(p) + [s[0]] + s[1..][..u] == Text(p) + s[..u + 1];
      assert PayloadSoFar(p) + step.out + Run(step.d, s[1..]).out
            == PayloadSoFar(p) + (step.out + Run(step.d, s[1..]).out);
    } else {
      e := CompletionIsSentence(p, d, s[0]);
      assert s[..1] == [s[0]];
      assert PayloadSoFar(p) + [] == PayloadSoFar(p);
    }
  }

  lemma NotFinished(p: Partial, d: Decoder)
    requires Describes(p, d)
    ensures d.state != Finished
  {
  }

  lemma KeepsTrailerChoice(d: Decoder, c: byte)
    ensures StepByte(d, c).d.consumeTrailer == d.consumeTrailer
  {
  }

  // ----- and on all of them

  lemma RunMore(d: Decoder, a: seq<byte>, b: seq<byte>, d1: Decoder, out: seq<byte>, d2: Decoder, out2: seq<byte>)
    requires Run(d, a) == Need(d1, out) && Run(d1, b) == Need(d2, out2)
    ensures Run(d, a + b) == Need(d2, out + out2)
  {
    hide Run;
    RunSplit(d, a, b);
  }

  lemma RunOne(d: Decoder, c: byte)
    requires d.state != Finished && StepByte(d, c).Took?
    ensures Run(d, [c]) == Need(StepByte(d, c).d, StepByte(d, c).out)
  {
    assert [c][1..] == [];
    assert Run(StepByte(d, c).d, []) == Need(StepByte(d, c).d, []);
    assert StepByte(d, c).out + [] == StepByte(d, c).out;
  }

  lemma {:induction false} RunDigits(d: Decoder, digits: seq<byte>)
    requires d.state == Size && d.hexCount == 0 && d.left == 0 && ValidDigits(digits)
    ensures Run(d, digits) == Need(d.(left := HexValue(digits), hexCount := |digits|), [])
    decreases |digits|
  {
    if digits != [] {
      var n := |digits| - 1;
      var init, c := digits[..n], digits[n];
      RunDigits(d, init);
      var d1 := d.(left := HexValue(init), hexCount := n);
      RunOne(d1, c);
      RunMore(d, init, [c], d1, [], d.(left := HexValue(digits), hexCount := |digits|), []);
      assert digits == init + [c];
    }
  }

  lemma {:induction false} RunExtTail(d: Decoder, ext: seq<byte>)
    requires d.state == Ext && NoCrLf(ext)
    ensures Run(d, ext) == Need(d, [])
    decreases |ext|
  {
    if ext != [] {
      RunTook(d, ext);
      RunExtTail(d, ext[1..]);
    }
  }

  lemma RunExt(d: Decoder, ext: seq<byte>)
    requires d.state == Size && ext != [] && ValidExt(ext)
    ensures Run(d, ext) == Need(d.(state := Ext), [])
  {
    RunTook(d, ext);
    RunExtTail(d.(state := Ext), ext[1..]);
  }

  /** Up to and including the CR of a size line. */
  lemma RunSizeCr(d: Decoder, z: SizeLine) returns (d1: Decoder)
    requires d.state == Size && d.hexCount == 0 && d.left == 0 && ValidSize(z)
    ensures Run(d, SizeWire(z) + [CR]) == Need(d1, [])
    ensures d1 == d.(state := SizeLf, left := HexValue(z.digits), hexCount := |z.digits|)
  {
    hide Run;
    d1 := d.(left := HexValue(z.digits), hexCount := |z.digits|);
    RunDigits(d, z.digits);
    if z.ext == [] {
      assert SizeWire(z) == z.digits;
    } else {
      RunExt(d1, z.ext);
      RunMore(d, z.digits, z.ext, d1, [], d1.(state := Ext), []);
      d1 := d1.(state := Ext);
    }
    var d2 := d.(state := SizeLf, left := HexValue(z.digits), hexCount := |z.digits|);
    RunOne(d1, CR);
    RunMore(d, SizeWire(z), [CR], d1, [], d2, []);
    d1 := d2;
  }

  /** A whole chunk leads from one size line to the next. */
  lemma RunChunk(d: Decoder, c: Chunk)
    requires d.state == Size && d.hexCount == 0 && d.left == 0 && d.total < TWO_TO_THE_64 && ValidChunk(c)
    ensures Run(d, ChunkWire(c)) == Need(d.(total := (d.total + |c.data|) % TWO_TO_THE_64), c.data)
  {
    hide Run;
    var n := |c.data|;
    var d1 := RunSizeCr(d, c.size);
    var d2 := d1.(state := Data);
    RunOne(d1, LF);
    RunMore(d, SizeWire(c.size) + [CR], [LF], d1, [], d2, []);
    var d3 := AfterData(d2, n);
    RunWholeData(d2, c.data);
    RunMore(d, SizeWire(c.size) + [CR] + [LF], c.data, d2, [], d3, c.data);
    var d4 := d3.(state := DataLf);
    RunOne(d3, CR);
    RunMore(d, SizeWire(c.size) + [CR] + [LF] + c.data, [CR], d3, [] + c.data, d4, []);
    var d5 := d4.(state := Size, hexCount := 0, left := 0);
    RunOne(d4, LF);
    RunMore(d, SizeWire(c.size) + [CR] + [LF] + c.data + [CR], [LF], d4, [] + c.data + [], d5, []);
    assert SizeWire(c.size) + [CR] + [LF] + c.data + [CR] + [LF] == ChunkWire(c);
    assert [] + c.data + [] + [] == c.data;
  }

  lemma RunWholeData(d: Decoder, data: seq<byte>)
    requires d.state == Data && d.total < TWO_TO_THE_64 && data != [] && |data| == d.left
    ensures Run(d, data) == Need(AfterData(d, |data|), data)
  {
    RunData(d, data, |data|);
    assert data[..|data|] == data && data[|data|..] == [];
    assert data + [] == data;
  }

  lemma ChunksLast(cs: seq<Chunk>)
    requires cs != []
    ensures ChunksWire(cs) == ChunksWire(cs[..|cs| - 1]) + ChunkWire(cs[|cs| - 1])
    ensures Payload(cs) == Payload(cs[..|cs| - 1]) + cs[|cs| - 1].data
  {
  }

  lemma {:induction false} RunChunks(d: Decoder, cs: seq<Chunk>)
    requires d.state == Size && d.hexCount == 0 && d.left == 0 && d.total < TWO_TO_THE_64 && ValidChunks(cs)
    ensures Run(d, ChunksWire(cs)) == Need(d.(total := (d.total + |Payload(cs)|) % TWO_TO_THE_64), Payload(cs))
    decreases |cs|
  {
    if cs != [] {
      ChunksLast(cs);
      hide Run, ChunkWire, ChunksWire, Payload, ValidChunk;
      var n := |cs| - 1;
      var init, c := cs[..n], cs[n];
      RunChunks(d, init);
      var d1 := d.(total := (d.total + |Payload(init)|) % TWO_TO_THE_64);
      RunChunk(d1, c);
      var d2 := d1.(total := (d1.total + |c.data|) % TWO_TO_THE_64);
      RunMore(d, ChunksWire(init), ChunkWire(c), d1, Payload(init), d2, c.data);
      ModAdd(d.total, |Payload(init)|, |c.data|);
    }
  }

  lemma ModAdd(t: nat, a: nat, b: nat)
    ensures ((t + a) % TWO_TO_THE_64 + b) % TWO_TO_THE_64 == (t + (a + b)) % TWO_TO_THE_64
  {
    var q := (t + a) / TWO_TO_THE_64;
    assert t + (a + b) == (t + a) % TWO_TO_THE_64 + b + q * TWO_TO_THE_64;
  }

  lemma {:induction false} RunTrailerTail(d: Decoder, line: seq<byte>)
    requires d.state == Trailer && d.hexCount == TRAILER_LINE && NoCrLf(line)
    ensures Run(d, line) == Need(d, [])
    decreases |line|
  {
    if line != [] {
      RunTook(d, line);
      RunTrailerTail(d, line[1..]);
    }
  }

  lemma RunTrailerLine(d: Decoder, line: seq<byte>)
    requires d.state == Trailer && d.hexCount == TRAILER_LINE_START && line != [] && NoCrLf(line)
    ensures Run(d, line + CRLF) == Need(d, [])
  {
    var d1 := d.(hexCount := TRAILER_LINE);
    RunTook(d, line);
    RunTrailerTail(d1, line[1..]);
    hide Run;
    var d2 := d.(hexCount := TRAILER_LINE_LF);
    RunOne(d1, CR);
    RunMore(d, line, [CR], d1, [], d2, []);
    RunOne(d2, LF);
    RunMore(d, line + [CR], [LF], d2, [], d, []);
    assert line + CRLF == line + [CR] + [LF];
  }

  lemma {:induction false} RunTrailers(d: Decoder, lines: seq<seq<byte>>)
    requires d.state == Trailer && d.hexCount == TRAILER_LINE_START && ValidTrailers(lines)
    ensures Run(d, TrailersWire(lines)) == Need(d, [])
    decreases |lines|
  {
    if lines != [] {
      hide Run, NoCrLf, TrailersWire;
      var n := |lines| - 1;
      var init, line := lines[..n], lines[n];
      RunTrailers(d, init);
      RunTrailerLine(d, line);
      RunMore(d, TrailersWire(init), line + CRLF, d, [], d, []);
      TrailersSnoc(init, line);
      assert lines == init + [line];
      assert TrailersWire(init) + line + CRLF == TrailersWire(init) + (line + CRLF);
    }
  }

  /** The last octet of a sentence, with anything behind it. */
  lemma RunLast(d: Decoder, c: byte, rest: seq<byte>)
    requires d.state != Finished && StepByte(d, c).Completed?
    ensures Run(d, [c] + rest) == Complete(StepByte(d, c).d, [], 1)
  {
  }

  lemma RunUpToLast(d: Decoder, a: seq<byte>, rest: seq<byte>, d1: Decoder, out: seq<byte>)
    requires Run(d, a) == Need(d1, out) && d1.state != Finished && StepByte(d1, LF).Completed?
    ensures Run(d, a + [LF] + rest) == Complete(StepByte(d1, LF).d, out, |a| + 1)
  {
    hide Run, StepByte;
    RunLast(d1, LF, rest);
    RunSplit(d, a, [LF] + rest);
    assert a + [LF] + rest == a + ([LF] + rest);
    assert out + [] == out;
  }

  /** All chunks and the last size line up to its CR. */
  lemma RunToLastCr(e: Encoding, consumeTrailer: bool) returns (d: Decoder)
    requires ValidChunks(e.chunks) && ValidLast(e.last)
    ensures Run(Start(consumeTrailer), ChunksWire(e.chunks) + (SizeWire(e.last) + [CR])) == Need(d, Payload(e.chunks))
    ensures d.state == SizeLf && d.left == 0 && d.consumeTrailer == consumeTrailer
  {
    hide Run, ChunkWire, HexValue, SizeWire;
    var d0 := Start(consumeTrailer);
    var body, out := ChunksWire(e.chunks), Payload(e.chunks);
    RunChunks(d0, e.chunks);
    var d1 := d0.(total := (d0.total + |out|) % TWO_TO_THE_64);
    d := RunSizeCr(d1, e.last);
    RunMore(d0, body, SizeWire(e.last) + [CR], d1, out, d, []);
    assert out + [] == out;
  }

  /** The same up to the LF, where a decoder that consumes trailers goes on with them. */
  lemma RunToTrailer(e: Encoding) returns (d: Decoder)
    requires ValidChunks(e.chunks) && ValidLast(e.last)
    ensures Run(Start(true), Wire(e, false)) == Need(d, Payload(e.chunks))
    ensures d.state == Trailer && d.hexCount == TRAILER_LINE_START
  {
    hide Run, ChunkWire, SizeWire;
    var out := Payload(e.chunks);
    var d1 := RunToLastCr(e, true);
    d := d1.(state := Trailer, hexCount := TRAILER_LINE_START);
    RunOne(d1, LF);
    var a := ChunksWire(e.chunks) + (SizeWire(e.last) + [CR]);
    RunMore(Start(true), a, [LF], d1, out, d, []);
    assert out + [] == out;
    assert Wire(e, false) == a + [LF];
  }

  /** The decoder completes on every sentence followed by anything, returns its payload and stops
      at its end. */
  lemma SentenceCompletes(e: Encoding, consumeTrailer: bool, rest: seq<byte>)
    requires Valid(e, consumeTrailer)
    ensures var r := Run(Start(consumeTrailer), Wire(e, consumeTrailer) + rest);
            r.Complete? && r.out == Payload(e.chunks) && r.used == |Wire(e, consumeTrailer)|
  {
    hide Run, ChunkWire, HexValue, SizeWire;
    var d, out := Start(consumeTrailer), Payload(e.chunks);
    assert out + [] == out;
    if !consumeTrailer {
      var d1 := RunToLastCr(e, false);
      var a := ChunksWire(e.chunks) + (SizeWire(e.last) + [CR]);
      RunUpToLast(d, a, rest, d1, out);
      assert Wire(e, false) == a + [LF];
    } else {
      var d1 := RunToTrailer(e);
      var a, lines := Wire(e, false), TrailersWire(e.trailers);
      RunTrailers(d1, e.trailers);
      RunMore(d, a, lines, d1, out, d1, []);
      var d2 := d1.(hexCount := TRAILER_DONE_LF);
      RunOne(d1, CR);
      RunMore(d, a + lines, [CR], d1, out, d2, []);
      RunUpToLast(d, a + lines + [CR], rest, d2, out);
      assert Wire(e, true) == a + lines + [CR] + [LF];
    }
  }

  /** An empty body up to the line ending of its size line. */
  const EMPTY_BODY: seq<byte> := [48, CR, LF]

  lemma EmptyBody(lines: seq<seq<byte>>) returns (e: Encoding)
    requires ValidTrailers(lines)
    ensures Valid(e, true) && e.chunks == [] && e.trailers == lines
    ensures Wire(e, false) == EMPTY_BODY
  {
    e := Encoding([], SizeLine([48], []), lines);
    assert HexValue([48]) == HexValue([]) * 16 + HexDigit(48);
    assert SizeWire(e.last) == [48];
    assert ChunksWire([]) == [];
    hide TrailersWire;
  }

  /** Grammar and decoder agree: a fresh decoder completes on s exactly when s begins with a
      sentence, and then that sentence is what it consumed. */
  lemma DecoderAcceptsGrammar(s: seq<byte>, consumeTrailer: bool)
    ensures Run(Start(consumeTrailer), s).Complete? <==>
            exists e :: Valid(e, consumeTrailer) && Wire(e, consumeTrailer) <= s
    ensures forall e :: Valid(e, consumeTrailer) && Wire(e, consumeTrailer) <= s ==>
                          var r := Run(Start(consumeTrailer), s);
                          r.Complete? && r.out == Payload(e.chunks) && r.used == |Wire(e, consumeTrailer)|
  {
    hide Run, Valid, Wire, Payload;
    var d := Start(consumeTrailer);
    if Run(d, s).Complete? {
      var p := InSize([], []);
      StartDescribed(consumeTrailer);
      var e := CompletesOnSentence(p, d, s);
      assert Wire(e, consumeTrailer) == s[..Run(d, s).used];
      assert Valid(e, consumeTrailer) && Wire(e, consumeTrailer) <= s;
    }
    forall e | Valid(e, consumeTrailer) && Wire(e, consumeTrailer) <= s
      ensures var r := Run(d, s);
              r.Complete? && r.out == Payload(e.chunks) && r.used == |Wire(e, consumeTrailer)|
    {
      var w := Wire(e, consumeTrailer);
      SentenceCompletes(e, consumeTrailer, s[|w|..]);
      assert s == w + s[|w|..];
    }
  }

  /** A decoder that asks for more has read a well-formed prefix, whose structure accounts for
      the size accumulator, the digit count and the payload. */
  lemma {:induction false} NeedsMoreOnPrefix(p: Partial, d: Decoder, s: seq<byte>) returns (p': Partial)
    requires Describes(p, d) && Run(d, s).Need?
    ensures Describes(p', Run(d, s).d)
    ensures Text(p') == Text(p) + s && PayloadSoFar(p') == PayloadSoFar(p) + Run(d, s).out
    decreases |s|
  {
    hide StepByte, Text, Extend, PayloadSoFar;
    NotFinished(p, d);
    if s == [] {
      p' := p;
      assert Text(p) + s == Text(p);
      assert PayloadSoFar(p) + [] == PayloadSoFar(p);
    } else {
      var step := StepByte(d, s[0]);
      ExtendDescribes(p, d, s[0]);
      p' := NeedsMoreOnPrefix(Extend(p, s[0], d), step.d, s[1..]);
      assert Text(p) + [s[0]] + s[1..] == Text(p) + s;
      assert PayloadSoFar(p) + step.out + Run(step.d, s[1..]).out
            == PayloadSoFar(p) + (step.out + Run(step.d, s[1..]).out);
    }
  }

  // ----- rejection is never premature

  lemma RunThen(d: Decoder, a: seq<byte>, b: seq<byte>, d1: Decoder, out: seq<byte>)
    requires Run(d, a) == Need(d1, out) && Run(d1, b).Complete?
    ensures Run(d, a + b).Complete?
  {
    hide Run;
    RunSplit(d, a, b);
  }

  lemma FinishFromTrailer(d: Decoder) returns (t: seq<byte>)
    requires Sound(d) && d.state == Trailer
    ensures Run(d, t).Complete?
  {
    if d.hexCount == TRAILER_DONE_LF {
      t := [LF];
    } else {
      var start := d.(hexCount := TRAILER_LINE_START);
      var cr := d.(hexCount := TRAILER_DONE_LF);
      var lineCr := d.(hexCount := TRAILER_LINE_LF);
      RunOne(start, CR);
      assert Run(cr, [LF]).Complete?;
      RunThen(start, [CR], [LF], cr, []);
      t := [CR] + [LF];
      if d.hexCount != TRAILER_LINE_START {
        RunOne(lineCr, LF);
        RunThen(lineCr, [LF], t, start, []);
        t := [LF] + t;
        if d.hexCount == TRAILER_LINE {
          RunOne(d, CR);
          RunThen(d, [CR], t, lineCr, []);
          t := [CR] + t;
        }
      }
    }
  }

  /** From the LF of a zero size line. */
  lemma FinishFromZero(d: Decoder) returns (t: seq<byte>)
    requires Sound(d) && d.state == SizeLf && d.left == 0
    ensures Run(d, t).Complete?
  {
    if d.consumeTrailer {
      var d1 := d.(state := Trailer, hexCount := TRAILER_LINE_START);
      var t1 := FinishFromTrailer(d1);
      RunOne(d, LF);
      RunThen(d, [LF], t1, d1, []);
      t := [LF] + t1;
    } else {
      t := [LF];
    }
  }

  /** From the start of a size line: an empty extension means size zero. */
  lemma FinishFromFreshSize(d: Decoder) returns (t: seq<byte>)
    requires Sound(d) && d.state == Size && d.left == 0
    ensures Run(d, t).Complete?
  {
    var d1 := d.(state := Ext);
    var d2 := d.(state := SizeLf);
    var t2 := FinishFromZero(d2);
    RunOne(d1, CR);
    RunThen(d1, [CR], t2, d2, []);
    RunOne(d, SEMICOLON);
    RunThen(d, [SEMICOLON], [CR] + t2, d1, []);
    t := [SEMICOLON] + ([CR] + t2);
  }

  lemma FinishFromDataCr(d: Decoder) returns (t: seq<byte>)
    requires Sound(d) && (d.state == DataCr || d.state == DataLf)
    ensures Run(d, t).Complete?
  {
    var d1 := d.(state := DataLf);
    var d2 := d.(state := Size, hexCount := 0);
    t := FinishFromFreshSize(d2);
    RunOne(d1, LF);
    RunThen(d1, [LF], t, d2, []);
    t := [LF] + t;
    if d.state == DataCr {
      RunOne(d, CR);
      RunThen(d, [CR], t, d1, []);
      t := [CR] + t;
    }
  }

  lemma FinishFromData(d: Decoder) returns (t: seq<byte>)
    requires Sound(d) && d.state == Data
    ensures Run(d, t).Complete?
  {
    hide Run;
    var d1 := AfterData(d, d.left);
    SoundData(d, d.left);
    t := FinishFromDataCr(d1);
    var data := seq(d.left, _ => CR);
    RunWholeData(d, data);
    RunThen(d, data, t, d1, data);
    t := data + t;
  }

  lemma FinishFromSizeLf(d: Decoder) returns (t: seq<byte>)
    requires Sound(d) && d.state == SizeLf
    ensures Run(d, t).Complete?
  {
    hide Run;
    if d.left == 0 {
      t := FinishFromZero(d);
    } else {
      var d1 := d.(state := Data);
      t := FinishFromData(d1);
      RunOne(d, LF);
      RunThen(d, [LF], t, d1, []);
      t := [LF] + t;
    }
  }

  lemma FinishFromSize(d: Decoder) returns (t: seq<byte>)
    requires Sound(d) && (d.state == Size || d.state == Ext)
    ensures Run(d, t).Complete?
  {
    hide Run;
    Pow16Monotone(d.hexCount, 16);
    var d1 := d.(state := Ext);
    var d2 := d.(state := SizeLf);
    t := FinishFromSizeLf(d2);
    RunOne(d1, CR);
    RunThen(d1, [CR], t, d2, []);
    t := [CR] + t;
    if d.state == Size {
      RunOne(d, SEMICOLON);
      RunThen(d, [SEMICOLON], t, d1, []);
      t := [SEMICOLON] + t;
    }
  }

  /** Every sound state short of the end can still be completed. */
  lemma Completable(d: Decoder) returns (t: seq<byte>)
    requires Sound(d) && d.state != Finished
    ensures Run(d, t).Complete?
  {
    hide Run, Sound;
    match d.state {
      case Trailer => t := FinishFromTrailer(d);
      case Size => t := FinishFromSize(d);
      case Ext => t := FinishFromSize(d);
      case SizeLf => t := FinishFromSizeLf(d);
      case Data => t := FinishFromData(d);
      case DataCr => t := FinishFromDataCr(d);
      case DataLf => t := FinishFromDataCr(d);
    }
  }

  /** The decoder reports an error exactly when no continuation of the input could be a body. */
  lemma RejectsExactlyTheHopeless(s: seq<byte>, consumeTrailer: bool)
    ensures Run(Start(consumeTrailer), s).Bad?
            <==> forall t: seq<byte> :: !Run(Start(consumeTrailer), s + t).Complete?
  {
    hide Run;
    var d := Start(consumeTrailer);
    var r := Run(d, s);
    if r.Bad? {
      forall t: seq<byte>
        ensures !Run(d, s + t).Complete?
      {
        RunSplit(d, s, t);
      }
    } else if r.Complete? {
      assert s + [] == s;
      assert Run(d, s + []).Complete?;
    } else {
      SoundRun(d, s);
      var p := InSize([], []);
      StartDescribed(consumeTrailer);
      var p' := NeedsMoreOnPrefix(p, d, s);
      NotFinished(p', r.d);
      var t := Completable(r.d);
      RunThen(d, s, t, r.d, r.out);
      assert Run(d, s + t).Complete?;
    }
  }

  lemma StartDescribed(consumeTrailer: bool)
    ensures var p := InSize([], []);
            Describes(p, Start(consumeTrailer)) && Text(p) == [] && PayloadSoFar(p) == []
  {
  }
}
