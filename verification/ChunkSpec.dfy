/** The chunked decoder one octet at a time. The method in module ChunkDecoder moves whole
    slices inside the caller's buffer; it is proved to compute Run. */
module ChunkSpec {
  import opened Bytes

  datatype State = Size | Ext | SizeLf | Data | DataCr | DataLf | Trailer | Finished

  /** Sub-states of the trailer section, kept in the digit counter. */
  const TRAILER_LINE_START: nat := 0
  const TRAILER_DONE_LF: nat := 1
  const TRAILER_LINE: nat := 2
  const TRAILER_LINE_LF: nat := 3

  datatype Decoder = Decoder(state: State, left: nat, total: nat, hexCount: nat, consumeTrailer: bool)

  function Start(consumeTrailer: bool): Decoder {
    Decoder(Size, 0, 0, 0, consumeTrailer)
  }

  predicate IsHex(c: byte) {
    48 <= c <= 57 || 97 <= c <= 102 || 65 <= c <= 70
  }

  function HexDigit(c: byte): (v: nat)
    requires IsHex(c)
    ensures v < 16
  {
    if 48 <= c <= 57 then (c as int) - 48
    else if 97 <= c <= 102 then (c as int) - 97 + 10
    else (c as int) - 65 + 10
  }

  function Pow16(n: nat): (r: nat)
    ensures r > 0
  {
    if n == 0 then 1 else 16 * Pow16(n - 1)
  }

  /** What every reachable decoder satisfies. */
  predicate Sound(d: Decoder) {
    && d.hexCount <= 16 && d.total < TWO_TO_THE_64
    && match d.state
       case Size => d.left < Pow16(d.hexCount)
       case Ext => d.left < Pow16(16)
       case SizeLf => d.left < Pow16(16)
       case Data => 0 < d.left < Pow16(16)
       case DataCr => d.left == 0
       case DataLf => d.left == 0
       case Trailer => d.left == 0 && d.hexCount <= 3 && d.consumeTrailer
       case Finished => d.left == 0
  }

  /** One octet: consumed with some output, refused, or consumed as the last of the body. */
  datatype ByteStep =
    | Took(d: Decoder, out: seq<byte>)
    | Refused(d: Decoder)
    | Completed(d: Decoder)

  function StepByte(d: Decoder, c: byte): ByteStep {
    match d.state
    case Size =>
      if IsHex(c) then
        if d.hexCount >= 16 then Refused(d)
        else Took(d.(left := d.left * 16 + HexDigit(c), hexCount := d.hexCount + 1), [])
      else if c == SEMICOLON then Took(d.(state := Ext), [])
      else if c == CR && d.hexCount > 0 then Took(d.(state := SizeLf), [])
      else Refused(d)
    case Ext =>
      if c == CR then Took(d.(state := SizeLf), [])
      else if c == LF then Refused(d)
      else Took(d, [])
    case SizeLf =>
      if c != LF then Refused(d)
      else if d.left > 0 then Took(d.(state := Data), [])
      else if d.consumeTrailer then Took(d.(state := Trailer, hexCount := TRAILER_LINE_START), [])
      else Completed(d.(state := Finished))
    case Data =>
      if d.left == 0 then Refused(d)
      else Took(d.(left := d.left - 1, total := (d.total + 1) % TWO_TO_THE_64,
                   state := if d.left == 1 then DataCr else Data), [c])
    case DataCr => if c == CR then Took(d.(state := DataLf), []) else Refused(d)
    case DataLf => if c == LF then Took(d.(state := Size, hexCount := 0, left := 0), []) else Refused(d)
    case Trailer => StepTrailer(d, c)
    case Finished => Refused(d)
  }

  function StepTrailer(d: Decoder, c: byte): ByteStep {
    if d.hexCount == TRAILER_LINE_START then
      if c == CR then Took(d.(hexCount := TRAILER_DONE_LF), [])
      else if c == LF then Refused(d)
      else Took(d.(hexCount := TRAILER_LINE), [])
    else if d.hexCount == TRAILER_DONE_LF then
      if c == LF then Completed(d.(state := Finished)) else Refused(d)
    else if d.hexCount == TRAILER_LINE then
      if c == CR then Took(d.(hexCount := TRAILER_LINE_LF), [])
      else if c == LF then Refused(d)
      else Took(d, [])
    else if d.hexCount == TRAILER_LINE_LF then
      if c == LF then Took(d.(hexCount := TRAILER_LINE_START), []) else Refused(d)
    else Refused(d)
  }

  /** A call on a slice: more is needed, an octet was refused, or the body ended after `used`
      octets of the slice. `out` is the payload; the decoder is the one left behind. */
  datatype Outcome =
    | Need(d: Decoder, out: seq<byte>)
    | Bad(d: Decoder, out: seq<byte>, used: nat)
    | Complete(d: Decoder, out: seq<byte>, used: nat)

  function Prepend(out: seq<byte>, used: nat, r: Outcome): Outcome {
    match r
    case Need(d, o) => Need(d, out + o)
    case Bad(d, o, u) => Bad(d, out + o, used + u)
    case Complete(d, o, u) => Complete(d, out + o, used + u)
  }

  /** A finished decoder completes at once on a non-empty slice and asks for more on an empty one. */
  function Run(d: Decoder, s: seq<byte>): Outcome
    decreases |s|
  {
    if s == [] then Need(d, [])
    else if d.state == Finished then Complete(d, [], 0)
    else
      match StepByte(d, s[0])
      case Took(d', o) => Prepend(o, 1, Run(d', s[1..]))
      case Refused(d') => Bad(d', [], 0)
      case Completed(d') => Complete(d', [], 1)
  }

  // ----- the reachable states

  lemma Pow16Monotone(m: nat, n: nat)
    requires m <= n
    ensures Pow16(m) <= Pow16(n)
    decreases n - m
  {
    if m < n {
      Pow16Monotone(m + 1, n);
    }
  }

  lemma Pow16Of16()
    ensures Pow16(16) == TWO_TO_THE_64
  {
    assert Pow16(4) == 0x1_0000;
    assert Pow16(8) == 0x1_0000 * Pow16(4);
    assert Pow16(12) == 0x1_0000 * Pow16(8);
    assert Pow16(16) == 0x1_0000 * Pow16(12);
  }

  lemma SoundStep(d: Decoder, c: byte)
    requires Sound(d) && d.state != Finished
    ensures Sound(StepByte(d, c).d)
    ensures StepByte(d, c).d.consumeTrailer == d.consumeTrailer
    ensures d.state == Size && IsHex(c) && d.hexCount < 16 ==> d.left * 16 + HexDigit(c) < TWO_TO_THE_64
  {
    Pow16Of16();
    if d.state == Size {
      Pow16Monotone(d.hexCount, 16);
      if d.hexCount < 16 {
        assert Pow16(d.hexCount + 1) == 16 * Pow16(d.hexCount);
        Pow16Monotone(d.hexCount + 1, 16);
      }
    }
  }

  /** Every state reached from a sound one is sound, on any input. The size never wraps, chunk
      data always has octets left to read, and the trailer counter is one of its four values. */
  lemma {:induction false} SoundRun(d: Decoder, s: seq<byte>)
    requires Sound(d)
    ensures Sound(Run(d, s).d)
    ensures Run(d, s).d.consumeTrailer == d.consumeTrailer
    ensures Run(d, s).Complete? ==> Run(d, s).d.state == Finished && Run(d, s).used <= |s|
    ensures Run(d, s).Bad? ==> Run(d, s).used < |s|
    decreases |s|
  {
    hide Sound;
    if s != [] && d.state != Finished {
      SoundStep(d, s[0]);
      var step := StepByte(d, s[0]);
      if step.Took? {
        SoundRun(step.d, s[1..]);
      }
    }
  }

  /** total_decoded counts payload octets only, modulo the width of its field. */
  lemma {:induction false} TotalCountsPayload(d: Decoder, s: seq<byte>)
    requires d.total < TWO_TO_THE_64
    ensures Run(d, s).d.total == (d.total + |Run(d, s).out|) % TWO_TO_THE_64
    decreases |s|
  {
    if s != [] && d.state != Finished {
      var step := StepByte(d, s[0]);
      if step.Took? {
        TotalCountsPayload(step.d, s[1..]);
        if step.out != [] {
          ModStep(d.total, |Run(step.d, s[1..]).out| + 1);
        }
      }
    }
  }

  lemma ModStep(total: nat, n: nat)
    requires n > 0
    ensures ((total + 1) % TWO_TO_THE_64 + (n - 1)) % TWO_TO_THE_64 == (total + n) % TWO_TO_THE_64
  {
    var q := (total + 1) / TWO_TO_THE_64;
    assert total + n == (total + 1) % TWO_TO_THE_64 + (n - 1) + q * TWO_TO_THE_64;
  }

  // ----- slices

  lemma PrependPrepend(a: seq<byte>, m: nat, b: seq<byte>, n: nat, r: Outcome)
    ensures Prepend(a, m, Prepend(b, n, r)) == Prepend(a + b, m + n, r)
  {
    assert a + (b + r.out) == a + b + r.out;
  }

  lemma PrependNothing(r: Outcome)
    ensures Prepend([], 0, r) == r
  {
    assert [] + r.out == r.out;
  }

  /** Feeding a and then b is feeding a + b: if a alone asks for more, b goes on from the state it
      left; if a alone completes or fails, b changes nothing but the leftover. */
  lemma {:induction false} RunSplit(d: Decoder, a: seq<byte>, b: seq<byte>)
    ensures match Run(d, a)
            case Need(d1, out) => Run(d, a + b) == Prepend(out, |a|, Run(d1, b))
            case Complete(_, _, _) => Run(d, a + b) == Run(d, a)
            case Bad(_, _, _) => Run(d, a + b) == Run(d, a)
    decreases |a|
  {
    hide StepByte;
    if a == [] {
      assert a + b == b;
      PrependNothing(Run(d, b));
    } else if d.state != Finished {
      assert (a + b)[0] == a[0] && (a + b)[1..] == a[1..] + b;
      var step := StepByte(d, a[0]);
      if step.Took? {
        RunSplit(step.d, a[1..], b);
        var r := Run(step.d, a[1..]);
        if r.Need? {
          PrependPrepend(step.out, 1, r.out, |a| - 1, Run(r.d, b));
        }
      }
    }
  }

  function Flatten(slices: seq<seq<byte>>): seq<byte> {
    if slices == [] then [] else slices[0] + Flatten(slices[1..])
  }

  /** A caller that hands in slice after slice until a call does not ask for more; payloads are
      concatenated and `used` counts from the first slice on. */
  function FeedSlices(d: Decoder, slices: seq<seq<byte>>): Outcome
    decreases |slices|
  {
    if slices == [] then Need(d, [])
    else
      match Run(d, slices[0])
      case Need(d1, out) => Prepend(out, |slices[0]|, FeedSlices(d1, slices[1..]))
      case Bad(d1, out, used) => Bad(d1, out, used)
      case Complete(d1, out, used) => Complete(d1, out, used)
  }

  /** However the body is cut into slices, the payload, the verdict, the final state and the
      position where the body ends are those of the whole. */
  lemma {:induction false} SplitInvariance(d: Decoder, slices: seq<seq<byte>>)
    ensures FeedSlices(d, slices) == Run(d, Flatten(slices))
    decreases |slices|
  {
    hide StepByte;
    if slices != [] {
      RunSplit(d, slices[0], Flatten(slices[1..]));
      var r := Run(d, slices[0]);
      if r.Need? {
        SplitInvariance(r.d, slices[1..]);
      }
    }
  }

  // ----- moving data in bulk

  /** The decoder after n octets of chunk data. */
  function AfterData(d: Decoder, n: nat): Decoder
    requires n <= d.left
  {
    d.(left := d.left - n, total := (d.total + n) % TWO_TO_THE_64, state := if d.left == n then DataCr else Data)
  }

  lemma SoundData(d: Decoder, n: nat)
    requires Sound(d) && d.state == Data && n <= d.left
    ensures d.left > 0 && d.total < TWO_TO_THE_64 && Sound(AfterData(d, n))
  {
  }

  lemma RunStops(d: Decoder, s: seq<byte>)
    ensures s == [] ==> Run(d, s) == Need(d, [])
    ensures s != [] && d.state == Finished ==> Run(d, s) == Complete(d, [], 0)
    ensures s != [] && d.state != Finished && StepByte(d, s[0]).Refused? ==>
              Run(d, s) == Bad(StepByte(d, s[0]).d, [], 0)
    ensures s != [] && d.state != Finished && StepByte(d, s[0]).Completed? ==>
              Run(d, s) == Complete(StepByte(d, s[0]).d, [], 1)
  {
  }

  lemma RunTook(d: Decoder, s: seq<byte>)
    requires s != [] && d.state != Finished && StepByte(d, s[0]).Took?
    ensures Run(d, s) == Prepend(StepByte(d, s[0]).out, 1, Run(StepByte(d, s[0]).d, s[1..]))
  {
  }

  lemma AfterOneMore(d: Decoder, n: nat)
    requires d.state == Data && 1 < n <= d.left
    ensures var d1 := AfterData(d, 1);
            d1.state == Data && d1.left == d.left - 1 && AfterData(d1, n - 1) == AfterData(d, n)
  {
    ModStep(d.total, n);
  }

  lemma DataStep(d: Decoder, s: seq<byte>)
    requires d.state == Data && d.left > 0 && s != []
    ensures Run(d, s) == Prepend(s[..1], 1, Run(AfterData(d, 1), s[1..]))
  {
    RunTook(d, s);
    assert s[..1] == [s[0]];
  }

  /** n octets of chunk data moved at once are n single steps. */
  lemma {:induction false} RunData(d: Decoder, s: seq<byte>, n: nat)
    requires d.state == Data && d.total < TWO_TO_THE_64
    requires 0 < n <= d.left && n <= |s|
    ensures Run(d, s) == Prepend(s[..n], n, Run(AfterData(d, n), s[n..]))
    decreases n
  {
    hide Run, AfterData, StepByte;
    DataStep(d, s);
    if n > 1 {
      var d1 := AfterData(d, 1);
      AfterOneMore(d, n);
      AfterTotal(d);
      RunData(d1, s[1..], n - 1);
      assert s[1..][n - 1..] == s[n..];
      PrependPrepend(s[..1], 1, s[1..][..n - 1], n - 1, Run(AfterData(d, n), s[n..]));
      assert s[..1] + s[1..][..n - 1] == s[..n];
    }
  }

  lemma AfterTotal(d: Decoder)
    requires 0 < d.left
    ensures AfterData(d, 1).total < TWO_TO_THE_64
  {
  }
}
