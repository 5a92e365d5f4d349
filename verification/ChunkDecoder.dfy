/** The chunked decoder as the source has it: a state object, and a loop that moves payload to
    the front of the caller's buffer while it reads ahead. */
module ChunkDecoder {
  import opened Bytes
  import opened ChunkSpec
  import ChunkGrammar

  const STATUS_ERROR: int := -1
  const STATUS_INCOMPLETE: int := -2

  /** The cast of a count to the 32-bit status type. */
  function ToStatus(n: nat): int {
    var m := n % 0x1_0000_0000;
    if m < 0x8000_0000 then m else m - 0x1_0000_0000
  }

  lemma CastKeepsCount(n: nat)
    ensures ToStatus(n) == n <==> n < 0x8000_0000
  {
  }

  /** The status of a completed body is the number of octets left behind it exactly up to INT_MAX,
      and reads as an error, as incomplete or as success by the count modulo 2^32 alone. */
  lemma StatusIsLeftover(d: Decoder, s: seq<byte>)
    requires Sound(d) && Run(d, s).Complete?
    ensures Run(d, s).used <= |s|
    ensures var left := |s| - Run(d, s).used;
            var status := ToStatus(left);
            && (status == left <==> left < 0x8000_0000)
            && (status >= 0 <==> left % 0x1_0000_0000 < 0x8000_0000)
            && (status == STATUS_ERROR <==> left % 0x1_0000_0000 == 0xFFFF_FFFF)
            && (status == STATUS_INCOMPLETE <==> left % 0x1_0000_0000 == 0xFFFF_FFFE)
  {
    hide Run, Sound;
    SoundRun(d, s);
  }

  /** Every count occurs: an empty body leaves whatever follows it. */
  lemma EveryLeftoverHappens(rest: seq<byte>)
    ensures var s := ChunkGrammar.EMPTY_BODY + rest;
            var r := Run(Start(false), s);
            r.Complete? && r.used == 3 && |s| - r.used == |rest|
  {
    hide Run;
    var e := ChunkGrammar.EmptyBody([]);
    ChunkGrammar.SentenceCompletes(e, false, rest);
  }

  /** So a completed body with 2^32 - 2 octets behind it reports Incomplete, and one with 2^32
      octets reports that nothing is left. */
  lemma HugeLeftoverMisreports(rest: seq<byte>)
    ensures var s := ChunkGrammar.EMPTY_BODY + rest;
            var r := Run(Start(false), s);
            && r.Complete? && r.used == 3
            && (|rest| == 0xFFFF_FFFE ==> ToStatus(|s| - r.used) == STATUS_INCOMPLETE)
            && (|rest| == 0xFFFF_FFFF ==> ToStatus(|s| - r.used) == STATUS_ERROR)
            && (|rest| == 0x1_0000_0000 ==> ToStatus(|s| - r.used) == 0)
  {
    hide Run;
    EveryLeftoverHappens(rest);
  }

  /** memmove of n octets towards the front; source and destination may overlap. What follows
      the source, up to any bound, and what precedes the destination stay put. */
  method MoveDown(buf: array<byte>, dst: nat, src: nat, n: nat, ghost avail: nat)
    requires dst <= src && src + n <= avail <= buf.Length
    modifies buf
    ensures buf[..dst] == old(buf[..dst])
    ensures buf[dst..dst + n] == old(buf[src..src + n])
    ensures buf[src + n..avail] == old(buf[src + n..avail])
    ensures buf[avail..] == old(buf[avail..])
  {
    ghost var was := buf[..];
    ghost var now := was[..dst] + was[src..src + n] + was[dst + n..];
    forall k | dst <= k < dst + n {
      buf[k] := buf[k - dst + src];
    }
    assert buf[..] == now;
    assert buf[src + n..avail] == now[src + n..avail] == was[src + n..avail];
    assert buf[avail..] == now[avail..] == was[avail..];
    assert buf[dst..dst + n] == now[dst..dst + n] == was[src..src + n];
    assert buf[..dst] == now[..dst];
  }

  class Chunked {
    var state: State
    var bytesLeft: nat
    var totalDecoded: nat
    var hexCount: nat
    var consumeTrailer: bool

    ghost predicate Valid()
      reads this
    {
      Sound(Value())
    }

    function Value(): Decoder
      reads this
    {
      Decoder(state, bytesLeft, totalDecoded, hexCount, consumeTrailer)
    }

    /** Zero-initialised apart from the trailer choice. */
    constructor (consumeTrailer: bool)
      ensures Valid() && Value() == Start(consumeTrailer)
    {
      state, bytesLeft, totalDecoded, hexCount := Size, 0, 0, 0;
      this.consumeTrailer := consumeTrailer;
    }

    /** All states but Size, Data and Finished: look at one octet. The size accumulator is not
        involved. */
    method Frame(c: byte) returns (refused: bool, completed: bool)
      requires Valid()
      requires state != Size && state != Data && state != Finished
      modifies `state, `hexCount, `bytesLeft
      ensures match StepByte(old(Value()), c)
              case Took(d, o) => !refused && !completed && Value() == d && o == []
              case Refused(d) => refused && Value() == d
              case Completed(d) => !refused && completed && Value() == d
    {
      refused, completed := false, false;
      match state {
        case Ext =>
          if c == CR {
            state := SizeLf;
          } else if c == LF {
            refused := true;
          }
        case SizeLf =>
          if c != LF {
            refused := true;
          } else if bytesLeft == 0 {
            if consumeTrailer {
              hexCount := TRAILER_LINE_START;
              state := Trailer;
            } else {
              state := Finished;
              completed := true;
            }
          } else {
            state := Data;
          }
        case DataCr =>
          if c != CR {
            refused := true;
          } else {
            state := DataLf;
          }
        case DataLf =>
          if c != LF {
            refused := true;
          } else {
            hexCount := 0;
            bytesLeft := 0;
            state := Size;
          }
        case Trailer =>
          if hexCount == TRAILER_LINE_START {
            if c == CR {
              hexCount := TRAILER_DONE_LF;
            } else if c == LF {
              refused := true;
            } else {
              hexCount := TRAILER_LINE;
            }
          } else if hexCount == TRAILER_DONE_LF {
            if c != LF {
              refused := true;
            } else {
              state := Finished;
              completed := true;
            }
          } else if hexCount == TRAILER_LINE {
            if c == CR {
              hexCount := TRAILER_LINE_LF;
            } else if c == LF {
              refused := true;
            }
          } else if hexCount == TRAILER_LINE_LF {
            if c != LF {
              refused := true;
            } else {
              hexCount := TRAILER_LINE_START;
            }
          } else {
            refused := true;
          }
      }
    }

    /** A size digit, an extension or the end of the size line. The accumulator is a 64-bit word;
        sixteen digits never make it wrap. */
    method SizeOctet(c: byte) returns (refused: bool)
      requires Valid() && state == Size
      modifies `state, `hexCount, `bytesLeft
      ensures match StepByte(old(Value()), c)
              case Took(d, o) => !refused && Value() == d && o == []
              case Refused(d) => refused && Value() == d
              case Completed(_) => false
    {
      SoundStep(Value(), c);
      hide Sound;
      if IsHex(c) {
        if hexCount >= 16 {
          return true;
        }
        bytesLeft := (bytesLeft * 16 + HexDigit(c)) % TWO_TO_THE_64;
        hexCount := hexCount + 1;
      } else if c == SEMICOLON {
        state := Ext;
      } else if c == CR {
        if hexCount == 0 {
          return true;
        }
        state := SizeLf;
      } else {
        return true;
      }
      return false;
    }

    /** One octet of anything but chunk data. */
    method Octet(c: byte) returns (refused: bool, completed: bool)
      requires Valid() && state != Data && state != Finished
      modifies `state, `hexCount, `bytesLeft
      ensures Valid()
      ensures match StepByte(old(Value()), c)
              case Took(d, o) => !refused && !completed && Value() == d && o == []
              case Refused(d) => refused && Value() == d
              case Completed(d) => !refused && completed && Value() == d
    {
      SoundStep(Value(), c);
      completed := false;
      if state == Size {
        refused := SizeOctet(c);
      } else {
        refused, completed := Frame(c);
      }
    }

    /** As much chunk data as there is moves to dst in one overlapping copy. */
    method CopyData(buf: array<byte>, dst: nat, src: nat, avail: nat) returns (n: nat)
      requires Valid() && state == Data
      requires dst <= src < avail <= buf.Length
      modifies `state, `bytesLeft, `totalDecoded, buf
      ensures Valid()
      ensures 0 < n <= old(bytesLeft) && src + n <= avail && old(totalDecoded) < TWO_TO_THE_64
      ensures Value() == AfterData(old(Value()), n)
      ensures buf[..dst + n] == old(buf[..dst]) + old(buf[src..src + n])
      ensures buf[src + n..avail] == old(buf[src + n..avail])
      ensures buf[avail..] == old(buf[avail..])
    {
      hide Sound;
      n := avail - src;
      if n > bytesLeft {
        n := bytesLeft;
      }
      SoundData(Value(), n);
      MoveDown(buf, dst, src, n, avail);
      assert buf[..dst + n] == buf[..dst] + buf[dst..dst + n];
      bytesLeft := bytesLeft - n;
      totalDecoded := (totalDecoded + n) % TWO_TO_THE_64;
      if bytesLeft == 0 {
        state := DataCr;
      }
    }

    /** Moves the unread octets behind the payload and reports how many they are. */
    method Finish(buf: array<byte>, dst: nat, src: nat, avail: nat) returns (status: int)
      requires dst <= src <= avail <= buf.Length
      modifies buf
      ensures status == ToStatus(avail - src)
      ensures buf[..dst] == old(buf[..dst])
      ensures buf[dst..dst + (avail - src)] == old(buf[src..avail])
      ensures buf[avail..] == old(buf[avail..])
    {
      MoveDown(buf, dst, src, avail - src, avail);
      status := ToStatus(avail - src);
    }

    /** A round that moves chunk data. */
    method DataRound(buf: array<byte>, dst: nat, src: nat, avail: nat)
      returns (dst': nat, src': nat, ghost piece: seq<byte>)
      requires Valid() && state == Data && dst <= src < avail <= buf.Length
      modifies this, buf
      ensures Valid()
      ensures buf[avail..] == old(buf[avail..])
      ensures src < src' <= avail && dst' == dst + |piece| <= src'
      ensures buf[..dst'] == old(buf[..dst]) + piece
      ensures buf[src'..avail] == old(buf[src'..avail])
      ensures Run(old(Value()), old(buf[src..avail])) == Prepend(piece, src' - src, Run(Value(), buf[src'..avail]))
    {
      hide StepByte, Sound, AfterData, Run;
      ghost var d := Value();
      ghost var rest := buf[src..avail];
      var n := CopyData(buf, dst, src, avail);
      RunData(d, rest, n);
      assert rest[n..] == old(buf[src + n..avail]);
      piece := rest[..n];
      assert piece == old(buf[src..src + n]);
      src', dst' := src + n, dst + n;
    }

    /** One round of the loop: a run of payload, one octet, or the end of the call, in which case
        dst' is the size to report. */
    method Round(buf: array<byte>, dst: nat, src: nat, avail: nat)
      returns (over: bool, status: int, dst': nat, src': nat, ghost piece: seq<byte>)
      requires Valid() && dst <= src < avail <= buf.Length
      modifies this, buf
      ensures Valid()
      ensures buf[avail..] == old(buf[avail..])
      ensures !over ==>
                && src < src' <= avail && dst' == dst + |piece| <= src'
                && buf[..dst'] == old(buf[..dst]) + piece
                && buf[src'..avail] == old(buf[src'..avail])
                && Run(old(Value()), old(buf[src..avail])) == Prepend(piece, src' - src, Run(Value(), buf[src'..avail]))
      ensures over ==>
                && Value() == Run(old(Value()), old(buf[src..avail])).d
                && match Run(old(Value()), old(buf[src..avail]))
                   case Need(_, _) => false
                   case Bad(_, o, u) =>
                     status == STATUS_ERROR && dst' == avail && o == [] && u == 0 && buf[..] == old(buf[..])
                   case Complete(_, o, u) =>
                     && dst' == dst && o == [] && src + u <= avail && status == ToStatus(avail - src - u)
                     && buf[..dst] == old(buf[..dst])
                     && buf[dst..dst + (avail - src - u)] == old(buf[src + u..avail])
    {
      hide StepByte, Sound, AfterData, Run, ToStatus;
      ghost var d := Value();
      ghost var rest := buf[src..avail];
      assert rest[0] == buf[src] && rest[1..] == buf[src + 1..avail];
      over, status, dst', src', piece := false, STATUS_INCOMPLETE, dst, src, [];
      RunStops(d, rest);
      if state == Finished {
        status := Finish(buf, dst, src, avail);
        over := true;
      } else if state == Data {
        dst', src', piece := DataRound(buf, dst, src, avail);
      } else {
        var refused, completed := Octet(buf[src]);
        if refused {
          over, status, dst' := true, STATUS_ERROR, avail;
        } else if completed {
          status := Finish(buf, dst, src + 1, avail);
          over := true;
        } else {
          RunTook(d, rest);
          src' := src + 1;
        }
      }
    }

    /** One call on the first `avail` octets of buf. Payload ends up in front; on completion the
        octets after the body follow it unchanged; on an error the size stays as it was; octets
        beyond `avail` are never touched. */
    method Decode(buf: array<byte>, avail: nat) returns (status: int, size: nat)
      requires Valid() && avail <= buf.Length
      modifies this, buf
      ensures Valid()
      ensures Value() == Run(old(Value()), old(buf[..avail])).d
      ensures size <= avail
      ensures match Run(old(Value()), old(buf[..avail]))
              case Need(_, out) =>
                status == STATUS_INCOMPLETE && size == |out| && buf[..size] == out
              case Bad(_, out, used) =>
                status == STATUS_ERROR && size == avail && used <= avail && |out| <= used
                && buf[..|out|] == out && buf[used..avail] == old(buf[used..avail])
              case Complete(_, out, used) =>
                used <= avail && status == ToStatus(avail - used) && size == |out| <= used
                && buf[..size] == out && buf[size..size + (avail - used)] == old(buf[used..avail])
      ensures buf[avail..] == old(buf[avail..])
    {
      hide StepByte, Sound, Run, ToStatus;
      ghost var input := buf[..avail];
      ghost var d0 := Value();
      ghost var out := [];
      var src, dst := 0, 0;
      PrependNothing(Run(d0, input));
      while src < avail
        invariant 0 <= dst <= src <= avail
        invariant Valid()
        invariant Run(d0, input) == Prepend(out, src, Run(Value(), buf[src..avail]))
        invariant buf[..dst] == out && buf[src..avail] == input[src..]
        invariant buf[avail..] == old(buf[avail..])
        decreases avail - src
      {
        ghost var r := Run(Value(), buf[src..avail]);
        ghost var rest := buf[src..avail];
        var over, st, dst', src', piece := Round(buf, dst, src, avail);
        if over {
          assert out + [] == out;
          assert r.Complete? ==> input[src + r.used..] == rest[r.used..];
          assert r.Bad? ==> buf[..dst] == out && buf[src..avail] == rest;
          return st, dst';
        }
        PrependPrepend(out, src, piece, src' - src, Run(Value(), buf[src'..avail]));
        assert buf[src'..avail] == input[src'..];
        out := out + piece;
        src, dst := src', dst';
      }
      RunStops(Value(), buf[src..avail]);
      return STATUS_INCOMPLETE, dst;
    }
  }
}
