/** Numbers as they are written: the digits of a number in any base from a literal alphabet, and why
    the size line of a chunk and a Content-Length are read as the numbers they spell. */
module Numbers {
  import opened Bytes
  import opened Spelling
  import opened SemanticsSpec
  import opened ChunkSpec
  import opened ChunkGrammar

  /** The octets spell n: every digit is the one at its value in one of two alphabets, and leading
      zeros are allowed. */
  ghost predicate Spells(digits: seq<byte>, n: nat, base: nat, small: string, large: string)
    requires 2 <= base <= |small| && base <= |large|
  {
    if digits == [] then n == 0
    else
      var last := digits[|digits| - 1];
      && Spells(digits[..|digits| - 1], n / base, base, small, large)
      && (last == Ascii(small)[n % base] || last == Ascii(large)[n % base])
  }

  const HEX_SMALL := "0123456789abcdef"
  const HEX_LARGE := "0123456789ABCDEF"

  ghost predicate SpellsHex(digits: seq<byte>, n: nat) {
    Spells(digits, n, 16, HEX_SMALL, HEX_LARGE)
  }

  ghost predicate SpellsDecimal(digits: seq<byte>, n: nat) {
    Spells(digits, n, 10, DIGITS, DIGITS)
  }

  lemma QuotientSmaller(n: nat, base: nat)
    requires 2 <= base
    ensures 0 <= n % base < base
    ensures if n < base then n / base == 0 else n / base < n
  {
    var q := n / base;
    assert n == q * base + n % base;
    Doubles(q, base);
  }

  lemma Doubles(q: nat, base: nat)
    requires 2 <= base
    ensures q * base >= q * 2
    ensures q > 0 ==> q * base >= base
  {
  }

  /** The shortest form of n. */
  function Written(n: nat, base: nat, alphabet: string): (digits: seq<byte>)
    requires 2 <= base <= |alphabet|
    ensures digits != []
  {
    QuotientSmaller(n, base);
    (if n < base then [] else Written(n / base, base, alphabet)) + [Ascii(alphabet)[n % base]]
  }

  lemma SpellsSnoc(init: seq<byte>, c: byte, n: nat, base: nat, small: string, large: string)
    requires 2 <= base <= |small| && base <= |large|
    requires Spells(init, n / base, base, small, large)
    requires c == Ascii(small)[n % base] || c == Ascii(large)[n % base]
    ensures Spells(init + [c], n, base, small, large)
  {
    hide Ascii;
    assert (init + [c])[..|init|] == init;
  }

  /** It spells n in its alphabet. */
  lemma {:induction false} WrittenSpells(n: nat, base: nat, alphabet: string, small: string, large: string)
    requires 2 <= base <= |small| && base <= |large| && (alphabet == small || alphabet == large)
    ensures Spells(Written(n, base, alphabet), n, base, small, large)
    decreases n
  {
    hide Spells, Ascii;
    QuotientSmaller(n, base);
    if n >= base {
      WrittenSpells(n / base, base, alphabet, small, large);
      SpellsSnoc(Written(n / base, base, alphabet), Ascii(alphabet)[n % base], n, base, small, large);
    } else {
      SpellsNothing(base, small, large);
      SpellsSnoc([], Ascii(alphabet)[n % base], n, base, small, large);
    }
  }

  lemma SpellsNothing(base: nat, small: string, large: string)
    requires 2 <= base <= |small| && base <= |large|
    ensures Spells([], 0, base, small, large)
  {
  }

  // ----- hexadecimal

  lemma HexSmallAt(v: nat)
    requires v < 16
    ensures Ascii(HEX_SMALL)[v] == if v < 10 then 48 + v else 87 + v
  {
  }

  lemma HexLargeAt(v: nat)
    requires v < 16
    ensures Ascii(HEX_LARGE)[v] == if v < 10 then 48 + v else 55 + v
  {
  }

  /** A hexadecimal digit is worth its place in the alphabet, in either case. */
  lemma HexDigitValue(c: byte, v: nat)
    requires v < 16
    ensures c == Ascii(HEX_SMALL)[v] || c == Ascii(HEX_LARGE)[v] <==> IsHex(c) && HexDigit(c) == v
  {
    HexSmallAt(v);
    HexLargeAt(v);
  }

  lemma DivMod16(n: nat, q: nat, r: nat)
    requires r < 16
    ensures n == q * 16 + r <==> n / 16 == q && n % 16 == r
  {
  }

  lemma DivMod10(n: nat, q: nat, r: nat)
    requires r < 10
    ensures n == q * 10 + r <==> n / 10 == q && n % 10 == r
  {
  }

  /** The decoder and its grammar read a digit string as n exactly when it spells n. */
  lemma {:induction false} HexValueSpells(digits: seq<byte>, n: nat)
    ensures AllHex(digits) && HexValue(digits) == n <==> SpellsHex(digits, n)
    decreases |digits|
  {
    hide HexDigit, IsHex, Ascii;
    if digits != [] {
      var init, c := digits[..|digits| - 1], digits[|digits| - 1];
      HexValueSpells(init, n / 16);
      HexDigitValue(c, n % 16);
      HexLast(digits);
      if AllHex(digits) {
        DivMod16(n, HexValue(init), HexDigit(c));
      }
    }
  }

  lemma HexLast(digits: seq<byte>)
    requires digits != []
    ensures var init, c := digits[..|digits| - 1], digits[|digits| - 1];
            && (AllHex(digits) <==> AllHex(init) && IsHex(c))
            && (AllHex(digits) ==> HexValue(digits) == HexValue(init) * 16 + HexDigit(c))
  {
    hide IsHex, HexDigit;
    var init, c := digits[..|digits| - 1], digits[|digits| - 1];
    assert digits == init + [c];
    assert forall k :: 0 <= k < |init| ==> init[k] == digits[k];
  }

  /** Sixteen digits are enough for every size of 64 bits. */
  lemma {:induction false} WrittenIsShort(n: nat, k: nat, alphabet: string)
    requires 16 <= |alphabet| && n < Pow16(k + 1)
    ensures |Written(n, 16, alphabet)| <= k + 1
    decreases k
  {
    if n >= 16 && k > 0 {
      assert Pow16(k + 1) == 16 * Pow16(k);
      WrittenIsShort(n / 16, k - 1, alphabet);
    }
  }

  lemma SizesFit(n: nat)
    requires n < 0x1_0000_0000_0000_0000
    ensures |Written(n, 16, HEX_SMALL)| <= 16 && |Written(n, 16, HEX_LARGE)| <= 16
    ensures SpellsHex(Written(n, 16, HEX_SMALL), n) && SpellsHex(Written(n, 16, HEX_LARGE), n)
  {
    Pow16Of16();
    WrittenIsShort(n, 15, HEX_SMALL);
    WrittenIsShort(n, 15, HEX_LARGE);
    WrittenSpells(n, 16, HEX_SMALL, HEX_SMALL, HEX_LARGE);
    WrittenSpells(n, 16, HEX_LARGE, HEX_SMALL, HEX_LARGE);
  }

  /** A chunk whose size line spells the length of its data, in up to sixteen digits of any case with
      leading zeros or without, is consumed with exactly that data, and the decoder is ready for the
      next size line. */
  lemma ChunkBySize(d: Decoder, digits: seq<byte>, data: seq<byte>)
    requires d.state == Size && d.hexCount == 0 && d.left == 0 && d.total < TWO_TO_THE_64
    requires 0 < |digits| <= 16 && SpellsHex(digits, |data|) && data != []
    ensures var r := Run(d, digits + Ascii("\r\n") + data + Ascii("\r\n"));
            r.Need? && r.out == data && r.d == d.(total := r.d.total)
  {
    hide Run, Ascii, HexValue, SpellsHex, AllHex, ValidChunk, ChunkWire;
    PunctuationSpelled();
    var c := SpelledChunk(digits, data);
    WholeChunk(d, c, digits + CRLF + data + CRLF);
  }

  lemma WholeChunk(d: Decoder, c: Chunk, wire: seq<byte>)
    requires d.state == Size && d.hexCount == 0 && d.left == 0 && d.total < TWO_TO_THE_64
    requires ValidChunk(c) && wire == ChunkWire(c)
    ensures var r := Run(d, wire); r.Need? && r.out == c.data && r.d == d.(total := r.d.total)
  {
    RunChunk(d, c);
  }

  lemma SpelledChunk(digits: seq<byte>, data: seq<byte>) returns (c: Chunk)
    requires 0 < |digits| <= 16 && SpellsHex(digits, |data|) && data != []
    ensures ValidChunk(c) && c == Chunk(SizeLine(digits, []), data)
    ensures ChunkWire(c) == digits + CRLF + data + CRLF
  {
    hide HexValue, SpellsHex, AllHex;
    HexValueSpells(digits, |data|);
    c := Chunk(SizeLine(digits, []), data);
    assert SizeWire(c.size) == digits;
  }

  /** After a size line that spells n > 0 the decoder waits for exactly n octets. */
  lemma SizeLineSpells(digits: seq<byte>, n: nat, consumeTrailer: bool)
    requires 0 < |digits| <= 16 && SpellsHex(digits, n) && n > 0
    ensures Run(Start(consumeTrailer), digits + Ascii("\r\n"))
            == Need(Decoder(Data, n, 0, |digits|, consumeTrailer), [])
  {
    hide Run, Ascii, HexValue, SpellsHex, AllHex;
    PunctuationSpelled();
    HexValueSpells(digits, n);
    var z := SizeLine(digits, []);
    assert SizeWire(z) == digits;
    var d0 := Start(consumeTrailer);
    var d1 := RunSizeCr(d0, z);
    RunOne(d1, LF);
    var d2 := Decoder(Data, n, 0, |digits|, consumeTrailer);
    RunMore(d0, digits + [CR], [LF], d1, [], d2, []);
    assert digits + [CR] + [LF] == digits + CRLF;
  }

  /** A size line of more than sixteen digits is refused, whatever it spells. */
  lemma LongSizeRefused(digits: seq<byte>, rest: seq<byte>, consumeTrailer: bool)
    requires |digits| > 16 && AllHex(digits)
    ensures Run(Start(consumeTrailer), digits + rest).Bad?
  {
    hide Run, HexValue;
    var d0 := Start(consumeTrailer);
    var front, c := digits[..16], digits[16];
    RunDigits(d0, front);
    var d1 := d0.(left := HexValue(front), hexCount := 16);
    var later := digits[16..] + rest;
    RunStops(d1, later);
    RunSplit(d0, front, later);
    assert digits + rest == front + later;
  }

  /** One chunk and the end of the body, with anything behind it. */
  lemma OneChunkBody(digits: seq<byte>, data: seq<byte>, rest: seq<byte>)
    requires 0 < |digits| <= 16 && SpellsHex(digits, |data|) && data != []
    ensures var s := digits + Ascii("\r\n") + data + Ascii("\r\n") + Ascii("0\r\n\r\n");
            var r := Run(Start(true), s + rest);
            r.Complete? && r.out == data && r.used == |s|
  {
    hide Run, HexValue, SpellsHex, AllHex, Ascii, ValidChunk, ChunkWire;
    PunctuationSpelled();
    var c := SpelledChunk(digits, data);
    LastSpelled();
    var e := Encoding([c], SizeLine([48], []), []);
    OneChunkWire(c, e);
    SentenceCompletes(e, true, rest);
  }

  lemma LastSpelled()
    ensures Ascii("0\r\n\r\n") == [48] + CRLF + CRLF
    ensures AllHex([48]) && HexValue([48]) == 0
  {
    assert HexValue([48]) == HexValue([]) * 16 + HexDigit(48);
  }

  lemma OneChunkWire(c: Chunk, e: Encoding)
    requires e == Encoding([c], SizeLine([48], []), [])
    ensures Wire(e, true) == ChunkWire(c) + ([48] + CRLF + CRLF)
    ensures Payload(e.chunks) == c.data
  {
    hide ChunkWire;
    assert [c][..0] == [];
    assert ChunksWire([c]) == [] + ChunkWire(c);
    assert Payload([c]) == [] + c.data;
    assert SizeWire(e.last) == [48];
  }

  // ----- decimal

  lemma DecimalDigitValue(c: byte, v: nat)
    requires v < 10
    ensures c == Ascii(DIGITS)[v] <==> IsDigit(c) && Digit(c) == v
  {
    DigitAt(v);
  }

  /** A digit string is read as n exactly when it spells n. */
  lemma {:induction false} DecimalValueSpells(digits: seq<byte>, n: nat)
    ensures AllDigits(digits) && DecimalValue(digits) == n <==> SpellsDecimal(digits, n)
    decreases |digits|
  {
    hide Ascii, Digit, IsDigit;
    if digits != [] {
      var init, c := digits[..|digits| - 1], digits[|digits| - 1];
      DecimalValueSpells(init, n / 10);
      DecimalDigitValue(c, n % 10);
      DecimalLast(digits);
      if AllDigits(digits) {
        DigitBounds(c);
        DivMod10(n, DecimalValue(init), Digit(c));
      }
    }
  }

  lemma DigitBounds(c: byte)
    requires IsDigit(c)
    ensures 0 <= Digit(c) < 10
  {
  }

  lemma DecimalLast(digits: seq<byte>)
    requires digits != []
    ensures var init, c := digits[..|digits| - 1], digits[|digits| - 1];
            && (AllDigits(digits) <==> AllDigits(init) && IsDigit(c))
            && (AllDigits(digits) ==> DecimalValue(digits) == DecimalValue(init) * 10 + Digit(c))
  {
    hide IsDigit, Digit;
    var init, c := digits[..|digits| - 1], digits[|digits| - 1];
    assert digits == init + [c];
    assert forall k :: 0 <= k < |init| ==> init[k] == digits[k];
  }

  /** A Content-Length value is accepted exactly when it spells a number of 64 bits. */
  lemma LengthSpells(v: seq<byte>)
    ensures ValidLength(v) <==> v != [] && exists n: nat :: n < 0x1_0000_0000_0000_0000 && SpellsDecimal(v, n)
    ensures forall n: nat :: SpellsDecimal(v, n) ==> AllDigits(v) && DecimalValue(v) == n
  {
    hide AllDigits, DecimalValue, SpellsDecimal;
    forall n: nat
      ensures AllDigits(v) && DecimalValue(v) == n <==> SpellsDecimal(v, n)
    {
      DecimalValueSpells(v, n);
    }
    if AllDigits(v) {
      assert SpellsDecimal(v, DecimalValue(v));
    }
  }
}
