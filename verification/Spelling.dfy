/** Octets spelled as text: the constants and character tables of the other modules, letter by
    letter. */
module Spelling {
  import opened Bytes

  /** The octets of an ASCII text. */
  function Ascii(t: string): (r: seq<byte>)
    ensures |r| == |t|
    ensures forall k :: 0 <= k < |t| ==> r[k] == t[k] as int % 256
  {
    seq(|t|, k requires 0 <= k < |t| => (t[k] as int % 256) as byte)
  }

  const DIGITS := "0123456789"
  const LOWER := "abcdefghijklmnopqrstuvwxyz"
  const UPPER := "ABCDEFGHIJKLMNOPQRSTUVWXYZ"
  const MARKS := "!#$%&'*+-.^_`|~"

  lemma DigitAt(i: nat)
    requires i < 10
    ensures DIGITS[i] as int == 48 + i
  {
  }

  lemma LetterAt(i: nat)
    requires i < 26
    ensures LOWER[i] as int == 97 + i && UPPER[i] as int == 65 + i
  {
  }

  lemma MarkAt(c: byte)
    ensures c in Ascii(MARKS) <==>
            c == 33 || 35 <= c <= 39 || c == 42 || c == 43 || c == 45 || c == 46
            || c == 94 || c == 95 || c == 96 || c == 124 || c == 126
  {
    assert Ascii(MARKS) == [33, 35, 36, 37, 38, 39, 42, 43, 45, 46, 94, 95, 96, 124, 126];
  }

  lemma DigitChars(c: byte)
    ensures IsDigit(c) <==> c in Ascii(DIGITS)
    ensures forall i :: 0 <= i < 10 ==> Digit(Ascii(DIGITS)[i]) == i
  {
    forall i: nat | i < 10
      ensures Ascii(DIGITS)[i] == 48 + i
    {
      DigitAt(i);
    }
    if IsDigit(c) {
      assert Ascii(DIGITS)[c - 48] == c;
    }
  }

  lemma LetterChars(c: byte)
    ensures 97 <= c <= 122 <==> c in Ascii(LOWER)
    ensures 65 <= c <= 90 <==> c in Ascii(UPPER)
  {
    forall i: nat | i < 26
      ensures Ascii(LOWER)[i] == 97 + i && Ascii(UPPER)[i] == 65 + i
    {
      LetterAt(i);
    }
    if 97 <= c <= 122 {
      assert Ascii(LOWER)[c - 97] == c;
    }
    if 65 <= c <= 90 {
      assert Ascii(UPPER)[c - 65] == c;
    }
  }

  lemma TokenChars(c: byte)
    ensures IsTokenChar(c) <==>
            c in Ascii(DIGITS) || c in Ascii(LOWER) || c in Ascii(UPPER) || c in Ascii(MARKS)
  {
    DigitChars(c);
    LetterChars(c);
    MarkAt(c);
  }

  lemma PunctuationSpelled()
    ensures [CR, LF] == Ascii("\r\n") && [SP, HTAB] == Ascii(" \t")
    ensures [COMMA, COLON, SEMICOLON] == Ascii(",:;") && DEL == 127
  {
  }

  // ----- names in any case

  /** The octet is the letter, in either case, or the character itself. */
  ghost predicate SameLetter(c: byte, x: char) {
    c == x as int || exists i: nat :: i < 26 && x == LOWER[i] && c == UPPER[i] as int
  }

  /** The octets are the name, whatever the case of its letters. The name is in lower case. */
  ghost predicate AnyCase(t: seq<byte>, name: string) {
    |t| == |name| && forall k :: 0 <= k < |t| ==> SameLetter(t[k], name[k])
  }

  /** No upper-case letter and nothing outside ASCII. */
  predicate LowerCase(name: string) {
    forall k :: 0 <= k < |name| ==> (name[k] as int < 128 && !(65 <= name[k] as int <= 90))
  }

  lemma LetterOfEitherCase(c: byte, x: char)
    requires x as int < 128 && !(65 <= x as int <= 90)
    ensures SameLetter(c, x) <==> c == x as int || (97 <= x as int <= 122 && c == x as int - 32)
  {
    if i: nat :| i < 26 && x == LOWER[i] && c == UPPER[i] as int {
      LetterAt(i);
    }
    if 97 <= x as int <= 122 && c == x as int - 32 {
      var i := x as int - 97;
      LetterAt(i);
      assert x == LOWER[i] && c == UPPER[i] as int;
    }
  }
}
