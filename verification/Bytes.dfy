/** Octets, character classes and the few sequence searches every layer shares. */
module Bytes {

  type byte = b: int | 0 <= b < 256

  const HTAB: byte := 9
  const LF: byte := 10
  const CR: byte := 13
  const SP: byte := 32
  const COMMA: byte := 44
  const COLON: byte := 58
  const SEMICOLON: byte := 59
  const DEL: byte := 127

  const CRLF: seq<byte> := [CR, LF]

  const TWO_TO_THE_64: int := 0x1_0000_0000_0000_0000

  predicate IsDigit(c: byte) {
    48 <= c <= 57
  }

  /** Value of a decimal digit. */
  function Digit(c: byte): int {
    (c as int) - 48
  }

  predicate IsLws(c: byte) {
    c == SP || c == HTAB
  }

  /** tchar of RFC 9110 section 5.6.2: DIGIT, ALPHA and fifteen punctuation marks. */
  predicate IsTokenChar(c: byte) {
    || 48 <= c <= 57 || 65 <= c <= 90 || 97 <= c <= 122
    || c == 33 || 35 <= c <= 39 || c == 42 || c == 43 || c == 45 || c == 46
    || c == 94 || c == 95 || c == 96 || c == 124 || c == 126
  }

  /** Octets allowed in a field value or reason phrase. */
  predicate IsText(c: byte) {
    c == HTAB || (SP <= c && c != DEL)
  }

  /** Octets allowed in a request-target. */
  predicate IsTarget(c: byte, allowSpaces: bool) {
    (c == SP && allowSpaces) || (SP < c && c != DEL)
  }

  predicate AllToken(s: seq<byte>, from: nat, end: nat)
    requires from <= end <= |s|
  {
    forall k :: from <= k < end ==> IsTokenChar(s[k])
  }

  predicate AllText(s: seq<byte>, from: nat, end: nat)
    requires from <= end <= |s|
  {
    forall k :: from <= k < end ==> IsText(s[k])
  }

  predicate AllTarget(s: seq<byte>, from: nat, end: nat, allowSpaces: bool)
    requires from <= end <= |s|
  {
    forall k :: from <= k < end ==> IsTarget(s[k], allowSpaces)
  }

  /** First offset of c in s[from..end], or `end`: what memchr finds. */
  function Find(s: seq<byte>, from: nat, end: nat, c: byte): (r: nat)
    requires from <= end <= |s|
    ensures from <= r <= end
    ensures r < end ==> s[r] == c
    ensures forall k :: from <= k < r ==> s[k] != c
    decreases end - from
  {
    if from == end || s[from] == c then from else Find(s, from + 1, end, c)
  }

  /** One past the last offset of c in s[from..end], or `from`: what memrchr finds. */
  function FindLast(s: seq<byte>, from: nat, end: nat, c: byte): (r: nat)
    requires from <= end <= |s|
    ensures from <= r <= end
    ensures r > from ==> s[r - 1] == c
    ensures forall k :: r <= k < end ==> s[k] != c
    decreases end - from
  {
    if from == end || s[end - 1] == c then end else FindLast(s, from, end - 1, c)
  }

  /** First offset in s[from..end] that is not horizontal whitespace. */
  function SkipLws(s: seq<byte>, from: nat, end: nat): (r: nat)
    requires from <= end <= |s|
    ensures from <= r <= end
    ensures r < end ==> !IsLws(s[r])
    ensures forall k :: from <= k < r ==> IsLws(s[k])
    decreases end - from
  {
    if from == end || !IsLws(s[from]) then from else SkipLws(s, from + 1, end)
  }

  /** Smallest r such that s[r..end] is horizontal whitespace only. */
  function TrimLws(s: seq<byte>, from: nat, end: nat): (r: nat)
    requires from <= end <= |s|
    ensures from <= r <= end
    ensures r > from ==> !IsLws(s[r - 1])
    ensures forall k :: r <= k < end ==> IsLws(s[k])
    decreases end - from
  {
    if from == end || !IsLws(s[end - 1]) then end else TrimLws(s, from, end - 1)
  }

  /** memchr as a scan. */
  method MemChr(s: seq<byte>, from: nat, end: nat, c: byte) returns (r: nat)
    requires from <= end <= |s|
    ensures r == Find(s, from, end, c)
  {
    r := from;
    while r < end && s[r] != c
      invariant from <= r <= end
      invariant Find(s, from, end, c) == Find(s, r, end, c)
    {
      r := r + 1;
    }
  }
}
