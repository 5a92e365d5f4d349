/** The word-at-a-time validators of the head parser. A 64-bit word is tested for
    offending octets by one subtraction per class; the lemmas show that the borrow
    masks are exact, whatever the byte order in which the word was loaded. */
module Words {
  import opened Bytes

  /** Marks octets below n; exact only when the result is tested against zero. */
  function LowMask(w: bv64, n: bv64): bv64 {
    (w - (0x0101010101010101 * n)) & !w & 0x8080808080808080
  }

  /** Marks octets equal to DEL. */
  function DelMask(w: bv64): bv64 {
    var d := w ^ (0x0101010101010101 * 0x7f);
    (d - 0x0101010101010101) & !d & 0x8080808080808080
  }

  /** The octet as an eight-bit vector; OctetValue states what it is. */
  function Octet(x: byte): bv8 {
    if x == 0 then 0 else Octet(x - 1) + 1
  }

  lemma {:induction false} OctetValue(x: byte)
    ensures Octet(x) as int == x
  {
    if x > 0 {
      OctetValue(x - 1);
    }
  }

  /** Eight octets as a number, least significant first. */
  function Pack(b0: bv8, b1: bv8, b2: bv8, b3: bv8, b4: bv8, b5: bv8, b6: bv8, b7: bv8): bv64 {
    (b0 as bv64) | ((b1 as bv64) << 8) | ((b2 as bv64) << 16) | ((b3 as bv64) << 24)
    | ((b4 as bv64) << 32) | ((b5 as bv64) << 40) | ((b6 as bv64) << 48) | ((b7 as bv64) << 56)
  }

  function PackBytes(x0: byte, x1: byte, x2: byte, x3: byte, x4: byte, x5: byte, x6: byte, x7: byte): bv64 {
    Pack(Octet(x0), Octet(x1), Octet(x2), Octet(x3), Octet(x4), Octet(x5), Octet(x6), Octet(x7))
  }

  /** The eight octets at offset p read as one machine word. */
  function Load(s: seq<byte>, p: nat, littleEndian: bool): bv64
    requires p + 8 <= |s|
  {
    if littleEndian then
      PackBytes(s[p], s[p + 1], s[p + 2], s[p + 3], s[p + 4], s[p + 5], s[p + 6], s[p + 7])
    else
      PackBytes(s[p + 7], s[p + 6], s[p + 5], s[p + 4], s[p + 3], s[p + 2], s[p + 1], s[p])
  }

  /** The octet at bit position `shift`. */
  function Lane(w: bv64, shift: bv6): bv64 {
    (w >> shift) & 0xff
  }

  predicate CleanLane(b: bv64, n: bv64) {
    n <= b && b != 0x7f
  }

  /** The same test on a number. */
  predicate InRange(x: int, m: int) {
    m <= x && x != 0x7f
  }

  /** The two limits the parser uses, as a word and as a number. */
  predicate Limit(n: bv64, m: int) {
    (n == 0x20 && m == 0x20) || (n == 0x21 && m == 0x21)
  }

  /** No borrow is left in a marked position exactly when all eight octets are clean. */
  lemma MasksExact(w: bv64, n: bv64)
    requires n == 0x20 || n == 0x21
    ensures
      (LowMask(w, n) | DelMask(w)) == 0 <==>
      && CleanLane(Lane(w, 0), n) && CleanLane(Lane(w, 8), n)
      && CleanLane(Lane(w, 16), n) && CleanLane(Lane(w, 24), n)
      && CleanLane(Lane(w, 32), n) && CleanLane(Lane(w, 40), n)
      && CleanLane(Lane(w, 48), n) && CleanLane(Lane(w, 56), n)
  {
  }

  lemma PackLanes(b0: bv8, b1: bv8, b2: bv8, b3: bv8, b4: bv8, b5: bv8, b6: bv8, b7: bv8)
    ensures
      var w := Pack(b0, b1, b2, b3, b4, b5, b6, b7);
      && Lane(w, 0) == b0 as bv64 && Lane(w, 8) == b1 as bv64
      && Lane(w, 16) == b2 as bv64 && Lane(w, 24) == b3 as bv64
      && Lane(w, 32) == b4 as bv64 && Lane(w, 40) == b5 as bv64
      && Lane(w, 48) == b6 as bv64 && Lane(w, 56) == b7 as bv64
  {
  }

  lemma PackedExact(b0: bv8, b1: bv8, b2: bv8, b3: bv8, b4: bv8, b5: bv8, b6: bv8, b7: bv8, n: bv64)
    requires n == 0x20 || n == 0x21
    ensures
      var w := Pack(b0, b1, b2, b3, b4, b5, b6, b7);
      (LowMask(w, n) | DelMask(w)) == 0 <==>
      && CleanLane(b0 as bv64, n) && CleanLane(b1 as bv64, n)
      && CleanLane(b2 as bv64, n) && CleanLane(b3 as bv64, n)
      && CleanLane(b4 as bv64, n) && CleanLane(b5 as bv64, n)
      && CleanLane(b6 as bv64, n) && CleanLane(b7 as bv64, n)
  {
    MasksExact(Pack(b0, b1, b2, b3, b4, b5, b6, b7), n);
    PackLanes(b0, b1, b2, b3, b4, b5, b6, b7);
  }

  lemma LaneValue(b: bv8, n: bv64, m: int)
    requires Limit(n, m)
    ensures CleanLane(b as bv64, n) <==> InRange(b as int, m)
  {
  }

  /** An octet and its bit vector pass the test together. */
  predicate Agree(b: bv8, x: byte, n: bv64, m: int) {
    CleanLane(b as bv64, n) <==> InRange(x, m)
  }

  lemma OctetAgrees(x: byte, n: bv64, m: int)
    requires Limit(n, m)
    ensures Agree(Octet(x), x, n, m)
  {
    OctetValue(x);
    LaneValue(Octet(x), n, m);
  }

  lemma PackedInRange(b0: bv8, b1: bv8, b2: bv8, b3: bv8, b4: bv8, b5: bv8, b6: bv8, b7: bv8,
                      x: seq<byte>, n: bv64, m: int)
    requires |x| == 8 && Limit(n, m)
    requires Agree(b0, x[0], n, m) && Agree(b1, x[1], n, m) && Agree(b2, x[2], n, m) && Agree(b3, x[3], n, m)
    requires Agree(b4, x[4], n, m) && Agree(b5, x[5], n, m) && Agree(b6, x[6], n, m) && Agree(b7, x[7], n, m)
    ensures
      var w := Pack(b0, b1, b2, b3, b4, b5, b6, b7);
      (LowMask(w, n) | DelMask(w)) == 0 <==>
      && InRange(x[0], m) && InRange(x[1], m) && InRange(x[2], m) && InRange(x[3], m)
      && InRange(x[4], m) && InRange(x[5], m) && InRange(x[6], m) && InRange(x[7], m)
  {
    PackedExact(b0, b1, b2, b3, b4, b5, b6, b7, n);
  }

  lemma PackBytesExact(x0: byte, x1: byte, x2: byte, x3: byte, x4: byte, x5: byte, x6: byte, x7: byte,
                       n: bv64, m: int)
    requires Limit(n, m)
    ensures
      var w := PackBytes(x0, x1, x2, x3, x4, x5, x6, x7);
      (LowMask(w, n) | DelMask(w)) == 0 <==>
      && InRange(x0, m) && InRange(x1, m) && InRange(x2, m) && InRange(x3, m)
      && InRange(x4, m) && InRange(x5, m) && InRange(x6, m) && InRange(x7, m)
  {
    OctetAgrees(x0, n, m); OctetAgrees(x1, n, m); OctetAgrees(x2, n, m); OctetAgrees(x3, n, m);
    OctetAgrees(x4, n, m); OctetAgrees(x5, n, m); OctetAgrees(x6, n, m); OctetAgrees(x7, n, m);
    PackedInRange(Octet(x0), Octet(x1), Octet(x2), Octet(x3), Octet(x4), Octet(x5), Octet(x6), Octet(x7),
                  [x0, x1, x2, x3, x4, x5, x6, x7], n, m);
  }

  /** The two masks of a word are both zero exactly when no octet of the word is below the
      limit or DEL, for either byte order: the borrow of one octet into the next can only
      follow an octet that offends already. */
  lemma MaskExact(s: seq<byte>, p: nat, littleEndian: bool, n: bv64, m: int)
    requires p + 8 <= |s| && Limit(n, m)
    ensures
      var w := Load(s, p, littleEndian);
      (LowMask(w, n) | DelMask(w)) == 0 <==> forall k :: p <= k < p + 8 ==> InRange(s[k], m)
  {
    if littleEndian {
      PackBytesExact(s[p], s[p + 1], s[p + 2], s[p + 3], s[p + 4], s[p + 5], s[p + 6], s[p + 7], n, m);
    } else {
      PackBytesExact(s[p + 7], s[p + 6], s[p + 5], s[p + 4], s[p + 3], s[p + 2], s[p + 1], s[p], n, m);
    }
  }

  /** The word test of the field-text loop. */
  method FieldWordIsClean(s: seq<byte>, p: nat, littleEndian: bool) returns (clean: bool)
    requires p + 8 <= |s|
    ensures clean <==> forall k :: p <= k < p + 8 ==> InRange(s[k], 0x20)
  {
    var chunk := Load(s, p, littleEndian);
    MaskExact(s, p, littleEndian, 0x20, 0x20);
    clean := (LowMask(chunk, 0x20) | DelMask(chunk)) == 0;
  }

  /** The word test of the request-target loop. */
  method TargetWordIsClean(s: seq<byte>, p: nat, littleEndian: bool) returns (clean: bool)
    requires p + 8 <= |s|
    ensures clean <==> forall k :: p <= k < p + 8 ==> InRange(s[k], 0x21)
  {
    var chunk := Load(s, p, littleEndian);
    MaskExact(s, p, littleEndian, 0x21, 0x21);
    clean := (LowMask(chunk, 0x21) | DelMask(chunk)) == 0;
  }

  /** Field text: two words at a time while 32 octets remain, then single words, then octets.
      A dirty word ends the fast loop; the octet loop then decides, because HTAB is allowed. */
  method FieldTextIsValid(s: seq<byte>, from: nat, end: nat, littleEndian: bool) returns (valid: bool)
    requires from <= end <= |s|
    ensures valid <==> AllText(s, from, end)
  {
    var p := from;
    while end - p >= 32
      invariant from <= p <= end
      invariant forall k :: from <= k < p ==> IsText(s[k])
    {
      var a := FieldWordIsClean(s, p, littleEndian);
      var b := FieldWordIsClean(s, p + 8, littleEndian);
      if !a || !b {
        break;
      }
      p := p + 16;
    }
    while end - p >= 8
      invariant from <= p <= end
      invariant forall k :: from <= k < p ==> IsText(s[k])
    {
      var clean := FieldWordIsClean(s, p, littleEndian);
      if !clean {
        break;
      }
      p := p + 8;
    }
    while p < end
      invariant from <= p <= end
      invariant forall k :: from <= k < p ==> IsText(s[k])
    {
      var c := s[p];
      p := p + 1;
      if c == HTAB {
        continue;
      }
      if c < SP || c == DEL {
        return false;
      }
    }
    return true;
  }

  /** Request-target: words only when spaces are not allowed, then octets. */
  method RequestTargetIsValid(s: seq<byte>, from: nat, end: nat, allowSpaces: bool, littleEndian: bool)
    returns (valid: bool)
    requires from <= end <= |s|
    ensures valid <==> AllTarget(s, from, end, allowSpaces)
  {
    var p := from;
    if !allowSpaces {
      while end - p >= 8
        invariant from <= p <= end
        invariant forall k :: from <= k < p ==> IsTarget(s[k], allowSpaces)
      {
        var clean := TargetWordIsClean(s, p, littleEndian);
        if !clean {
          break;
        }
        p := p + 8;
      }
    }
    while p < end
      invariant from <= p <= end
      invariant forall k :: from <= k < p ==> IsTarget(s[k], allowSpaces)
    {
      var c := s[p];
      p := p + 1;
      if c == SP && allowSpaces {
        continue;
      }
      if c <= SP || c == DEL {
        return false;
      }
    }
    return true;
  }
}
