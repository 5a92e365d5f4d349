/** The delimiter search and the token test in their three backends, and the dispatch that
    picks a backend from a capability level. Every backend meets the same contract. */
module Scanner {
  import opened Bytes

  /** Offset of the first octet of s[from..end] that is one of delims, or `end`. */
  function FirstOf(s: seq<byte>, from: nat, end: nat, delims: seq<byte>): (r: nat)
    requires from <= end <= |s|
    ensures from <= r <= end
    ensures r < end ==> s[r] in delims
    ensures forall k :: from <= k < r ==> s[k] !in delims
    decreases end - from
  {
    if from == end || s[from] in delims then from else FirstOf(s, from + 1, end, delims)
  }

  /** The contract of FirstOf leaves no choice. */
  lemma FirstOfIsUnique(s: seq<byte>, from: nat, end: nat, delims: seq<byte>, r: nat)
    requires from <= r <= end <= |s|
    requires r < end ==> s[r] in delims
    requires forall k :: from <= k < r ==> s[k] !in delims
    ensures r == FirstOf(s, from, end, delims)
  {
  }

  /** The 256-entry lookup table the scalar and AVX2 searches build. */
  method BuildTable(delims: seq<byte>) returns (table: array<bool>)
    ensures fresh(table) && table.Length == 256
    ensures forall c :: 0 <= c < 256 ==> (table[c] <==> c in delims)
  {
    table := new bool[256](_ => false);
    var d := 0;
    while d < |delims|
      invariant 0 <= d <= |delims|
      invariant forall c :: 0 <= c < 256 ==> (table[c] <==> c in delims[..d])
    {
      table[delims[d]] := true;
      assert delims[..d + 1] == delims[..d] + [delims[d]];
      d := d + 1;
    }
    assert delims[..d] == delims;
  }

  method FindCharScalar(s: seq<byte>, delims: seq<byte>) returns (r: nat)
    ensures r == FirstOf(s, 0, |s|, delims)
  {
    var table := BuildTable(delims);
    var i := 0;
    while i < |s|
      invariant 0 <= i <= |s|
      invariant forall k :: 0 <= k < i ==> s[k] !in delims
    {
      if table[s[i]] {
        FirstOfIsUnique(s, 0, |s|, delims, i);
        return i;
      }
      i := i + 1;
    }
    FirstOfIsUnique(s, 0, |s|, delims, |s|);
    return |s|;
  }

  /** PCMPESTRI in its equal-any, least-significant mode on a 16-octet block: the index of the
      first octet equal to any needle octet, else 16. */
  function CompareEqualAny(needle: seq<byte>, block: seq<byte>): (r: nat)
    requires |block| == 16 && 0 < |needle| <= 16
    ensures r <= 16
    ensures r < 16 ==> block[r] in needle
    ensures forall k :: 0 <= k < r ==> block[k] !in needle
  {
    FirstOf(block, 0, 16, needle)
  }

  method FindCharSse42(s: seq<byte>, delims: seq<byte>) returns (r: nat)
    ensures r == FirstOf(s, 0, |s|, delims)
  {
    if |delims| == 0 || |delims| > 16 {
      r := FindCharScalar(s, delims);
      return;
    }
    var i := 0;
    while i + 16 <= |s|
      invariant 0 <= i <= |s|
      invariant forall k :: 0 <= k < i ==> s[k] !in delims
    {
      var idx := CompareEqualAny(delims, s[i..i + 16]);
      assert forall k :: i <= k < i + idx ==> s[k] == s[i..i + 16][k - i];
      if idx < 16 {
        FirstOfIsUnique(s, 0, |s|, delims, i + idx);
        return i + idx;
      }
      i := i + 16;
    }
    while i < |s|
      invariant 0 <= i <= |s|
      invariant forall k :: 0 <= k < i ==> s[k] !in delims
    {
      var d := 0;
      while d < |delims|
        invariant 0 <= d <= |delims|
        invariant s[i] !in delims[..d]
      {
        if s[i] == delims[d] {
          FirstOfIsUnique(s, 0, |s|, delims, i);
          return i;
        }
        assert delims[..d + 1] == delims[..d] + [delims[d]];
        d := d + 1;
      }
      assert delims[..d] == delims;
      i := i + 1;
    }
    FirstOfIsUnique(s, 0, |s|, delims, |s|);
    return |s|;
  }

  method FindCharAvx2(s: seq<byte>, delims: seq<byte>) returns (r: nat)
    ensures r == FirstOf(s, 0, |s|, delims)
  {
    var table := BuildTable(delims);
    var i := 0;
    while i + 32 <= |s|
      invariant 0 <= i <= |s|
      invariant forall k :: 0 <= k < i ==> s[k] !in delims
    {
      var j := 0;
      while j < 32
        invariant 0 <= j <= 32
        invariant forall k :: 0 <= k < i + j ==> s[k] !in delims
      {
        if table[s[i + j]] {
          FirstOfIsUnique(s, 0, |s|, delims, i + j);
          return i + j;
        }
        j := j + 1;
      }
      i := i + 32;
    }
    while i < |s|
      invariant 0 <= i <= |s|
      invariant forall k :: 0 <= k < i ==> s[k] !in delims
    {
      if table[s[i]] {
        FirstOfIsUnique(s, 0, |s|, delims, i);
        return i;
      }
      i := i + 1;
    }
    FirstOfIsUnique(s, 0, |s|, delims, |s|);
    return |s|;
  }

  method IsTokenScalar(s: seq<byte>) returns (r: bool)
    ensures r <==> AllToken(s, 0, |s|)
  {
    var i := 0;
    while i < |s|
      invariant 0 <= i <= |s|
      invariant AllToken(s, 0, i)
    {
      if !IsTokenChar(s[i]) {
        return false;
      }
      i := i + 1;
    }
    return true;
  }

  method IsTokenSse42(s: seq<byte>) returns (r: bool)
    ensures r <==> AllToken(s, 0, |s|)
  {
    r := IsTokenScalar(s);
  }

  method IsTokenAvx2(s: seq<byte>) returns (r: bool)
    ensures r <==> AllToken(s, 0, |s|)
  {
    var i := 0;
    while i + 32 <= |s|
      invariant 0 <= i <= |s|
      invariant AllToken(s, 0, i)
    {
      var j := 0;
      while j < 32
        invariant 0 <= j <= 32
        invariant AllToken(s, 0, i + j)
      {
        if !IsTokenChar(s[i + j]) {
          return false;
        }
        j := j + 1;
      }
      i := i + 32;
    }
    while i < |s|
      invariant 0 <= i <= |s|
      invariant AllToken(s, 0, i)
    {
      if !IsTokenChar(s[i]) {
        return false;
      }
      i := i + 1;
    }
    return true;
  }

  datatype Backend = Scalar | Sse42 | Avx2

  /** The dispatch table: which backend serves each of the two operations. */
  datatype Vtable = Vtable(findChar: Backend, isToken: Backend)

  /** What the library was compiled with. */
  datatype Build = Build(haveSse42: bool, haveAvx2: bool)

  /** Selection from a capability level: bit 1 asks for AVX2, bit 0 for SSE4.2, and a backend
      that was not compiled in is never chosen. */
  function SelectVtable(build: Build, level: bv32): (v: Vtable)
    ensures v.findChar == v.isToken
    ensures v.findChar.Avx2? <==> build.haveAvx2 && level & 0x02 != 0
    ensures v.findChar.Sse42? <==> build.haveSse42 && level & 0x01 != 0 && !v.findChar.Avx2?
  {
    if build.haveAvx2 && level & 0x02 != 0 then Vtable(Avx2, Avx2)
    else if build.haveSse42 && level & 0x01 != 0 then Vtable(Sse42, Sse42)
    else Vtable(Scalar, Scalar)
  }

  /** The search answers the same for every dispatch table. */
  method FindChar(v: Vtable, s: seq<byte>, delims: seq<byte>) returns (r: nat)
    ensures r == FirstOf(s, 0, |s|, delims)
  {
    match v.findChar
    case Scalar => r := FindCharScalar(s, delims);
    case Sse42 => r := FindCharSse42(s, delims);
    case Avx2 => r := FindCharAvx2(s, delims);
  }

  /** So does the token test. */
  method IsToken(v: Vtable, s: seq<byte>) returns (r: bool)
    ensures r <==> AllToken(s, 0, |s|)
  {
    match v.isToken
    case Scalar => r := IsTokenScalar(s);
    case Sse42 => r := IsTokenSse42(s);
    case Avx2 => r := IsTokenAvx2(s);
  }
}
