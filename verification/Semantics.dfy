/** The semantics layer in the form of the source: scans over field values that set flags, a loop
    over the headers, and a message object whose framing fields are written in place. */
module Semantics {
  import opened Bytes
  import opened Types
  import opened SemanticsSpec
  import opened HeadPrint
  import FramingRule
  import Head
  import Scanner

  // ----- lemmas the loops use

  lemma FindShifts(v: seq<byte>, pos: nat, c: byte)
    requires pos <= |v|
    ensures Find(v, pos, |v|, c) == pos + Find(v[pos..], 0, |v| - pos, c)
  {
    var r := Find(v[pos..], 0, |v| - pos, c);
    assert forall k :: 0 <= k < |v| - pos ==> v[pos..][k] == v[pos + k];
    assert forall k :: pos <= k < pos + r ==> v[k] == v[pos..][k - pos];
  }

  lemma ElementsFrom(v: seq<byte>, pos: nat)
    requires pos <= |v|
    ensures var c := Find(v, pos, |v|, COMMA);
            Elements(v[pos..]) == [Trim(v[pos..c])] + if c == |v| then [] else Elements(v[c + 1..])
  {
    hide Elements, Trim, Find;
    FindShifts(v, pos, COMMA);
    var c := Find(v, pos, |v|, COMMA);
    ElementsUnfold(v[pos..], c - pos);
    assert v[pos..][..c - pos] == v[pos..c];
    if c < |v| {
      assert v[pos..][c - pos + 1..] == v[c + 1..];
    } else {
      assert v[pos..c] == v[pos..];
    }
  }

  lemma EmptyElement()
    ensures Elements([]) == [[]]
  {
  }

  /** State of a list scan: `taken` are the elements before pos, and the rest is still to come
      unless the scan has reached the end. */
  ghost predicate Scanned(v: seq<byte>, pos: nat, taken: seq<seq<byte>>) {
    && pos <= |v| && (taken == [] ==> pos == 0)
    && Elements(v) == if taken != [] && pos == |v| then taken else taken + Elements(v[pos..])
  }

  lemma ScanStarts(v: seq<byte>)
    ensures Scanned(v, 0, [])
    ensures v == [] ==> Elements(v) == [[]]
  {
    assert v[0..] == v;
    assert [] + Elements(v) == Elements(v);
  }

  lemma ScanEnds(v: seq<byte>, taken: seq<seq<byte>>)
    requires Scanned(v, |v|, taken) && v != []
    ensures Elements(v) == taken
  {
  }

  /** One more element. A comma at the very end leaves an empty element behind. */
  lemma ScanStep(v: seq<byte>, pos: nat, taken: seq<seq<byte>>)
    requires Scanned(v, pos, taken) && pos < |v|
    ensures var comma := Find(v, pos, |v|, COMMA);
            var taken' := taken + [Trim(v[pos..comma])];
            && |taken| < |Elements(v)| && Elements(v)[|taken|] == Trim(v[pos..comma])
            && (comma == |v| ==> Scanned(v, |v|, taken'))
            && (comma + 1 < |v| ==> Scanned(v, comma + 1, taken'))
            && (comma + 1 == |v| ==> Elements(v) == taken' + [[]])
  {
    hide Trim, Elements;
    ElementsFrom(v, pos);
    var comma := Find(v, pos, |v|, COMMA);
    var part := Trim(v[pos..comma]);
    if comma == |v| {
      assert [part] + [] == [part];
      assert Elements(v) == taken + [part];
    } else {
      assert taken + ([part] + Elements(v[comma + 1..])) == taken + [part] + Elements(v[comma + 1..]);
      assert Elements(v) == taken + [part] + Elements(v[comma + 1..]);
      if comma + 1 == |v| {
        assert v[comma + 1..] == [];
        EmptyElement();
      }
    }
  }

  lemma CountSnoc(es: seq<seq<byte>>, e: seq<byte>)
    ensures CountChunked(es + [e]) == CountChunked(es) + if IsChunked(e) then 1 else 0
  {
    assert (es + [e])[..|es|] == es;
  }

  lemma {:induction false} CountAppend(a: seq<seq<byte>>, b: seq<seq<byte>>)
    ensures CountChunked(a + b) == CountChunked(a) + CountChunked(b)
    decreases |b|
  {
    hide IsChunked;
    if b == [] {
      assert a + b == a;
    } else {
      CountLast(b);
      CountLast(a + b);
      hide CountChunked;
      assert (a + b)[..|a + b| - 1] == a + b[..|b| - 1];
      CountAppend(a, b[..|b| - 1]);
    }
  }

  lemma CountLast(es: seq<seq<byte>>)
    requires es != []
    ensures CountChunked(es) == CountChunked(es[..|es| - 1]) + if IsChunked(es[|es| - 1]) then 1 else 0
  {
  }

  // ----- comparisons and trimming

  /** Case-insensitive comparison octet by octet. */
  method EqualsIgnoreCase(a: seq<byte>, lit: seq<byte>) returns (r: bool)
    ensures r <==> EqIgnoreCase(a, lit)
  {
    if |a| != |lit| {
      return false;
    }
    var i := 0;
    while i < |a|
      invariant 0 <= i <= |a|
      invariant forall k :: 0 <= k < i ==> Lower(a[k]) == Lower(lit[k])
    {
      if Lower(a[i]) != Lower(lit[i]) {
        return false;
      }
      i := i + 1;
    }
    return true;
  }

  method TrimPart(v: seq<byte>) returns (part: seq<byte>)
    ensures part == Trim(v)
  {
    var first := 0;
    while first < |v| && IsLws(v[first])
      invariant 0 <= first <= |v|
      invariant SkipLws(v, 0, |v|) == SkipLws(v, first, |v|)
    {
      first := first + 1;
    }
    var last := |v|;
    while last > first && IsLws(v[last - 1])
      invariant first <= last <= |v|
      invariant TrimLws(v, first, |v|) == TrimLws(v, first, last)
    {
      last := last - 1;
    }
    part := v[first..last];
  }

  // ----- values

  lemma DecimalSnoc(v: seq<byte>, i: nat)
    requires i < |v| && AllDigits(v[..i + 1])
    ensures AllDigits(v[..i]) && DecimalValue(v[..i + 1]) == DecimalValue(v[..i]) * 10 + Digit(v[i])
  {
    var w := v[..i + 1];
    assert w[..i] == v[..i];
    forall k | 0 <= k < i
      ensures IsDigit(v[..i][k])
    {
      assert w[k] == v[k];
    }
  }

  lemma {:induction false} DecimalGrows(v: seq<byte>, i: nat)
    requires i <= |v| && AllDigits(v)
    ensures AllDigits(v[..i]) && DecimalValue(v[..i]) <= DecimalValue(v)
    decreases |v| - i
  {
    if i < |v| {
      DecimalGrows(v, i + 1);
      DecimalSnoc(v, i);
    } else {
      assert v[..i] == v;
    }
  }

  /** The decimal parser with its overflow check: it succeeds exactly on non-empty digit strings
      whose value fits 64 bits, returns that value, and no intermediate result overflows. */
  method ParseContentLength(v: seq<byte>) returns (valid: bool, value: nat)
    ensures valid <==> ValidLength(v)
    ensures valid ==> value == DecimalValue(v)
  {
    if |v| == 0 {
      return false, 0;
    }
    hide DecimalValue;
    EmptyIsZero(v);
    var result := 0;
    var i := 0;
    while i < |v|
      invariant 0 <= i <= |v|
      invariant AllDigits(v[..i])
      invariant result == DecimalValue(v[..i]) < TWO_TO_THE_64
    {
      if !IsDigit(v[i]) {
        return false, 0;
      }
      var digit := Digit(v[i]);
      assert v[..i + 1] == v[..i] + [v[i]];
      DecimalSnoc(v, i);
      if result > (TWO_TO_THE_64 - 1 - digit) / 10 {
        TooLarge(v, i, result, digit);
        return false, 0;
      }
      assert result * 10 + digit < TWO_TO_THE_64;
      result := result * 10 + digit;
      i := i + 1;
    }
    assert v[..i] == v;
    return true, result;
  }

  lemma EmptyIsZero(v: seq<byte>)
    ensures AllDigits(v[..0]) && DecimalValue(v[..0]) == 0
  {
  }

  lemma TooLarge(v: seq<byte>, i: nat, result: nat, digit: int)
    requires i < |v| && AllDigits(v[..i + 1]) && AllDigits(v[..i])
    requires result == DecimalValue(v[..i]) && digit == Digit(v[i])
    requires result > (TWO_TO_THE_64 - 1 - digit) / 10
    ensures !ValidLength(v)
  {
    DecimalSnoc(v, i);
    assert DecimalValue(v[..i + 1]) >= TWO_TO_THE_64;
    if AllDigits(v) {
      DecimalGrows(v, i + 1);
    }
  }

  /** One element of Transfer-Encoding. */
  method ParseCoding(e: seq<byte>, vt: Scanner.Vtable) returns (valid: bool, chunked: bool)
    ensures valid <==> ValidCoding(e)
    ensures valid ==> chunked == IsChunked(e)
  {
    if |e| == 0 {
      return false, false;
    }
    var coding := e;
    var params := MemChr(e, 0, |e|, SEMICOLON);
    var hasParams := params < |e|;
    if hasParams {
      var n := params;
      while n > 0 && IsLws(e[n - 1])
        invariant 0 <= n <= params
        invariant TrimLws(e, 0, params) == TrimLws(e, 0, n)
      {
        n := n - 1;
      }
      if n == 0 {
        return false, false;
      }
      coding := e[..n];
    }
    var token := Scanner.IsToken(vt, coding);
    if !token {
      return false, false;
    }
    chunked := EqualsIgnoreCase(coding, CHUNKED);
    return !(chunked && hasParams), chunked;
  }

  /** All elements of one Transfer-Encoding line, with how many are chunked and whether the last
      one is. */
  method ParseTransferEncoding(v: seq<byte>, vt: Scanner.Vtable)
    returns (valid: bool, endsChunked: bool, count: nat)
    ensures valid <==> TeOk(Elements(v))
    ensures valid ==> endsChunked == EndsChunked(Elements(v)) && count == CountChunked(Elements(v))
  {
    hide Elements, ValidCoding, IsChunked, Scanned;
    valid, endsChunked, count := false, false, 0;
    var pos := 0;
    ghost var taken := [];
    ScanStarts(v);
    EmptyIsInvalid();
    while pos < |v|
      invariant Scanned(v, pos, taken)
      invariant pos <= |v|
      invariant TeOk(taken) && count == CountChunked(taken)
      invariant endsChunked == EndsChunked(taken)
    {
      ScanStep(v, pos, taken);
      var comma := MemChr(v, pos, |v|, COMMA);
      var part := TrimPart(v[pos..comma]);
      var partOk, chunked := ParseCoding(part, vt);
      if !partOk {
        assert !ValidCoding(Elements(v)[|taken|]);
        return false, false, 0;
      }
      CountSnoc(taken, part);
      taken := taken + [part];
      endsChunked := chunked;
      if chunked {
        count := count + 1;
      }
      pos := comma;
      if pos < |v| {
        pos := pos + 1;
        if pos == |v| {
          assert !ValidCoding(Elements(v)[|taken|]);
          return false, false, 0;
        }
      }
    }
    if pos == 0 {
      assert !ValidCoding(Elements(v)[0]);
      return false, false, 0;
    }
    ScanEnds(v, taken);
    return true, endsChunked, count;
  }

  lemma EmptyIsInvalid()
    ensures !ValidCoding([]) && !TokenElement([])
  {
  }

  /** The tokens of one Connection line; earlier lines may already have set the flags. */
  method ParseConnection(v: seq<byte>, vt: Scanner.Vtable, close: bool, keepAlive: bool, upgrade: bool)
    returns (valid: bool, close': bool, keepAlive': bool, upgrade': bool)
    ensures valid <==> TokensOk(Elements(v))
    ensures valid ==>
              && (close' <==> close || Says(Elements(v), CLOSE))
              && (keepAlive' <==> keepAlive || Says(Elements(v), KEEP_ALIVE))
              && (upgrade' <==> upgrade || Says(Elements(v), UPGRADE))
  {
    hide Elements, TokenElement, Says, Scanned, EqIgnoreCase, Trim;
    close', keepAlive', upgrade' := close, keepAlive, upgrade;
    var pos := 0;
    ghost var taken: seq<seq<byte>> := [];
    ScanStarts(v);
    EmptyIsInvalid();
    NothingSays(CLOSE);
    NothingSays(KEEP_ALIVE);
    NothingSays(UPGRADE);
    while pos < |v|
      invariant Scanned(v, pos, taken)
      invariant pos <= |v|
      invariant TokensOk(taken)
      invariant close' <==> close || Says(taken, CLOSE)
      invariant keepAlive' <==> keepAlive || Says(taken, KEEP_ALIVE)
      invariant upgrade' <==> upgrade || Says(taken, UPGRADE)
    {
      ScanStep(v, pos, taken);
      var comma := MemChr(v, pos, |v|, COMMA);
      var part := TrimPart(v[pos..comma]);
      var token := IsTokenElement(part, vt);
      if !token {
        assert !TokenElement(Elements(v)[|taken|]);
        return false, close', keepAlive', upgrade';
      }
      close', keepAlive', upgrade' := NoteOption(part, close', keepAlive', upgrade');
      SaysSnoc(taken, part, CLOSE);
      SaysSnoc(taken, part, KEEP_ALIVE);
      SaysSnoc(taken, part, UPGRADE);
      taken := taken + [part];
      pos := comma;
      if pos < |v| {
        pos := pos + 1;
        if pos == |v| {
          assert !TokenElement(Elements(v)[|taken|]);
          return false, close', keepAlive', upgrade';
        }
      }
    }
    if pos == 0 {
      assert !TokenElement(Elements(v)[0]);
      return false, close', keepAlive', upgrade';
    }
    ScanEnds(v, taken);
    return true, close', keepAlive', upgrade';
  }

  method IsTokenElement(e: seq<byte>, vt: Scanner.Vtable) returns (r: bool)
    ensures r <==> TokenElement(e)
  {
    if |e| == 0 {
      return false;
    }
    r := Scanner.IsToken(vt, e);
  }

  /** Sets the flag of the connection option a token names, if any. */
  method NoteOption(e: seq<byte>, close: bool, keepAlive: bool, upgrade: bool)
    returns (close': bool, keepAlive': bool, upgrade': bool)
    ensures close' == (close || EqIgnoreCase(e, CLOSE))
    ensures keepAlive' == (keepAlive || EqIgnoreCase(e, KEEP_ALIVE))
    ensures upgrade' == (upgrade || EqIgnoreCase(e, UPGRADE))
  {
    close', keepAlive', upgrade' := close, keepAlive, upgrade;
    var eq := EqualsIgnoreCase(e, CLOSE);
    if eq {
      close' := true;
      return;
    }
    eq := EqualsIgnoreCase(e, KEEP_ALIVE);
    if eq {
      keepAlive' := true;
      return;
    }
    eq := EqualsIgnoreCase(e, UPGRADE);
    if eq {
      upgrade' := true;
    }
  }

  lemma SaysSnoc(es: seq<seq<byte>>, e: seq<byte>, option: seq<byte>)
    ensures Says(es + [e], option) <==> Says(es, option) || EqIgnoreCase(e, option)
  {
    hide EqIgnoreCase;
    if Says(es, option) {
      var k :| 0 <= k < |es| && EqIgnoreCase(es[k], option);
      assert EqIgnoreCase((es + [e])[k], option);
    }
    if EqIgnoreCase(e, option) {
      assert EqIgnoreCase((es + [e])[|es|], option);
    }
  }

  lemma {:induction false} SaysAppend(a: seq<seq<byte>>, b: seq<seq<byte>>, option: seq<byte>)
    ensures Says(a + b, option) <==> Says(a, option) || Says(b, option)
    decreases |b|
  {
    hide Says;
    if b == [] {
      assert a + b == a;
      NothingSays(option);
    } else {
      var init, last := b[..|b| - 1], b[|b| - 1];
      SaysAppend(a, init, option);
      SaysSnoc(a + init, last, option);
      SaysSnoc(init, last, option);
      assert init + [last] == b && a + init + [last] == a + b;
    }
  }

  lemma NothingSays(option: seq<byte>)
    ensures !Says([], option)
  {
  }

  method ParseTrailer(v: seq<byte>, vt: Scanner.Vtable) returns (valid: bool)
    ensures valid <==> TokensOk(Elements(v))
  {
    hide Elements, TokenElement, Scanned, Trim;
    var pos := 0;
    ghost var taken: seq<seq<byte>> := [];
    ScanStarts(v);
    EmptyIsInvalid();
    while pos < |v|
      invariant Scanned(v, pos, taken)
      invariant pos <= |v|
      invariant TokensOk(taken)
    {
      ScanStep(v, pos, taken);
      var comma := MemChr(v, pos, |v|, COMMA);
      var part := TrimPart(v[pos..comma]);
      var token := IsTokenElement(part, vt);
      if !token {
        assert !TokenElement(Elements(v)[|taken|]);
        return false;
      }
      taken := taken + [part];
      pos := comma;
      if pos < |v| {
        pos := pos + 1;
        if pos == |v| {
          assert !TokenElement(Elements(v)[|taken|]);
          return false;
        }
      }
    }
    if pos == 0 {
      assert !TokenElement(Elements(v)[0]);
      return false;
    }
    ScanEnds(v, taken);
    return true;
  }

  /** Expect: anything non-empty passes; only 100-continue means something. */
  method ParseExpect(v: seq<byte>) returns (valid: bool, continues: bool)
    ensures valid <==> Trim(v) != []
    ensures valid ==> continues == EqIgnoreCase(Trim(v), CONTINUE_100)
  {
    var part := TrimPart(v);
    if |part| == 0 {
      return false, false;
    }
    continues := EqualsIgnoreCase(part, CONTINUE_100);
    return true, continues;
  }

  method Classify(name: seq<byte>) returns (k: Kind)
    ensures k == KindOf(name)
  {
    var eq := EqualsIgnoreCase(name, TRANSFER_ENCODING);
    if eq { return KTransferEncoding; }
    eq := EqualsIgnoreCase(name, CONTENT_LENGTH);
    if eq { return KContentLength; }
    eq := EqualsIgnoreCase(name, CONNECTION);
    if eq { return KConnection; }
    eq := EqualsIgnoreCase(name, UPGRADE);
    if eq { return KUpgrade; }
    eq := EqualsIgnoreCase(name, HOST);
    if eq { return KHost; }
    eq := EqualsIgnoreCase(name, EXPECT);
    if eq { return KExpect; }
    eq := EqualsIgnoreCase(name, TRAILER);
    if eq { return KTrailer; }
    return KOther;
  }

  // ----- the loop over the headers

  /** The flags the loop carries. */
  datatype Flags = Flags(
    hasTe: bool, hasCl: bool, chunked: bool, hasUpgrade: bool, hasHost: bool, hasExpectation: bool, hasTrailer: bool,
    close: bool, keepAlive: bool, upgrade: bool, chunkedCount: nat, contentLength: nat)

  const NO_FLAGS: Flags := Flags(false, false, false, false, false, false, false, false, false, false, 0, 0)

  /** The flags say what the facts say, as far as requests and responses share them. */
  ghost predicate Tracks(f: Facts, g: Flags) {
    && g.hasTe == (f.te != []) && g.hasCl == (f.cl != []) && g.chunked == EndsChunked(f.te)
    && g.hasUpgrade == (f.upgrade != []) && g.hasTrailer == (f.trailer != [])
    && g.close == Says(f.connection, CLOSE) && g.keepAlive == Says(f.connection, KEEP_ALIVE)
    && g.upgrade == Says(f.connection, UPGRADE)
    && g.chunkedCount == CountChunked(f.te)
    && CommonFieldsOk(f) && (f.cl != [] ==> g.contentLength == DecimalValue(f.cl[0]))
  }

  /** The facts after one more field. */
  function WithField(f: Facts, k: Kind, v: seq<byte>): Facts {
    match k
    case KTransferEncoding => f.(te := f.te + Elements(v))
    case KContentLength => f.(cl := f.cl + [v])
    case KConnection => f.(connection := f.connection + Elements(v))
    case KUpgrade => f.(upgrade := f.upgrade + [v])
    case KHost => f.(host := f.host + [v])
    case KExpect => f.(expectations := f.expectations + [v])
    case KTrailer => f.(trailer := f.trailer + Elements(v))
    case KOther => f
  }

  lemma FactsSnoc(fs: seq<Field>, i: nat)
    requires i < |fs|
    ensures FactsOf(fs[..i + 1]) == WithField(FactsOf(fs[..i]), KindOf(fs[i].name), fs[i].value)
  {
    hide KindOf, Elements;
    assert fs[..i + 1][..i] == fs[..i];
    forall k: Kind
      ensures Gather(fs[..i + 1], k) == Gather(fs[..i], k) + Contribution(fs[i], k)
    {
    }
  }

  /** Field by field, a shorter list of headers says less. */
  predicate Within(a: Facts, b: Facts) {
    && a.te <= b.te && a.cl <= b.cl && a.connection <= b.connection && a.upgrade <= b.upgrade
    && a.host <= b.host && a.expectations <= b.expectations && a.trailer <= b.trailer
  }

  lemma {:induction false} FactsWithin(fs: seq<Field>, i: nat)
    requires i <= |fs|
    ensures Within(FactsOf(fs[..i]), FactsOf(fs))
    decreases |fs| - i
  {
    hide FactsOf, Elements;
    if i < |fs| {
      FactsWithin(fs, i + 1);
      FactsSnoc(fs, i);
    } else {
      assert fs[..i] == fs;
    }
  }

  lemma CommonOkWithin(a: Facts, b: Facts)
    requires Within(a, b) && CommonFieldsOk(b)
    ensures CommonFieldsOk(a)
  {
    hide ValidCoding, TokenElement, ValidLength;
    assert forall k :: 0 <= k < |a.te| ==> a.te[k] == b.te[k];
    assert forall k :: 0 <= k < |a.connection| ==> a.connection[k] == b.connection[k];
    assert forall k :: 0 <= k < |a.trailer| ==> a.trailer[k] == b.trailer[k];
    assert forall k :: 0 <= k < |a.upgrade| ==> a.upgrade[k] == b.upgrade[k];
    assert forall k :: 0 <= k < |a.cl| ==> a.cl[k] == b.cl[k] && ValidLength(b.cl[k]);
    LengthsWithin(a.cl, b.cl);
  }

  lemma LengthsWithin(a: seq<seq<byte>>, b: seq<seq<byte>>)
    requires a <= b && LengthsOk(b)
    ensures LengthsOk(a)
  {
    assert forall k :: 0 <= k < |a| ==> a[k] == b[k];
  }

  lemma RequestOkWithin(a: Facts, b: Facts)
    requires Within(a, b) && RequestFieldsOk(b)
    ensures RequestFieldsOk(a)
  {
    hide Trim, CommonFieldsOk;
    CommonOkWithin(a, b);
    assert forall k :: 0 <= k < |a.host| ==> a.host[k] == b.host[k];
    assert forall k :: 0 <= k < |a.expectations| ==> a.expectations[k] == b.expectations[k];
  }

  lemma TeSnoc(te: seq<seq<byte>>, es: seq<seq<byte>>)
    requires TeOk(te) && es != []
    ensures TeOk(te + es) <==> TeOk(es)
    ensures CountChunked(te + es) == CountChunked(te) + CountChunked(es)
    ensures EndsChunked(te + es) == EndsChunked(es)
  {
    hide ValidCoding, IsChunked, CountChunked;
    CountAppend(te, es);
    assert forall k :: 0 <= k < |es| ==> (te + es)[|te| + k] == es[k];
    assert forall k :: 0 <= k < |te| ==> (te + es)[k] == te[k];
  }

  lemma TokensAppend(a: seq<seq<byte>>, b: seq<seq<byte>>)
    requires TokensOk(a)
    ensures TokensOk(a + b) <==> TokensOk(b)
  {
    hide TokenElement;
    assert forall k :: 0 <= k < |b| ==> (a + b)[|a| + k] == b[k];
    assert forall k :: 0 <= k < |a| ==> (a + b)[k] == a[k];
  }

  lemma LengthsSnoc(cl: seq<seq<byte>>, v: seq<byte>)
    requires LengthsOk(cl)
    ensures LengthsOk(cl + [v]) <==>
            ValidLength(v) && (cl != [] ==> DecimalValue(v) == DecimalValue(cl[0]))
  {
    hide DecimalValue;
    var w := cl + [v];
    assert w[|cl|] == v;
    assert forall k :: 0 <= k < |cl| ==> w[k] == cl[k];
  }

  lemma UpgradeSnoc(vs: seq<seq<byte>>, v: seq<byte>)
    requires UpgradeOk(vs)
    ensures UpgradeOk(vs + [v]) <==> AllToken(v, 0, |v|)
  {
    assert (vs + [v])[|vs|] == v;
  }

  lemma TracksTe(f: Facts, g: Flags, v: seq<byte>, ends: bool, count: nat)
    requires Tracks(f, g)
    requires TeOk(Elements(v)) ==> ends == EndsChunked(Elements(v)) && count == CountChunked(Elements(v))
    ensures TeOk(Elements(v)) <==> CommonFieldsOk(WithField(f, KTransferEncoding, v))
    ensures TeOk(Elements(v)) ==>
              Tracks(WithField(f, KTransferEncoding, v), g.(hasTe := true, chunked := ends,
                    chunkedCount := g.chunkedCount + count))
  {
    hide Elements, TeOk, TokensOk, Says, LengthsOk, UpgradeOk, CountChunked, EndsChunked, ValidLength, DecimalValue;
    TeSnoc(f.te, Elements(v));
  }

  lemma TracksLength(f: Facts, g: Flags, v: seq<byte>, valid: bool, value: nat)
    requires Tracks(f, g)
    requires valid <==> ValidLength(v)
    requires valid ==> value == DecimalValue(v)
    ensures (valid && (g.hasCl ==> value == g.contentLength)) <==> CommonFieldsOk(WithField(f, KContentLength, v))
    ensures CommonFieldsOk(WithField(f, KContentLength, v)) ==>
              Tracks(WithField(f, KContentLength, v), g.(hasCl := true, contentLength := value))
  {
    hide Elements, TeOk, TokensOk, Says, LengthsOk, UpgradeOk, CountChunked, EndsChunked, ValidLength, DecimalValue;
    LengthsSnoc(f.cl, v);
  }

  lemma TracksConnection(f: Facts, g: Flags, v: seq<byte>, g': Flags)
    requires Tracks(f, g)
    requires TokensOk(Elements(v)) ==>
               g' == g.(close := g.close || Says(Elements(v), CLOSE),
                        keepAlive := g.keepAlive || Says(Elements(v), KEEP_ALIVE),
                        upgrade := g.upgrade || Says(Elements(v), UPGRADE))
    ensures TokensOk(Elements(v)) <==> CommonFieldsOk(WithField(f, KConnection, v))
    ensures TokensOk(Elements(v)) ==> Tracks(WithField(f, KConnection, v), g')
  {
    hide Elements, TeOk, TokensOk, Says, LengthsOk, UpgradeOk, CountChunked, EndsChunked, ValidLength, DecimalValue;
    TokensAppend(f.connection, Elements(v));
    SaysAppend(f.connection, Elements(v), CLOSE);
    SaysAppend(f.connection, Elements(v), KEEP_ALIVE);
    SaysAppend(f.connection, Elements(v), UPGRADE);
  }

  lemma TracksUpgrade(f: Facts, g: Flags, v: seq<byte>)
    requires Tracks(f, g)
    ensures AllToken(v, 0, |v|) <==> CommonFieldsOk(WithField(f, KUpgrade, v))
    ensures AllToken(v, 0, |v|) ==> Tracks(WithField(f, KUpgrade, v), g.(hasUpgrade := true))
  {
    hide Elements, TeOk, TokensOk, Says, LengthsOk, UpgradeOk, CountChunked, EndsChunked, ValidLength, DecimalValue;
    UpgradeSnoc(f.upgrade, v);
  }

  lemma TracksTrailer(f: Facts, g: Flags, v: seq<byte>)
    requires Tracks(f, g)
    ensures TokensOk(Elements(v)) <==> CommonFieldsOk(WithField(f, KTrailer, v))
    ensures TokensOk(Elements(v)) ==> Tracks(WithField(f, KTrailer, v), g.(hasTrailer := true))
  {
    hide Elements, TeOk, TokensOk, Says, LengthsOk, UpgradeOk, CountChunked, EndsChunked, ValidLength, DecimalValue;
    TokensAppend(f.trailer, Elements(v));
  }

  lemma TracksOther(f: Facts, g: Flags, v: seq<byte>)
    requires Tracks(f, g)
    ensures CommonFieldsOk(WithField(f, KOther, v)) && Tracks(WithField(f, KOther, v), g)
  {
  }

  /** One header that requests and responses treat alike. */
  method Absorb(k: Kind, v: seq<byte>, g: Flags, vt: Scanner.Vtable, ghost f: Facts)
    returns (valid: bool, g': Flags)
    requires Tracks(f, g) && k != KHost && k != KExpect
    ensures valid <==> CommonFieldsOk(WithField(f, k, v))
    ensures valid ==> Tracks(WithField(f, k, v), g')
    ensures valid ==> g'.hasHost == g.hasHost && g'.hasExpectation == g.hasExpectation
  {
    hide Elements, TeOk, TokensOk, Says, CountChunked, EndsChunked, ValidLength, DecimalValue, Tracks,
          CommonFieldsOk, AllToken, WithField;
    g' := g;
    valid := true;
    match k {
      case KTransferEncoding =>
        var ends, count;
        valid, ends, count := ParseTransferEncoding(v, vt);
        TracksTe(f, g, v, ends, count);
        g' := g.(hasTe := true, chunked := ends, chunkedCount := g.chunkedCount + count);
      case KContentLength =>
        var value;
        valid, value := ParseContentLength(v);
        TracksLength(f, g, v, valid, value);
        if valid && g.hasCl && value != g.contentLength {
          valid := false;
        }
        g' := g.(hasCl := true, contentLength := value);
      case KConnection =>
        var close, keepAlive, upgrade;
        valid, close, keepAlive, upgrade := ParseConnection(v, vt, g.close, g.keepAlive, g.upgrade);
        g' := g.(close := close, keepAlive := keepAlive, upgrade := upgrade);
        TracksConnection(f, g, v, g');
      case KUpgrade =>
        valid := Scanner.IsToken(vt, v);
        TracksUpgrade(f, g, v);
        g' := g.(hasUpgrade := true);
      case KTrailer =>
        valid := ParseTrailer(v, vt);
        TracksTrailer(f, g, v);
        g' := g.(hasTrailer := true);
      case KOther =>
        TracksOther(f, g, v);
    }
  }

  lemma NoFacts()
    ensures Tracks(FactsOf([]), NO_FLAGS)
  {
  }

  ghost function RequestOutcome(req: Head.Request): Framing
    reads req
  {
    Framing(req.bodyMode, req.contentLength, req.keepAlive, req.protocolUpgrade, req.expectsContinue,
          req.hasTrailerFields)
  }

  ghost function ResponseOutcome(resp: Head.Response): Framing
    reads resp
  {
    Framing(resp.bodyMode, resp.contentLength, resp.keepAlive, resp.protocolUpgrade, false, resp.hasTrailerFields)
  }

  ghost predicate RequestTracks(f: Facts, g: Flags, continues: bool) {
    && Tracks(f, g) && HostOk(f.host) && ExpectOk(f.expectations)
    && g.hasHost == (f.host != []) && g.hasExpectation == (f.expectations != [])
    && (f.expectations != [] ==> continues == EqIgnoreCase(Trim(f.expectations[|f.expectations| - 1]), CONTINUE_100))
  }

  /** One header of a request. */
  method AbsorbRequest(k: Kind, v: seq<byte>, g: Flags, continues: bool, vt: Scanner.Vtable, ghost f: Facts)
    returns (valid: bool, g': Flags, continues': bool)
    requires RequestTracks(f, g, continues)
    ensures valid <==> RequestFieldsOk(WithField(f, k, v))
    ensures valid ==> RequestTracks(WithField(f, k, v), g', continues')
  {
    hide Elements, Trim, Tracks, CommonFieldsOk;
    continues' := continues;
    TracksOk(f, g);
    if k == KHost {
      HostSnoc(f.host, v);
      valid := !g.hasHost && |v| != 0;
      g' := g.(hasHost := true);
      TracksHost(f, g, v);
    } else if k == KExpect {
      ExpectSnoc(f.expectations, v);
      valid, continues' := ParseExpect(v);
      g' := g.(hasExpectation := true);
      TracksExpect(f, g, v);
    } else {
      valid, g' := Absorb(k, v, g, vt, f);
    }
  }

  lemma TracksOk(f: Facts, g: Flags)
    requires Tracks(f, g)
    ensures CommonFieldsOk(f)
  {
  }

  lemma TracksHost(f: Facts, g: Flags, v: seq<byte>)
    requires Tracks(f, g)
    ensures Tracks(WithField(f, KHost, v), g.(hasHost := true)) && CommonFieldsOk(WithField(f, KHost, v))
  {
  }

  lemma TracksExpect(f: Facts, g: Flags, v: seq<byte>)
    requires Tracks(f, g)
    ensures Tracks(WithField(f, KExpect, v), g.(hasExpectation := true)) && CommonFieldsOk(WithField(f, KExpect, v))
  {
  }

  lemma HostSnoc(vs: seq<seq<byte>>, v: seq<byte>)
    requires HostOk(vs)
    ensures HostOk(vs + [v]) <==> vs == [] && v != []
  {
    assert (vs + [v])[|vs|] == v;
  }

  lemma ExpectSnoc(vs: seq<seq<byte>>, v: seq<byte>)
    requires ExpectOk(vs)
    ensures ExpectOk(vs + [v]) <==> Trim(v) != []
  {
    hide Trim;
    assert (vs + [v])[|vs|] == v;
  }

  /** Framing of a parsed request. The request is accepted exactly when the rule accepts it, and
      then its framing fields are what the rule says; parse results are never touched. */
  method ApplyRequestSemantics(s: seq<byte>, req: Head.Request, policy: Policy, vt: Scanner.Vtable)
    returns (status: Status)
    requires req.Valid()
    requires forall i :: 0 <= i < req.numHeaders ==> Inside(s, req.headers[i])
    modifies req`bodyMode, req`contentLength, req`keepAlive, req`protocolUpgrade, req`expectsContinue,
          req`hasTrailerFields
    ensures var f := FactsOf(FieldsAt(s, req.Fields()));
            && status == (if RequestAccepted(f, req.version, policy.rejectTeCl) then Ok else Error)
            && (status == Ok ==> RequestOutcome(req) == RequestFraming(f, req.version, old(req.contentLength)))
    ensures var fs := FieldsAt(s, req.Fields());
            && (status == Ok <==> FramingRule.RequestRule(fs, req.version, policy.rejectTeCl))
            && (status == Ok ==>
                  FramingRule.RequestOutcomeIs(fs, req.version, old(req.contentLength), RequestOutcome(req)))
  {
    hide FactsOf, KindOf, Elements, Says, CountChunked, EndsChunked, Trim, CommonFieldsOk, WithField, EqIgnoreCase;
    hide FramingRule.RequestRule, FramingRule.RequestOutcomeIs;
    ghost var fs := FieldsAt(s, req.Fields());
    FramingRule.RequestSaid(fs, req.version, policy.rejectTeCl, req.contentLength);
    ghost var f := FactsOf(fs);
    var g := NO_FLAGS;
    var i := 0;
    NoFacts();
    NoRequestFacts();
    assert fs[..0] == [];
    while i < req.numHeaders
      invariant 0 <= i <= req.numHeaders
      invariant RequestTracks(FactsOf(fs[..i]), g, req.expectsContinue)
      invariant req.contentLength == old(req.contentLength)
    {
      var h := req.headers[i];
      var name, value := s[h.name..h.name + h.nameLen], s[h.value..h.value + h.valueLen];
      assert fs[i] == Field(name, value);
      var k := Classify(name);
      FactsSnoc(fs, i);
      var valid, g', continues := AbsorbRequest(k, value, g, req.expectsContinue, vt, FactsOf(fs[..i]));
      if !valid {
        FactsWithin(fs, i + 1);
        if RequestFieldsOk(f) {
          RequestOkWithin(FactsOf(fs[..i + 1]), f);
        }
        return Error;
      }
      g := g';
      req.expectsContinue := continues;
      i := i + 1;
    }
    assert fs[..i] == fs;
    status := ConcludeRequest(req, g, policy, f);
  }

  lemma NoRequestFacts()
    ensures FactsOf([]).host == [] && FactsOf([]).expectations == []
  {
  }

  /** The verdict and the outcome of a request in terms of the flags. */
  predicate FlagsAccept(g: Flags, version: Version, rejectTeCl: bool) {
    && !(g.hasTe && g.hasCl && rejectTeCl) && (version == Http11 ==> g.hasHost)
    && g.chunkedCount <= 1 && (g.hasTe ==> g.chunked) && (g.hasTrailer ==> g.hasTe)
  }

  function FlagsFraming(g: Flags, version: Version, lengthBefore: nat, continues: bool): Framing {
    Framing(
      if g.hasTe then ChunkedBody else if g.hasCl then FixedBody else NoBody,
      if !g.hasTe && g.hasCl then g.contentLength else lengthBefore,
      if g.close then false else if g.keepAlive then true else version == Http11,
      g.hasUpgrade && g.upgrade,
      g.hasExpectation && continues,
      g.hasTrailer)
  }

  lemma FlagsConsistent(f: Facts, g: Flags, continues: bool)
    requires RequestTracks(f, g, continues)
    ensures g.chunked ==> g.hasTe
  {
  }

  lemma FlagsDecideRequest(f: Facts, g: Flags, continues: bool, version: Version, rejectTeCl: bool, lengthBefore: nat)
    requires RequestTracks(f, g, continues)
    ensures RequestAccepted(f, version, rejectTeCl) <==> FlagsAccept(g, version, rejectTeCl)
    ensures LengthsOk(f.cl) && RequestFraming(f, version, lengthBefore)
          == FlagsFraming(g, version, lengthBefore, continues)
  {
    hide Says, CountChunked, EndsChunked, Trim, TeOk, TokensOk, UpgradeOk, LengthsOk, DecimalValue, HostOk,
          ExpectOk, EqIgnoreCase;
  }

  /** The checks and decisions after the loop. */
  method ConcludeRequest(req: Head.Request, g: Flags, policy: Policy, ghost f: Facts) returns (status: Status)
    requires RequestTracks(f, g, req.expectsContinue)
    modifies req`bodyMode, req`contentLength, req`keepAlive, req`protocolUpgrade, req`expectsContinue,
          req`hasTrailerFields
    ensures status == (if RequestAccepted(f, req.version, policy.rejectTeCl) then Ok else Error)
    ensures status == Ok ==> RequestOutcome(req) == RequestFraming(f, req.version, old(req.contentLength))
  {
    hide RequestTracks, RequestAccepted, RequestFraming;
    FlagsDecideRequest(f, g, req.expectsContinue, req.version, policy.rejectTeCl, req.contentLength);
    FlagsConsistent(f, g, req.expectsContinue);
    if g.hasTe && g.hasCl && policy.rejectTeCl {
      return Error;
    }
    if req.version == Http11 && !g.hasHost {
      return Error;
    }
    if g.chunkedCount > 1 {
      return Error;
    }
    if g.hasTe && !g.chunked {
      return Error;
    }
    var hasConnection := DecideConnection(req, g);
    DecideBody(req, g);
    if g.hasTrailer && req.bodyMode != ChunkedBody {
      return Error;
    }
    FinishRequest(req, g, hasConnection);
    return Ok;
  }

  method DecideConnection(req: Head.Request, g: Flags) returns (decided: bool)
    modifies req`keepAlive
    ensures decided == (g.close || g.keepAlive)
    ensures req.keepAlive == if g.close then false else if g.keepAlive then true else old(req.keepAlive)
  {
    decided := false;
    if g.close {
      req.keepAlive := false;
      decided := true;
    } else if g.keepAlive {
      req.keepAlive := true;
      decided := true;
    }
  }

  method DecideBody(req: Head.Request, g: Flags)
    modifies req`bodyMode, req`contentLength
    ensures req.bodyMode == if g.hasTe && g.chunked then ChunkedBody else if g.hasCl then FixedBody else NoBody
    ensures req.contentLength == if req.bodyMode == FixedBody then g.contentLength else old(req.contentLength)
  {
    if g.hasTe && g.chunked {
      req.bodyMode := ChunkedBody;
    } else if g.hasCl {
      req.bodyMode := FixedBody;
      req.contentLength := g.contentLength;
    } else {
      req.bodyMode := NoBody;
    }
  }

  method FinishRequest(req: Head.Request, g: Flags, hasConnection: bool)
    modifies req`keepAlive, req`protocolUpgrade, req`expectsContinue, req`hasTrailerFields
    ensures req.protocolUpgrade == (g.hasUpgrade && g.upgrade) && req.hasTrailerFields == g.hasTrailer
    ensures req.expectsContinue == (g.hasExpectation && old(req.expectsContinue))
    ensures req.keepAlive == if hasConnection then old(req.keepAlive) else req.version == Http11
  {
    req.protocolUpgrade := g.hasUpgrade && g.upgrade;
    req.hasTrailerFields := g.hasTrailer;
    if !g.hasExpectation {
      req.expectsContinue := false;
    }
    if !hasConnection {
      req.keepAlive := req.version == Http11;
    }
  }

  /** Framing of a parsed response. */
  method ApplyResponseSemantics(s: seq<byte>, resp: Head.Response, policy: Policy, vt: Scanner.Vtable)
    returns (status: Status)
    requires resp.Valid()
    requires forall i :: 0 <= i < resp.numHeaders ==> Inside(s, resp.headers[i])
    modifies resp`bodyMode, resp`contentLength, resp`keepAlive, resp`protocolUpgrade, resp`hasTrailerFields
    ensures var f := FactsOf(FieldsAt(s, resp.Fields()));
            && status == (if ResponseAccepted(f, resp.statusCode, policy.rejectTeCl) then Ok else Error)
            && (status == Ok ==>
                  ResponseOutcome(resp)
                  == ResponseFraming(f, resp.version, resp.statusCode, old(resp.contentLength), old(resp.keepAlive)))
    ensures var fs := FieldsAt(s, resp.Fields());
            && (status == Ok <==> FramingRule.ResponseRule(fs, resp.statusCode, policy.rejectTeCl))
            && (status == Ok ==>
                  FramingRule.ResponseOutcomeIs(fs, resp.version, resp.statusCode, old(resp.contentLength),
                                                old(resp.keepAlive), ResponseOutcome(resp)))
  {
    hide FactsOf, KindOf, Elements, Tracks, CommonFieldsOk, WithField, TurnedDown, ResponseFraming;
    hide FramingRule.ResponseRule, FramingRule.ResponseOutcomeIs;
    ghost var fs := FieldsAt(s, resp.Fields());
    FramingRule.ResponseSaid(fs, resp.version, resp.statusCode, policy.rejectTeCl, resp.contentLength, resp.keepAlive);
    ghost var f := FactsOf(fs);
    var g := NO_FLAGS;
    var i := 0;
    NoFacts();
    IgnoresHost(FactsOf([]), NO_FLAGS);
    assert fs[..0] == [];
    while i < resp.numHeaders
      invariant 0 <= i <= resp.numHeaders
      invariant Tracks(TurnedDown(FactsOf(fs[..i])), g)
      invariant resp.contentLength == old(resp.contentLength) && resp.keepAlive == old(resp.keepAlive)
    {
      var h := resp.headers[i];
      var name, value := s[h.name..h.name + h.nameLen], s[h.value..h.value + h.valueLen];
      assert fs[i] == Field(name, value);
      var k := Classify(name);
      FactsSnoc(fs, i);
      TurnedDownWithField(FactsOf(fs[..i]), k, value);
      if k != KHost && k != KExpect {
        var valid, g' := Absorb(k, value, g, vt, TurnedDown(FactsOf(fs[..i])));
        if !valid {
          FactsWithin(fs, i + 1);
          if CommonFieldsOk(f) {
            CommonOkWithin(FactsOf(fs[..i + 1]), f);
            IgnoresHost(FactsOf(fs[..i + 1]), g);
          }
          return Error;
        }
        g := g';
      }
      i := i + 1;
    }
    assert fs[..i] == fs;
    IgnoresHost(f, g);
    status := ConcludeResponse(resp, g, policy, f);
  }

  /** Responses look at neither Host nor Expect. */
  function TurnedDown(f: Facts): Facts {
    f.(host := [], expectations := [])
  }

  lemma TurnedDownWithField(f: Facts, k: Kind, v: seq<byte>)
    ensures TurnedDown(WithField(f, k, v))
            == if k == KHost || k == KExpect then TurnedDown(f) else WithField(TurnedDown(f), k, v)
  {
    hide Elements;
  }

  lemma IgnoresHost(f: Facts, g: Flags)
    ensures Tracks(TurnedDown(f), g) <==> Tracks(f, g)
    ensures CommonFieldsOk(TurnedDown(f)) <==> CommonFieldsOk(f)
  {
    hide Says, TeOk, TokensOk, LengthsOk, UpgradeOk, EndsChunked, CountChunked;
  }

  /** The body mode and the verdict on a response in terms of the flags. */
  function FlagsBodyMode(g: Flags, code: int): BodyMode {
    if Bodiless(code) then NoBody
    else if g.hasTe && g.chunked then ChunkedBody
    else if g.hasCl then FixedBody
    else UntilClose
  }

  predicate FlagsAcceptResponse(g: Flags, code: int, rejectTeCl: bool) {
    && !(g.hasTe && g.hasCl && rejectTeCl) && g.chunkedCount <= 1
    && (g.hasTrailer ==> FlagsBodyMode(g, code) == ChunkedBody)
  }

  function FlagsResponseFraming(g: Flags, version: Version, code: int, lengthBefore: nat, keepBefore: bool): Framing {
    var mode := FlagsBodyMode(g, code);
    var switches := code == 101 && g.hasUpgrade && g.upgrade && !g.close;
    Framing(
      mode,
      if mode == FixedBody then g.contentLength else lengthBefore,
      if g.close || switches then false
      else if g.keepAlive then true
      else if version == Http11 && mode != UntilClose then true
      else keepBefore,
      switches, false, g.hasTrailer)
  }

  lemma FlagsDecideResponse(f: Facts, g: Flags, version: Version, code: int, rejectTeCl: bool, lengthBefore: nat,
        keepBefore: bool)
    requires Tracks(f, g)
    ensures ResponseAccepted(f, code, rejectTeCl) <==> FlagsAcceptResponse(g, code, rejectTeCl)
    ensures LengthsOk(f.cl)
    ensures ResponseFraming(f, version, code, lengthBefore, keepBefore)
            == FlagsResponseFraming(g, version, code, lengthBefore, keepBefore)
  {
    hide Says, CountChunked, IsChunked, TeOk, TokensOk, UpgradeOk, LengthsOk, DecimalValue;
  }

  method ConcludeResponse(resp: Head.Response, g: Flags, policy: Policy, ghost f: Facts) returns (status: Status)
    requires Tracks(f, g)
    modifies resp`bodyMode, resp`contentLength, resp`keepAlive, resp`protocolUpgrade, resp`hasTrailerFields
    ensures status == (if ResponseAccepted(f, resp.statusCode, policy.rejectTeCl) then Ok else Error)
    ensures status == Ok ==>
              ResponseOutcome(resp)
              == ResponseFraming(f, resp.version, resp.statusCode, old(resp.contentLength), old(resp.keepAlive))
  {
    hide Tracks, ResponseAccepted, ResponseFraming;
    FlagsDecideResponse(f, g, resp.version, resp.statusCode, policy.rejectTeCl, resp.contentLength, resp.keepAlive);
    var hasConnection := false;
    if g.hasTe && g.hasCl && policy.rejectTeCl {
      return Error;
    }
    if g.chunkedCount > 1 {
      return Error;
    }
    if g.close {
      resp.keepAlive := false;
      hasConnection := true;
    } else if g.keepAlive {
      resp.keepAlive := true;
      hasConnection := true;
    }
    DecideResponseBody(resp, g);
    if g.hasTrailer && resp.bodyMode != ChunkedBody {
      return Error;
    }
    FinishResponse(resp, g, hasConnection);
    return Ok;
  }

  /** 1xx, 204 and 304 never have a body, whatever the fields say. */
  method DecideResponseBody(resp: Head.Response, g: Flags)
    modifies resp`bodyMode, resp`contentLength
    ensures resp.bodyMode == FlagsBodyMode(g, resp.statusCode)
    ensures resp.contentLength == if resp.bodyMode == FixedBody then g.contentLength else old(resp.contentLength)
  {
    if (resp.statusCode >= 100 && resp.statusCode < 200) || resp.statusCode == 204 || resp.statusCode == 304 {
      resp.bodyMode := NoBody;
    } else if g.hasTe && g.chunked {
      resp.bodyMode := ChunkedBody;
    } else if g.hasCl {
      resp.bodyMode := FixedBody;
      resp.contentLength := g.contentLength;
    } else {
      resp.bodyMode := UntilClose;
    }
  }

  method FinishResponse(resp: Head.Response, g: Flags, hasConnection: bool)
    modifies resp`keepAlive, resp`protocolUpgrade, resp`hasTrailerFields
    ensures resp.protocolUpgrade == (resp.statusCode == 101 && g.hasUpgrade && g.upgrade && !g.close)
    ensures resp.hasTrailerFields == g.hasTrailer
    ensures resp.keepAlive ==
            if resp.protocolUpgrade then false
            else if !hasConnection && resp.version == Http11 && resp.bodyMode != UntilClose then true
            else old(resp.keepAlive)
  {
    var decided := hasConnection;
    resp.protocolUpgrade := resp.statusCode == 101 && g.hasUpgrade && g.upgrade && !g.close;
    resp.hasTrailerFields := g.hasTrailer;
    if resp.protocolUpgrade {
      resp.keepAlive := false;
      decided := true;
    }
    if !decided && resp.version == Http11 && resp.bodyMode != UntilClose {
      resp.keepAlive := true;
    }
  }
}
