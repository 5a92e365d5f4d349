/** Framing as a rule about fields with literal names: when a message is accepted and how its body is
    delimited, name by name. The functions of module SemanticsSpec are proved to say exactly this. */
module FramingRule {
  import opened Bytes
  import opened Types
  import opened Spelling
  import opened Numbers
  import opened SemanticsSpec

  // ----- fields by name

  /** Values of the fields of that name in any case, in order. */
  ghost function Values(fs: seq<Field>, name: string): seq<seq<byte>> {
    if fs == [] then []
    else Values(fs[..|fs| - 1], name) + if AnyCase(fs[|fs| - 1].name, name) then [fs[|fs| - 1].value] else []
  }

  function AllElements(vs: seq<seq<byte>>): seq<seq<byte>> {
    if vs == [] then [] else AllElements(vs[..|vs| - 1]) + Elements(vs[|vs| - 1])
  }

  /** The list elements of all fields of that name together. */
  ghost function Listed(fs: seq<Field>, name: string): seq<seq<byte>> {
    AllElements(Values(fs, name))
  }

  lemma CaseIgnored(t: seq<byte>, name: string)
    requires LowerCase(name)
    ensures EqIgnoreCase(t, Ascii(name)) <==> AnyCase(t, name)
  {
    forall k | 0 <= k < |name| && k < |t|
      ensures Lower(t[k]) == Lower(Ascii(name)[k]) <==> SameLetter(t[k], name[k])
    {
      LetterOfEitherCase(t[k], name[k]);
    }
  }

  lemma LongNamesSpelled()
    ensures TRANSFER_ENCODING == Ascii("transfer-encoding")
    ensures CONTENT_LENGTH == Ascii("content-length")
  {
  }

  lemma ShortNamesSpelled()
    ensures CONNECTION == Ascii("connection") && UPGRADE == Ascii("upgrade") && HOST == Ascii("host")
    ensures EXPECT == Ascii("expect") && TRAILER == Ascii("trailer")
  {
  }

  lemma NamesLower()
    ensures LowerCase("transfer-encoding") && LowerCase("content-length") && LowerCase("connection")
    ensures LowerCase("upgrade") && LowerCase("host") && LowerCase("expect") && LowerCase("trailer")
  {
  }

  lemma OptionsSpelled()
    ensures CHUNKED == Ascii("chunked") && CLOSE == Ascii("close")
    ensures KEEP_ALIVE == Ascii("keep-alive") && CONTINUE_100 == Ascii("100-continue")
  {
  }

  lemma OptionsLower()
    ensures LowerCase("chunked") && LowerCase("close") && LowerCase("keep-alive") && LowerCase("100-continue")
  {
  }

  lemma NamesDiffer(t: seq<byte>)
    ensures EqIgnoreCase(t, TRANSFER_ENCODING) ==> |t| == 17
    ensures EqIgnoreCase(t, CONTENT_LENGTH) ==> |t| == 14
    ensures EqIgnoreCase(t, CONNECTION) ==> |t| == 10
    ensures EqIgnoreCase(t, UPGRADE) ==> |t| == 7 && Lower(t[0]) == 117
    ensures EqIgnoreCase(t, HOST) ==> |t| == 4
    ensures EqIgnoreCase(t, EXPECT) ==> |t| == 6
    ensures EqIgnoreCase(t, TRAILER) ==> |t| == 7 && Lower(t[0]) == 116
  {
  }

  /** The name of each kind. */
  function NameOf(k: Kind): string {
    match k
    case KTransferEncoding => "transfer-encoding"
    case KContentLength => "content-length"
    case KConnection => "connection"
    case KUpgrade => "upgrade"
    case KHost => "host"
    case KExpect => "expect"
    case KTrailer => "trailer"
    case KOther => ""
  }

  lemma KindIsName(t: seq<byte>, k: Kind)
    requires k != KOther
    ensures KindOf(t) == k <==> AnyCase(t, NameOf(k))
  {
    hide AnyCase, EqIgnoreCase, Ascii;
    LongNamesSpelled();
    ShortNamesSpelled();
    NamesLower();
    NamesDiffer(t);
    CaseIgnored(t, NameOf(k));
  }

  predicate ListKind(k: Kind) {
    k == KTransferEncoding || k == KConnection || k == KTrailer
  }

  lemma {:induction false} GatherValues(fs: seq<Field>, k: Kind)
    requires k != KOther
    ensures Gather(fs, k) == if ListKind(k) then Listed(fs, NameOf(k)) else Values(fs, NameOf(k))
    decreases |fs|
  {
    hide KindOf, Elements, AnyCase, NameOf;
    if fs != [] {
      var init, last := fs[..|fs| - 1], fs[|fs| - 1];
      GatherValues(init, k);
      KindIsName(last.name, k);
      var vs := Values(init, NameOf(k));
      if AnyCase(last.name, NameOf(k)) {
        assert (vs + [last.value])[..|vs|] == vs;
      } else {
        assert vs + [] == vs;
        assert Gather(init, k) + [] == Gather(init, k);
      }
    }
  }

  lemma FactsByName(fs: seq<Field>)
    ensures FactsOf(fs) == Facts(Listed(fs, "transfer-encoding"), Values(fs, "content-length"),
                                 Listed(fs, "connection"), Values(fs, "upgrade"), Values(fs, "host"),
                                 Values(fs, "expect"), Listed(fs, "trailer"))
  {
    hide Gather, Listed, Values;
    GatherValues(fs, KTransferEncoding);
    GatherValues(fs, KContentLength);
    GatherValues(fs, KConnection);
    GatherValues(fs, KUpgrade);
    GatherValues(fs, KHost);
    GatherValues(fs, KExpect);
    GatherValues(fs, KTrailer);
  }

  lemma ListedIsThere(fs: seq<Field>, name: string)
    ensures Listed(fs, name) == [] <==> Values(fs, name) == []
  {
    hide Elements;
  }

  // ----- values

  /** A non-empty token. */
  ghost predicate IsToken(e: seq<byte>) {
    e != [] && AllToken(e, 0, |e|)
  }

  /** A transfer coding: a name of n octets, and with params a semicolon behind optional whitespace. */
  ghost predicate Coding(e: seq<byte>, n: nat, params: bool) {
    && 0 < n <= |e| && AllToken(e, 0, n)
    && if params then exists semi: nat :: n <= semi < |e| && e[semi] == 59
                                          && forall k :: n <= k < semi ==> e[k] == 32 || e[k] == 9
       else n == |e|
  }

  /** A coding, and chunked has no parameters. */
  ghost predicate IsCoding(e: seq<byte>) {
    exists n: nat, params: bool :: Coding(e, n, params) && !(params && AnyCase(e[..n], "chunked"))
  }

  /** All values spell one and the same number of 64 bits. */
  ghost predicate SameLength(cl: seq<seq<byte>>, n: nat) {
    && n < 0x1_0000_0000_0000_0000
    && forall i :: 0 <= i < |cl| ==> cl[i] != [] && SpellsDecimal(cl[i], n)
  }

  /** Something other than whitespace. */
  ghost predicate NotBlank(v: seq<byte>) {
    exists k :: 0 <= k < |v| && v[k] != 32 && v[k] != 9
  }

  /** Chunked is the last coding, if there is one, and no other. */
  ghost predicate ChunkedLast(te: seq<seq<byte>>) {
    forall i :: 0 <= i < |te| ==> (AnyCase(te[i], "chunked") <==> i == |te| - 1)
  }

  /** Chunked occurs at most once. */
  ghost predicate ChunkedOnce(te: seq<seq<byte>>) {
    forall i, j :: 0 <= i < j < |te| ==> !(AnyCase(te[i], "chunked") && AnyCase(te[j], "chunked"))
  }

  ghost predicate Offers(es: seq<seq<byte>>, option: string) {
    exists i :: 0 <= i < |es| && AnyCase(es[i], option)
  }

  /** The value is the word between optional whitespace. */
  ghost predicate Is(v: seq<byte>, word: string) {
    exists i: nat, j: nat ::
      && i <= j <= |v| && AnyCase(v[i..j], word)
      && forall k :: 0 <= k < |v| && !(i <= k < j) ==> v[k] == 32 || v[k] == 9
  }

  // ----- the rule

  /** What requests and responses share. */
  ghost predicate FieldsRule(fs: seq<Field>, rejectTeCl: bool) {
    && (forall e :: e in Listed(fs, "transfer-encoding") ==> IsCoding(e))
    && (exists n: nat :: SameLength(Values(fs, "content-length"), n))
    && (forall e :: e in Listed(fs, "connection") ==> IsToken(e))
    && (forall e :: e in Listed(fs, "trailer") ==> IsToken(e))
    && (forall v :: v in Values(fs, "upgrade") ==> AllToken(v, 0, |v|))
    && !(rejectTeCl && Values(fs, "transfer-encoding") != [] && Values(fs, "content-length") != [])
  }

  ghost predicate RequestRule(fs: seq<Field>, version: Version, rejectTeCl: bool) {
    && FieldsRule(fs, rejectTeCl)
    && |Values(fs, "host")| <= 1 && (version == Http11 ==> |Values(fs, "host")| == 1)
    && (forall v :: v in Values(fs, "host") ==> v != [])
    && (forall v :: v in Values(fs, "expect") ==> NotBlank(v))
    && ChunkedLast(Listed(fs, "transfer-encoding"))
    && (Values(fs, "trailer") != [] ==> Values(fs, "transfer-encoding") != [])
  }

  /** Whether the connection stays open: close wins, then keep-alive, then the default. */
  ghost function KeepRule(fs: seq<Field>, otherwise: bool): bool {
    if Offers(Listed(fs, "connection"), "close") then false
    else Offers(Listed(fs, "connection"), "keep-alive") || otherwise
  }

  ghost predicate RequestOutcomeIs(fs: seq<Field>, version: Version, lengthBefore: nat, f: Framing) {
    && (f.mode == ChunkedBody <==> Values(fs, "transfer-encoding") != [])
    && (f.mode == FixedBody <==> Values(fs, "transfer-encoding") == [] && Values(fs, "content-length") != [])
    && (f.mode == NoBody <==> Values(fs, "transfer-encoding") == [] && Values(fs, "content-length") == [])
    && (if f.mode == FixedBody then SameLength(Values(fs, "content-length"), f.contentLength)
        else f.contentLength == lengthBefore)
    && f.keepAlive == KeepRule(fs, version == Http11)
    && f.upgrade == (Values(fs, "upgrade") != [] && Offers(Listed(fs, "connection"), "upgrade"))
    && f.expectsContinue == (var vs := Values(fs, "expect"); vs != [] && Is(vs[|vs| - 1], "100-continue"))
    && f.trailerFields == (Values(fs, "trailer") != [])
  }

  /** Informational responses, No Content and Not Modified. */
  predicate NeverHasBody(code: int) {
    100 <= code <= 199 || code == 204 || code == 304
  }

  ghost predicate LastIsChunked(fs: seq<Field>) {
    var te := Listed(fs, "transfer-encoding"); te != [] && AnyCase(te[|te| - 1], "chunked")
  }

  ghost predicate ResponseRule(fs: seq<Field>, code: int, rejectTeCl: bool) {
    && FieldsRule(fs, rejectTeCl)
    && ChunkedOnce(Listed(fs, "transfer-encoding"))
    && (Values(fs, "trailer") != [] ==> !NeverHasBody(code) && LastIsChunked(fs))
  }

  /** A 101 response that names a protocol and does not close. */
  ghost predicate Switches(fs: seq<Field>, code: int) {
    && code == 101 && Values(fs, "upgrade") != []
    && Offers(Listed(fs, "connection"), "upgrade") && !Offers(Listed(fs, "connection"), "close")
  }

  ghost predicate ResponseOutcomeIs(fs: seq<Field>, version: Version, code: int, lengthBefore: nat, keepBefore: bool,
                                    f: Framing) {
    && (f.mode == NoBody <==> NeverHasBody(code))
    && (f.mode == ChunkedBody <==> !NeverHasBody(code) && LastIsChunked(fs))
    && (f.mode == FixedBody <==>
          !NeverHasBody(code) && !LastIsChunked(fs) && Values(fs, "content-length") != [])
    && (f.mode == UntilClose <==>
          !NeverHasBody(code) && !LastIsChunked(fs) && Values(fs, "content-length") == [])
    && (if f.mode == FixedBody then SameLength(Values(fs, "content-length"), f.contentLength)
        else f.contentLength == lengthBefore)
    && f.keepAlive == (!Switches(fs, code)
                       && KeepRule(fs, (version == Http11 && f.mode != UntilClose) || keepBefore))
    && f.upgrade == Switches(fs, code) && !f.expectsContinue
    && f.trailerFields == (Values(fs, "trailer") != [])
  }

  // ----- the parts of the rule, one by one

  lemma ChunkedCase(e: seq<byte>)
    ensures EqIgnoreCase(e, CHUNKED) <==> AnyCase(e, "chunked")
  {
    hide AnyCase, EqIgnoreCase, Ascii;
    OptionsSpelled();
    OptionsLower();
    CaseIgnored(e, "chunked");
  }

  lemma TrimTo(e: seq<byte>, n: nat, semi: nat)
    requires 0 < n <= semi <= |e| && !IsLws(e[n - 1]) && forall k :: n <= k < semi ==> IsLws(e[k])
    ensures TrimLws(e, 0, semi) == n
  {
  }

  lemma FirstSemicolon(e: seq<byte>, n: nat, semi: nat)
    requires n <= semi < |e| && e[semi] == SEMICOLON && AllToken(e, 0, n)
    requires forall k :: n <= k < semi ==> IsLws(e[k])
    ensures Find(e, 0, |e|, SEMICOLON) == semi
  {
  }

  /** The coding name ends at the whitespace in front of the first semicolon. */
  lemma CodingParts(e: seq<byte>, n: nat, params: bool)
    requires Coding(e, n, params)
    ensures HasParams(e) == params && CodingName(e) == e[..n]
  {
    assert IsTokenChar(e[n - 1]);
    if params {
      var semi: nat :| n <= semi < |e| && e[semi] == 59 && forall k :: n <= k < semi ==> e[k] == 32 || e[k] == 9;
      FirstSemicolon(e, n, semi);
      TrimTo(e, n, semi);
    } else {
      assert Find(e, 0, |e|, SEMICOLON) == |e|;
      assert e[..n] == e;
    }
  }

  lemma CodingOk(e: seq<byte>)
    ensures ValidCoding(e) <==> IsCoding(e)
  {
    hide AnyCase, EqIgnoreCase;
    if n: nat, params: bool :| Coding(e, n, params) && !(params && AnyCase(e[..n], "chunked")) {
      CodingParts(e, n, params);
      ChunkedCase(e[..n]);
      assert forall k :: 0 <= k < n ==> e[..n][k] == e[k];
    }
    if ValidCoding(e) {
      var semi := Find(e, 0, |e|, SEMICOLON);
      var n := |CodingName(e)|;
      CodingOfName(e);
      CodingParts(e, n, semi < |e|);
      ChunkedCase(e[..n]);
    }
  }

  lemma CodingOfName(e: seq<byte>)
    requires TokenElement(CodingName(e))
    ensures Coding(e, |CodingName(e)|, HasParams(e))
  {
    var semi := Find(e, 0, |e|, SEMICOLON);
    var name := CodingName(e);
    assert name == e[..|name|];
    assert forall k :: 0 <= k < |name| ==> e[k] == name[k];
    if semi < |e| {
      assert |name| <= semi < |e| && e[semi] == 59;
    }
  }

  lemma CodingsAreOk(te: seq<seq<byte>>)
    ensures TeOk(te) <==> forall e :: e in te ==> IsCoding(e)
  {
    hide ValidCoding, IsCoding;
    forall e
      ensures ValidCoding(e) <==> IsCoding(e)
    {
      CodingOk(e);
    }
    if forall e :: e in te ==> IsCoding(e) {
      forall i | 0 <= i < |te|
        ensures ValidCoding(te[i])
      {
        assert te[i] in te;
      }
    }
  }

  /** Among valid codings the chunked ones are exactly the word itself. */
  lemma ChunkedIsTheWord(e: seq<byte>)
    requires ValidCoding(e)
    ensures IsChunked(e) <==> AnyCase(e, "chunked")
  {
    hide AnyCase, EqIgnoreCase;
    ChunkedCase(CodingName(e));
    if AnyCase(e, "chunked") {
      ChunkedHasNoSemicolon(e);
    }
  }

  lemma ChunkedHasNoSemicolon(e: seq<byte>)
    requires AnyCase(e, "chunked")
    ensures Find(e, 0, |e|, SEMICOLON) == |e|
  {
    forall k | 0 <= k < |e|
      ensures e[k] != SEMICOLON
    {
      var x := "chunked"[k];
      LetterOfEitherCase(e[k], x);
    }
  }

  lemma {:induction false} NoneChunked(es: seq<seq<byte>>)
    requires forall i :: 0 <= i < |es| ==> !IsChunked(es[i])
    ensures CountChunked(es) == 0
    decreases |es|
  {
    hide IsChunked;
    if es != [] {
      NoneChunked(es[..|es| - 1]);
    }
  }

  lemma {:induction false} CountBounds(es: seq<seq<byte>>, k: nat)
    requires k < |es| && IsChunked(es[k])
    ensures CountChunked(es) >= 1
    ensures k < |es| - 1 && IsChunked(es[|es| - 1]) ==> CountChunked(es) >= 2
    decreases |es|
  {
    hide IsChunked;
    if k < |es| - 1 {
      CountBounds(es[..|es| - 1], k);
    }
  }

  /** At most one is chunked. */
  lemma {:induction false} AtMostOne(es: seq<seq<byte>>)
    ensures CountChunked(es) <= 1 <==>
            forall i, j :: 0 <= i < j < |es| ==> !(IsChunked(es[i]) && IsChunked(es[j]))
    decreases |es|
  {
    hide IsChunked;
    if es != [] {
      var init, last := es[..|es| - 1], es[|es| - 1];
      AtMostOne(init);
      if IsChunked(last) {
        if forall i :: 0 <= i < |init| ==> !IsChunked(init[i]) {
          NoneChunked(init);
        } else {
          var i :| 0 <= i < |init| && IsChunked(init[i]);
          CountBounds(init, i);
          assert IsChunked(es[i]) && IsChunked(es[|es| - 1]);
        }
      } else if exists i, j :: 0 <= i < j < |init| && IsChunked(init[i]) && IsChunked(init[j]) {
        var i, j :| 0 <= i < j < |init| && IsChunked(init[i]) && IsChunked(init[j]);
        assert IsChunked(es[i]) && IsChunked(es[j]);
      }
    }
  }

  /** The last and no other. */
  lemma OnlyTheLast(te: seq<seq<byte>>)
    requires TeOk(te)
    ensures CountChunked(te) <= 1 && (te != [] ==> EndsChunked(te))
            <==> ChunkedLast(te)
  {
    hide AnyCase, IsChunked, CountChunked, ValidCoding;
    AtMostOne(te);
    forall i | 0 <= i < |te|
      ensures IsChunked(te[i]) <==> AnyCase(te[i], "chunked")
    {
      ChunkedIsTheWord(te[i]);
    }
  }

  lemma AtMostOneByName(te: seq<seq<byte>>)
    requires TeOk(te)
    ensures CountChunked(te) <= 1
            <==> ChunkedOnce(te)
    ensures EndsChunked(te) <==> te != [] && AnyCase(te[|te| - 1], "chunked")
  {
    hide AnyCase, IsChunked, CountChunked, ValidCoding;
    AtMostOne(te);
    forall i | 0 <= i < |te|
      ensures IsChunked(te[i]) <==> AnyCase(te[i], "chunked")
    {
      ChunkedIsTheWord(te[i]);
    }
  }

  lemma LengthsAreOk(cl: seq<seq<byte>>)
    ensures LengthsOk(cl) <==> exists n: nat :: SameLength(cl, n)
    ensures LengthsOk(cl) && cl != [] ==> SameLength(cl, DecimalValue(cl[0]))
  {
    hide AllDigits, DecimalValue, SpellsDecimal;
    forall i | 0 <= i < |cl|
      ensures forall n: nat :: AllDigits(cl[i]) && DecimalValue(cl[i]) == n <==> SpellsDecimal(cl[i], n)
    {
      forall n: nat
        ensures AllDigits(cl[i]) && DecimalValue(cl[i]) == n <==> SpellsDecimal(cl[i], n)
      {
        DecimalValueSpells(cl[i], n);
      }
    }
    if LengthsOk(cl) {
      if cl == [] {
        assert SameLength(cl, 0);
      } else {
        assert SameLength(cl, DecimalValue(cl[0]));
      }
    }
  }

  lemma SaysIsOffers(es: seq<seq<byte>>, option: string)
    requires LowerCase(option)
    ensures Says(es, Ascii(option)) <==> Offers(es, option)
  {
    hide AnyCase, EqIgnoreCase, Ascii;
    forall i | 0 <= i < |es|
      ensures EqIgnoreCase(es[i], Ascii(option)) <==> AnyCase(es[i], option)
    {
      CaseIgnored(es[i], option);
    }
  }

  lemma BlankTrims(v: seq<byte>)
    ensures Trim(v) != [] <==> NotBlank(v)
  {
    var first := SkipLws(v, 0, |v|);
    if first < |v| {
      assert v[first] != 32 && v[first] != 9;
    }
  }

  /** A word that neither begins nor ends in whitespace is found by trimming. */
  lemma TrimIsWord(v: seq<byte>, i: nat, j: nat)
    requires i < j <= |v| && !IsLws(v[i]) && !IsLws(v[j - 1])
    requires forall k :: 0 <= k < |v| && !(i <= k < j) ==> v[k] == 32 || v[k] == 9
    ensures Trim(v) == v[i..j]
  {
    assert SkipLws(v, 0, |v|) == i;
    assert TrimLws(v, i, |v|) == j;
  }

  lemma ContinueEnds(w: seq<byte>)
    requires AnyCase(w, "100-continue")
    ensures |w| == 12 && !IsLws(w[0]) && !IsLws(w[11])
  {
    LetterOfEitherCase(w[0], "100-continue"[0]);
    LetterOfEitherCase(w[11], "100-continue"[11]);
  }

  lemma ContinueCase(t: seq<byte>)
    ensures EqIgnoreCase(t, CONTINUE_100) <==> AnyCase(t, "100-continue")
  {
    hide AnyCase, EqIgnoreCase, Ascii;
    OptionsSpelled();
    OptionsLower();
    CaseIgnored(t, "100-continue");
  }

  lemma ContinueIsWord(v: seq<byte>)
    ensures EqIgnoreCase(Trim(v), CONTINUE_100) <==> Is(v, "100-continue")
  {
    hide EqIgnoreCase, AnyCase, Trim;
    ContinueCase(Trim(v));
    if i: nat, j: nat :| i <= j <= |v| && AnyCase(v[i..j], "100-continue")
                         && forall k :: 0 <= k < |v| && !(i <= k < j) ==> v[k] == 32 || v[k] == 9 {
      ContinueEnds(v[i..j]);
      TrimIsWord(v, i, j);
    }
    if AnyCase(Trim(v), "100-continue") {
      TrimParts(v);
    }
  }

  lemma TrimParts(v: seq<byte>)
    ensures var i := SkipLws(v, 0, |v|);
            var j := TrimLws(v, i, |v|);
            Trim(v) == v[i..j] && forall k :: 0 <= k < |v| && !(i <= k < j) ==> v[k] == 32 || v[k] == 9
  {
  }

  lemma TokensByMembership(es: seq<seq<byte>>)
    ensures TokensOk(es) <==> forall e :: e in es ==> IsToken(e)
    ensures UpgradeOk(es) <==> forall v :: v in es ==> AllToken(v, 0, |v|)
  {
    hide AllToken;
    assert forall i :: 0 <= i < |es| ==> es[i] in es;
  }

  // ----- the rule as a whole

  lemma FieldsByRule(fs: seq<Field>, rejectTeCl: bool)
    ensures var f := FactsOf(fs);
            CommonFieldsOk(f) && !(f.te != [] && f.cl != [] && rejectTeCl) <==> FieldsRule(fs, rejectTeCl)
  {
    hide TeOk, LengthsOk, TokensOk, UpgradeOk, IsCoding, SameLength, IsToken, AllToken, Listed, Values;
    FactsByName(fs);
    CodingsAreOk(Listed(fs, "transfer-encoding"));
    LengthsAreOk(Values(fs, "content-length"));
    TokensByMembership(Listed(fs, "connection"));
    TokensByMembership(Listed(fs, "trailer"));
    TokensByMembership(Values(fs, "upgrade"));
    ListedIsThere(fs, "transfer-encoding");
  }

  lemma HostByMembership(host: seq<seq<byte>>)
    ensures HostOk(host) <==> |host| <= 1 && forall v :: v in host ==> v != []
  {
    assert forall i :: 0 <= i < |host| ==> host[i] in host;
  }

  lemma ExpectByMembership(vs: seq<seq<byte>>)
    ensures ExpectOk(vs) <==> forall v :: v in vs ==> NotBlank(v)
  {
    hide Trim;
    forall v
      ensures Trim(v) != [] <==> NotBlank(v)
    {
      BlankTrims(v);
    }
    assert forall i :: 0 <= i < |vs| ==> vs[i] in vs;
  }

  /** A request is accepted if and only if its fields keep the rule. */
  lemma RequestByRule(fs: seq<Field>, version: Version, rejectTeCl: bool)
    ensures RequestAccepted(FactsOf(fs), version, rejectTeCl) <==> RequestRule(fs, version, rejectTeCl)
  {
    hide CommonFieldsOk, FieldsRule, HostOk, ExpectOk, CountChunked, EndsChunked, NotBlank, ChunkedLast, Listed, Values;
    FactsByName(fs);
    FieldsByRule(fs, rejectTeCl);
    HostByMembership(Values(fs, "host"));
    ExpectByMembership(Values(fs, "expect"));
    ListedIsThere(fs, "transfer-encoding");
    ListedIsThere(fs, "trailer");
    if CommonFieldsOk(FactsOf(fs)) {
      CodingsOfCommon(FactsOf(fs));
      OnlyTheLast(Listed(fs, "transfer-encoding"));
    }
  }

  lemma CodingsOfCommon(f: Facts)
    requires CommonFieldsOk(f)
    ensures TeOk(f.te) && LengthsOk(f.cl)
  {
  }

  lemma OptionsByName(es: seq<seq<byte>>)
    ensures Says(es, CLOSE) <==> Offers(es, "close")
    ensures Says(es, KEEP_ALIVE) <==> Offers(es, "keep-alive")
    ensures Says(es, UPGRADE) <==> Offers(es, "upgrade")
  {
    hide Says, Offers, Ascii;
    ShortNamesSpelled();
    NamesLower();
    OptionsSpelled();
    OptionsLower();
    SaysIsOffers(es, "close");
    SaysIsOffers(es, "keep-alive");
    SaysIsOffers(es, "upgrade");
  }

  /** And then body, length, persistence, upgrade, 100-continue and trailer flag are the rule's. */
  lemma RequestOutcomeByRule(fs: seq<Field>, version: Version, lengthBefore: nat)
    requires LengthsOk(FactsOf(fs).cl)
    ensures RequestOutcomeIs(fs, version, lengthBefore, RequestFraming(FactsOf(fs), version, lengthBefore))
  {
    hide LengthsOk, SameLength, Says, Offers, Listed, Values, Trim, EqIgnoreCase, DecimalValue, FactsOf, Is;
    FactsByName(fs);
    LengthsAreOk(Values(fs, "content-length"));
    OptionsByName(Listed(fs, "connection"));
    ListedIsThere(fs, "transfer-encoding");
    ListedIsThere(fs, "trailer");
    var vs := Values(fs, "expect");
    if vs != [] {
      ContinueIsWord(vs[|vs| - 1]);
    }
  }

  /** A response is accepted if and only if its fields keep the rule. */
  lemma ResponseByRule(fs: seq<Field>, code: int, rejectTeCl: bool)
    ensures ResponseAccepted(FactsOf(fs), code, rejectTeCl) <==> ResponseRule(fs, code, rejectTeCl)
  {
    hide CommonFieldsOk, FieldsRule, CountChunked, EndsChunked, AnyCase, ChunkedOnce, Listed, Values;
    FactsByName(fs);
    FieldsByRule(fs, rejectTeCl);
    ListedIsThere(fs, "trailer");
    if CommonFieldsOk(FactsOf(fs)) {
      CodingsOfCommon(FactsOf(fs));
      AtMostOneByName(Listed(fs, "transfer-encoding"));
    }
  }

  /** Which responses have which body, with the codes in numbers, and the flags. */
  lemma ResponseOutcomeByRule(fs: seq<Field>, version: Version, code: int, lengthBefore: nat, keepBefore: bool)
    requires TeOk(FactsOf(fs).te) && LengthsOk(FactsOf(fs).cl)
    ensures ResponseOutcomeIs(fs, version, code, lengthBefore, keepBefore,
                              ResponseFraming(FactsOf(fs), version, code, lengthBefore, keepBefore))
  {
    hide TeOk, LengthsOk, SameLength, Says, Offers, Listed, Values, DecimalValue, FactsOf, EndsChunked, AnyCase;
    FactsByName(fs);
    LengthsAreOk(Values(fs, "content-length"));
    AtMostOneByName(Listed(fs, "transfer-encoding"));
    OptionsByName(Listed(fs, "connection"));
    ListedIsThere(fs, "trailer");
  }

  /** Verdict and outcome of a request together. */
  lemma RequestSaid(fs: seq<Field>, version: Version, rejectTeCl: bool, lengthBefore: nat)
    ensures RequestAccepted(FactsOf(fs), version, rejectTeCl) <==> RequestRule(fs, version, rejectTeCl)
    ensures RequestAccepted(FactsOf(fs), version, rejectTeCl) ==>
              && LengthsOk(FactsOf(fs).cl)
              && RequestOutcomeIs(fs, version, lengthBefore, RequestFraming(FactsOf(fs), version, lengthBefore))
  {
    RequestByRule(fs, version, rejectTeCl);
    hide RequestRule, RequestOutcomeIs, RequestFraming, FactsOf, CountChunked, EndsChunked, CommonFieldsOk;
    if RequestAccepted(FactsOf(fs), version, rejectTeCl) {
      CodingsOfCommon(FactsOf(fs));
      RequestOutcomeByRule(fs, version, lengthBefore);
    }
  }

  /** And of a response. */
  lemma ResponseSaid(fs: seq<Field>, version: Version, code: int, rejectTeCl: bool, lengthBefore: nat,
                     keepBefore: bool)
    ensures ResponseAccepted(FactsOf(fs), code, rejectTeCl) <==> ResponseRule(fs, code, rejectTeCl)
    ensures ResponseAccepted(FactsOf(fs), code, rejectTeCl) ==>
              && LengthsOk(FactsOf(fs).cl)
              && ResponseOutcomeIs(fs, version, code, lengthBefore, keepBefore,
                                   ResponseFraming(FactsOf(fs), version, code, lengthBefore, keepBefore))
  {
    ResponseByRule(fs, code, rejectTeCl);
    hide ResponseRule, ResponseOutcomeIs, ResponseFraming, FactsOf, CountChunked, ResponseBodyMode, CommonFieldsOk;
    if ResponseAccepted(FactsOf(fs), code, rejectTeCl) {
      CodingsOfCommon(FactsOf(fs));
      ResponseOutcomeByRule(fs, version, code, lengthBefore, keepBefore);
    }
  }

  // ----- simple messages

  /** An HTTP/1.1 request cannot do without exactly one Host field, and it must not be empty. */
  lemma HostRequired(fs: seq<Field>, rejectTeCl: bool)
    requires RequestAccepted(FactsOf(fs), Http11, rejectTeCl)
    ensures |Values(fs, "host")| == 1 && Values(fs, "host")[0] != []
  {
    RequestByRule(fs, Http11, rejectTeCl);
    hide FieldsRule, ChunkedLast, NotBlank, RequestAccepted, Values, Listed;
    assert Values(fs, "host")[0] in Values(fs, "host");
  }

  lemma OneValue(f: Field, name: string)
    ensures Values([f], name) == if AnyCase(f.name, name) then [f.value] else []
  {
    hide AnyCase;
    assert [f][..0] == [];
  }

  lemma OneName(f: Field, name: string, other: string)
    requires AnyCase(f.name, name) && |name| != |other|
    ensures !AnyCase(f.name, other)
  {
  }

  lemma NothingListed(fs: seq<Field>, name: string)
    requires Values(fs, name) == []
    ensures Listed(fs, name) == []
  {
  }

  /** With that field alone it is accepted: no body, and the connection stays open. */
  lemma HostAlone(f: Field, rejectTeCl: bool, lengthBefore: nat)
    requires AnyCase(f.name, "host") && f.value != []
    ensures RequestAccepted(FactsOf([f]), Http11, rejectTeCl)
    ensures LengthsOk(FactsOf([f]).cl)
    ensures RequestFraming(FactsOf([f]), Http11, lengthBefore)
            == Framing(NoBody, lengthBefore, true, false, false, false)
  {
    hide AnyCase, Values, Listed, RequestAccepted, FactsOf, RequestFraming, LengthsOk;
    OtherNames(f, "host");
    OneValue(f, "host");
    NothingListed([f], "transfer-encoding");
    NothingListed([f], "connection");
    NothingListed([f], "trailer");
    assert SameLength(Values([f], "content-length"), 0);
    RequestSaid([f], Http11, rejectTeCl, lengthBefore);
  }

  /** A field has one name. */
  lemma OtherNames(f: Field, name: string)
    requires AnyCase(f.name, name) && (name == "host" || name == "expect")
    ensures Values([f], "transfer-encoding") == [] && Values([f], "content-length") == []
    ensures Values([f], "connection") == [] && Values([f], "upgrade") == [] && Values([f], "trailer") == []
    ensures name != "host" ==> Values([f], "host") == []
    ensures name != "expect" ==> Values([f], "expect") == []
  {
    hide AnyCase, Values;
    forall other: string | other in ["transfer-encoding", "content-length", "connection", "upgrade", "trailer"]
      ensures Values([f], other) == []
    {
      OneName(f, name, other);
      OneValue(f, other);
    }
    OneValue(f, "host");
    OneValue(f, "expect");
    if name == "host" {
      OneName(f, name, "expect");
    } else {
      OneName(f, name, "host");
    }
  }

  /** An Expect field is no Host: alone it is refused under HTTP/1.1, and under HTTP/1.0 it only sets
      the continue flag. */
  lemma ExpectAlone(f: Field, rejectTeCl: bool, lengthBefore: nat)
    requires AnyCase(f.name, "expect") && NotBlank(f.value)
    ensures !RequestAccepted(FactsOf([f]), Http11, rejectTeCl)
    ensures RequestAccepted(FactsOf([f]), Http10, rejectTeCl)
    ensures LengthsOk(FactsOf([f]).cl)
    ensures RequestFraming(FactsOf([f]), Http10, lengthBefore)
            == Framing(NoBody, lengthBefore, false, false, Is(f.value, "100-continue"), false)
  {
    hide AnyCase, Values, Listed, RequestAccepted, FactsOf, RequestFraming, LengthsOk, NotBlank, Is;
    OtherNames(f, "expect");
    OneValue(f, "expect");
    NothingListed([f], "transfer-encoding");
    NothingListed([f], "connection");
    NothingListed([f], "trailer");
    assert SameLength(Values([f], "content-length"), 0);
    RequestSaid([f], Http10, rejectTeCl, lengthBefore);
    RequestSaid([f], Http11, rejectTeCl, lengthBefore);
  }
}
