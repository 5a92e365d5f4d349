/** Laws of the framing rule: which header lists frame a message alike, what a chunked request
    looks like, and that relaxing the policy changes nothing that was accepted. */
module SemanticsLaws {
  import opened Bytes
  import opened Types
  import opened SemanticsSpec
  import opened FramingRule
  import opened Semantics
  import opened HeadSpec
  import opened HeadPolicy
  import opened HeadPrint

  // ----- gathering

  lemma {:induction false} GatherAppend(a: seq<Field>, b: seq<Field>, k: Kind)
    ensures Gather(a + b, k) == Gather(a, k) + Gather(b, k)
    decreases |b|
  {
    hide Contribution;
    if b == [] {
      assert a + b == a;
    } else {
      var init, last := b[..|b| - 1], b[|b| - 1];
      GatherAppend(a, init, k);
      assert (a + b)[..|a + b| - 1] == a + init && (a + b)[|a + b| - 1] == last;
    }
  }

  /** The same fields in another order contribute the same things. */
  lemma {:induction false} GatherPermutes(a: seq<Field>, b: seq<Field>, k: Kind)
    requires multiset(a) == multiset(b)
    ensures multiset(Gather(a, k)) == multiset(Gather(b, k))
    decreases |a|
  {
    hide Contribution;
    if a == [] {
      assert |multiset(b)| == |b|;
    } else {
      var init, last := a[..|a| - 1], a[|a| - 1];
      assert a == init + [last];
      assert last in multiset(b);
      var j :| 0 <= j < |b| && b[j] == last;
      var front, back := b[..j], b[j + 1..];
      assert b == front + [last] + back;
      RemoveOne(init, last, front, back);
      GatherPermutes(init, front + back, k);
      GatherMiddle(front, last, back, k);
    }
  }

  lemma RemoveOne<T>(init: seq<T>, x: T, front: seq<T>, back: seq<T>)
    requires multiset(init + [x]) == multiset(front + [x] + back)
    ensures multiset(init) == multiset(front + back)
  {
    assert multiset(init + [x]) == multiset(init) + multiset{x};
    assert multiset(front + [x] + back) == multiset(front) + multiset{x} + multiset(back);
    assert multiset(front + back) == multiset(front) + multiset(back);
    assert multiset(init) == multiset(init + [x]) - multiset{x};
  }

  lemma GatherMiddle(front: seq<Field>, f: Field, back: seq<Field>, k: Kind)
    ensures Gather(front + [f] + back, k) == Gather(front, k) + Contribution(f, k) + Gather(back, k)
    ensures multiset(Gather(front + [f] + back, k)) == multiset(Gather(front + back, k)) + multiset(Contribution(f, k))
  {
    hide Contribution, Gather;
    GatherAppend(front, back, k);
    GatherAppend(front + [f], back, k);
    GatherAppend(front, [f], k);
    GatherOne(f, k);
  }

  /** Values of the fields of one kind, in order. */
  function ValuesOf(fs: seq<Field>, k: Kind): seq<seq<byte>> {
    if fs == [] then []
    else ValuesOf(fs[..|fs| - 1], k) + if KindOf(fs[|fs| - 1].name) == k then [fs[|fs| - 1].value] else []
  }

  lemma {:induction false} GatherIsElements(fs: seq<Field>, k: Kind)
    requires ListKind(k)
    ensures Gather(fs, k) == AllElements(ValuesOf(fs, k))
    decreases |fs|
  {
    hide KindOf, Elements;
    if fs != [] {
      var init, last := fs[..|fs| - 1], fs[|fs| - 1];
      GatherIsElements(init, k);
      var vs := ValuesOf(init, k);
      if KindOf(last.name) == k {
        assert (vs + [last.value])[..|vs|] == vs;
      } else {
        assert vs + [] == vs;
        assert Gather(init, k) + [] == Gather(init, k);
      }
    }
  }

  lemma {:induction false} GatherIsValues(fs: seq<Field>, k: Kind)
    requires !ListKind(k)
    ensures Gather(fs, k) == ValuesOf(fs, k)
    decreases |fs|
  {
    hide KindOf, Elements;
    if fs != [] {
      GatherIsValues(fs[..|fs| - 1], k);
    }
  }

  // ----- reordering headers

  lemma SamePropertyOnPermutation(a: seq<seq<byte>>, b: seq<seq<byte>>)
    requires multiset(a) == multiset(b)
    ensures |a| == |b|
    ensures forall k :: 0 <= k < |a| ==> a[k] in b
    ensures forall k :: 0 <= k < |b| ==> b[k] in a
  {
    assert |multiset(a)| == |a| && |multiset(b)| == |b|;
    forall k | 0 <= k < |a|
      ensures a[k] in b
    {
      assert a[k] in multiset(a);
    }
    forall k | 0 <= k < |b|
      ensures b[k] in a
    {
      assert b[k] in multiset(b);
    }
  }

  lemma TokensPermute(a: seq<seq<byte>>, b: seq<seq<byte>>)
    requires multiset(a) == multiset(b)
    ensures TokensOk(a) ==> TokensOk(b)
    ensures UpgradeOk(a) ==> UpgradeOk(b)
    ensures HostOk(a) ==> HostOk(b)
  {
    SamePropertyOnPermutation(a, b);
    hide TokenElement, AllToken;
    forall k | 0 <= k < |b|
      ensures exists i :: 0 <= i < |a| && a[i] == b[k]
    {
      assert b[k] in a;
    }
  }

  lemma LengthsPermute(a: seq<seq<byte>>, b: seq<seq<byte>>)
    requires multiset(a) == multiset(b) && LengthsOk(a)
    ensures LengthsOk(b)
    ensures a != [] ==> b != [] && DecimalValue(b[0]) == DecimalValue(a[0])
  {
    SamePropertyOnPermutation(a, b);
    hide DecimalValue, AllDigits;
    forall k | 0 <= k < |b|
      ensures ValidLength(b[k]) && DecimalValue(b[k]) == DecimalValue(a[0])
    {
      var i :| 0 <= i < |a| && a[i] == b[k];
      assert ValidLength(a[i]) && DecimalValue(a[i]) == DecimalValue(a[0]);
    }
  }

  lemma SaysPermutes(a: seq<seq<byte>>, b: seq<seq<byte>>, option: seq<byte>)
    requires multiset(a) == multiset(b)
    ensures Says(a, option) ==> Says(b, option)
  {
    SamePropertyOnPermutation(a, b);
    hide EqIgnoreCase;
    if Says(a, option) {
      var k :| 0 <= k < |a| && EqIgnoreCase(a[k], option);
      var i :| 0 <= i < |b| && b[i] == a[k];
      assert EqIgnoreCase(b[i], option);
    }
  }

  /** Facts that differ only in the order of everything but codings, as far as responses look. */
  predicate ReorderedCommon(f: Facts, g: Facts) {
    && f.te == g.te
    && multiset(f.cl) == multiset(g.cl) && multiset(f.connection) == multiset(g.connection)
    && multiset(f.upgrade) == multiset(g.upgrade) && multiset(f.trailer) == multiset(g.trailer)
  }

  /** The same with what only requests look at; the last expectation counts, so they stay in order. */
  predicate Reordered(f: Facts, g: Facts) {
    ReorderedCommon(f, g) && f.expectations == g.expectations && multiset(f.host) == multiset(g.host)
  }

  lemma EmptyPermutes(a: seq<seq<byte>>, b: seq<seq<byte>>)
    requires multiset(a) == multiset(b)
    ensures a == [] <==> b == []
  {
    SamePropertyOnPermutation(a, b);
  }

  lemma AcceptedReordered(f: Facts, g: Facts, version: Version, rejectTeCl: bool)
    requires Reordered(f, g) && RequestAccepted(f, version, rejectTeCl)
    ensures RequestAccepted(g, version, rejectTeCl)
  {
    hide TokensOk, UpgradeOk, HostOk, LengthsOk, TeOk, ExpectOk, CountChunked, EndsChunked;
    TokensPermute(f.connection, g.connection);
    TokensPermute(f.trailer, g.trailer);
    TokensPermute(f.upgrade, g.upgrade);
    TokensPermute(f.host, g.host);
    LengthsPermute(f.cl, g.cl);
    EmptyPermutes(f.cl, g.cl);
    EmptyPermutes(f.host, g.host);
    EmptyPermutes(f.trailer, g.trailer);
  }

  lemma FramingReordered(f: Facts, g: Facts, version: Version, lengthBefore: nat)
    requires Reordered(f, g) && LengthsOk(f.cl) && LengthsOk(g.cl)
    ensures RequestFraming(f, version, lengthBefore) == RequestFraming(g, version, lengthBefore)
  {
    hide Says, LengthsOk, Trim, EqIgnoreCase, DecimalValue;
    LengthsPermute(f.cl, g.cl);
    EmptyPermutes(f.cl, g.cl);
    EmptyPermutes(f.upgrade, g.upgrade);
    EmptyPermutes(f.trailer, g.trailer);
    SaysBothWays(f.connection, g.connection, CLOSE);
    SaysBothWays(f.connection, g.connection, KEEP_ALIVE);
    SaysBothWays(f.connection, g.connection, UPGRADE);
  }

  lemma SaysBothWays(a: seq<seq<byte>>, b: seq<seq<byte>>, option: seq<byte>)
    requires multiset(a) == multiset(b)
    ensures Says(a, option) <==> Says(b, option)
  {
    hide Says;
    SaysPermutes(a, b, option);
    SaysPermutes(b, a, option);
  }

  /** Reordering the header lines of a request changes neither the verdict nor any outcome, as
      long as Transfer-Encoding lines and Expect lines keep their own order. */
  lemma RequestReordering(fs: seq<Field>, gs: seq<Field>, version: Version, rejectTeCl: bool, lengthBefore: nat)
    requires multiset(fs) == multiset(gs)
    requires ValuesOf(fs, KTransferEncoding) == ValuesOf(gs, KTransferEncoding)
    requires ValuesOf(fs, KExpect) == ValuesOf(gs, KExpect)
    ensures RequestAccepted(FactsOf(fs), version, rejectTeCl) <==> RequestAccepted(FactsOf(gs), version, rejectTeCl)
    ensures RequestAccepted(FactsOf(fs), version, rejectTeCl) ==>
              && LengthsOk(FactsOf(fs).cl) && LengthsOk(FactsOf(gs).cl)
              && RequestFraming(FactsOf(fs), version, lengthBefore)
                    == RequestFraming(FactsOf(gs), version, lengthBefore)
  {
    hide FactsOf, RequestFraming, RequestAccepted, Reordered;
    var f, g := FactsOf(fs), FactsOf(gs);
    OrderedFacts(fs, gs);
    OrderedFacts(gs, fs);
    if RequestAccepted(f, version, rejectTeCl) {
      AcceptedReordered(f, g, version, rejectTeCl);
      AcceptedLengths(f, version, rejectTeCl);
      AcceptedLengths(g, version, rejectTeCl);
      FramingReordered(f, g, version, lengthBefore);
    }
    if RequestAccepted(g, version, rejectTeCl) {
      AcceptedReordered(g, f, version, rejectTeCl);
    }
  }

  lemma ResponseReordered(f: Facts, g: Facts, version: Version, code: int, rejectTeCl: bool, lengthBefore: nat,
        keepBefore: bool)
    requires ReorderedCommon(f, g) && ResponseAccepted(f, code, rejectTeCl)
    ensures ResponseAccepted(g, code, rejectTeCl)
    ensures LengthsOk(f.cl) && LengthsOk(g.cl)
    ensures ResponseFraming(f, version, code, lengthBefore, keepBefore)
            == ResponseFraming(g, version, code, lengthBefore, keepBefore)
  {
    hide TokensOk, UpgradeOk, LengthsOk, TeOk, CountChunked, EndsChunked, Says, DecimalValue;
    TokensPermute(f.connection, g.connection);
    TokensPermute(f.trailer, g.trailer);
    TokensPermute(f.upgrade, g.upgrade);
    LengthsPermute(f.cl, g.cl);
    EmptyPermutes(f.cl, g.cl);
    EmptyPermutes(f.upgrade, g.upgrade);
    EmptyPermutes(f.trailer, g.trailer);
    SaysBothWays(f.connection, g.connection, CLOSE);
    SaysBothWays(f.connection, g.connection, KEEP_ALIVE);
    SaysBothWays(f.connection, g.connection, UPGRADE);
  }

  lemma CommonFacts(fs: seq<Field>, gs: seq<Field>)
    requires multiset(fs) == multiset(gs)
    requires ValuesOf(fs, KTransferEncoding) == ValuesOf(gs, KTransferEncoding)
    ensures ReorderedCommon(FactsOf(fs), FactsOf(gs))
  {
    hide Gather, ValuesOf;
    GatherIsElements(fs, KTransferEncoding);
    GatherIsElements(gs, KTransferEncoding);
    GatherPermutes(fs, gs, KContentLength);
    GatherPermutes(fs, gs, KConnection);
    GatherPermutes(fs, gs, KUpgrade);
    GatherPermutes(fs, gs, KTrailer);
  }

  lemma OrderedFacts(fs: seq<Field>, gs: seq<Field>)
    requires multiset(fs) == multiset(gs)
    requires ValuesOf(fs, KTransferEncoding) == ValuesOf(gs, KTransferEncoding)
    requires ValuesOf(fs, KExpect) == ValuesOf(gs, KExpect)
    ensures Reordered(FactsOf(fs), FactsOf(gs))
  {
    hide Gather, ValuesOf, ReorderedCommon;
    CommonFacts(fs, gs);
    GatherIsValues(fs, KExpect);
    GatherIsValues(gs, KExpect);
    GatherPermutes(fs, gs, KHost);
  }

  /** The same for responses, which do not look at Expect: only Transfer-Encoding lines keep their
      order. */
  lemma ResponseReordering(fs: seq<Field>, gs: seq<Field>, version: Version, code: int, rejectTeCl: bool,
                           lengthBefore: nat, keepBefore: bool)
    requires multiset(fs) == multiset(gs)
    requires ValuesOf(fs, KTransferEncoding) == ValuesOf(gs, KTransferEncoding)
    ensures ResponseAccepted(FactsOf(fs), code, rejectTeCl) <==> ResponseAccepted(FactsOf(gs), code, rejectTeCl)
    ensures ResponseAccepted(FactsOf(fs), code, rejectTeCl) ==>
              && LengthsOk(FactsOf(fs).cl) && LengthsOk(FactsOf(gs).cl)
              && ResponseFraming(FactsOf(fs), version, code, lengthBefore, keepBefore)
                 == ResponseFraming(FactsOf(gs), version, code, lengthBefore, keepBefore)
  {
    hide FactsOf, ResponseAccepted, ResponseFraming, ReorderedCommon;
    var f, g := FactsOf(fs), FactsOf(gs);
    CommonFacts(fs, gs);
    CommonFacts(gs, fs);
    if ResponseAccepted(f, code, rejectTeCl) {
      ResponseReordered(f, g, version, code, rejectTeCl, lengthBefore, keepBefore);
    }
    if ResponseAccepted(g, code, rejectTeCl) {
      ResponseReordered(g, f, version, code, rejectTeCl, lengthBefore, keepBefore);
    }
  }

  // ----- chunked requests

  /** In an accepted request with Transfer-Encoding, chunked is the last coding of all lines
      together and occurs nowhere else, and the body is chunked whatever Content-Length says. */
  lemma ChunkedOnceAndLast(f: Facts, version: Version, rejectTeCl: bool, lengthBefore: nat)
    requires RequestAccepted(f, version, rejectTeCl) && f.te != []
    ensures CountChunked(f.te) == 1
    ensures forall k :: 0 <= k < |f.te| ==> (IsChunked(f.te[k]) <==> k == |f.te| - 1)
    ensures LengthsOk(f.cl) && RequestFraming(f, version, lengthBefore).mode == ChunkedBody
  {
    hide IsChunked, CountChunked, TeOk, TokensOk, UpgradeOk, HostOk, ExpectOk, Says, Trim, EqIgnoreCase;
    CountBounds(f.te, |f.te| - 1);
    forall k | 0 <= k < |f.te|
      ensures IsChunked(f.te[k]) <==> k == |f.te| - 1
    {
      if IsChunked(f.te[k]) {
        CountBounds(f.te, k);
      }
    }
  }

  // ----- combining field lines (RFC 9110 section 5.3)

  predicate AllLws(w: seq<byte>) {
    forall k :: 0 <= k < |w| ==> IsLws(w[k])
  }

  lemma TrimEnd(v: seq<byte>, w: seq<byte>)
    requires AllLws(w)
    ensures Trim(v + w) == Trim(v)
  {
    var u := v + w;
    assert forall k :: 0 <= k < |v| ==> u[k] == v[k];
    assert forall k :: |v| <= k < |u| ==> u[k] == w[k - |v|];
    var first := SkipLws(v, 0, |v|);
    if first == |v| {
      assert SkipLws(u, 0, |u|) == |u|;
    } else {
      assert SkipLws(u, 0, |u|) == first;
      var last := TrimLws(v, first, |v|);
      assert TrimLws(u, first, |u|) == last;
      assert u[first..last] == v[first..last];
    }
  }

  lemma TrimStart(v: seq<byte>, w: seq<byte>)
    requires AllLws(w)
    ensures Trim(w + v) == Trim(v)
  {
    var u := w + v;
    var first := SkipLws(v, 0, |v|);
    var last := TrimLws(v, first, |v|);
    assert forall k :: 0 <= k < |w| ==> u[k] == w[k];
    assert forall k :: |w| <= k < |u| ==> u[k] == v[k - |w|];
    SkipIs(u, |w| + first);
    TrimIs(u, |w| + first, |w| + last);
    ShiftedSlice(w, v, first, last);
  }

  lemma SkipIs(u: seq<byte>, r: nat)
    requires r <= |u| && (forall k :: 0 <= k < r ==> IsLws(u[k])) && (r < |u| ==> !IsLws(u[r]))
    ensures SkipLws(u, 0, |u|) == r
  {
  }

  lemma TrimIs(u: seq<byte>, from: nat, r: nat)
    requires from <= r <= |u| && (forall k :: r <= k < |u| ==> IsLws(u[k])) && (r > from ==> !IsLws(u[r - 1]))
    ensures TrimLws(u, from, |u|) == r
  {
  }

  lemma ShiftedSlice(w: seq<byte>, v: seq<byte>, i: nat, j: nat)
    requires i <= j <= |v|
    ensures (w + v)[|w| + i..|w| + j] == v[i..j]
  {
  }

  lemma FindInLonger(a: seq<byte>, b: seq<byte>, c: byte)
    ensures Find(a, 0, |a|, c) < |a| ==> Find(a + b, 0, |a + b|, c) == Find(a, 0, |a|, c)
    ensures Find(a, 0, |a|, c) == |a| ==> Find(a + b, 0, |a + b|, c) == |a| + Find(b, 0, |b|, c)
  {
    var u := a + b;
    assert forall k :: 0 <= k < |a| ==> u[k] == a[k];
    assert forall k :: |a| <= k < |u| ==> u[k] == b[k - |a|];
    var r := Find(a, 0, |a|, c);
    if r < |a| {
      assert u[r] == c;
    } else {
      var q := Find(b, 0, |b|, c);
      assert q < |b| ==> u[|a| + q] == c;
      assert forall k :: 0 <= k < |a| + q ==> u[k] != c;
    }
  }

  lemma NoCommaInLws(w: seq<byte>)
    requires AllLws(w)
    ensures Find(w, 0, |w|, COMMA) == |w|
  {
  }

  /** Whitespace after the last element is not part of it. */
  lemma {:induction false} ElementsEnd(v: seq<byte>, w: seq<byte>)
    requires AllLws(w)
    ensures Elements(v + w) == Elements(v)
    decreases |v|
  {
    hide Trim;
    FindInLonger(v, w, COMMA);
    NoCommaInLws(w);
    var c := Find(v, 0, |v|, COMMA);
    if c == |v| {
      TrimEnd(v, w);
    } else {
      assert (v + w)[..c] == v[..c];
      assert (v + w)[c + 1..] == v[c + 1..] + w;
      ElementsEnd(v[c + 1..], w);
    }
  }

  /** Nor is whitespace before the first. */
  lemma ElementsStart(v: seq<byte>, w: seq<byte>)
    requires AllLws(w)
    ensures Elements(w + v) == Elements(v)
  {
    hide Trim, Elements;
    FindInLonger(w, v, COMMA);
    NoCommaInLws(w);
    var c := Find(v, 0, |v|, COMMA);
    ElementsUnfold(v, c);
    ElementsUnfold(w + v, |w| + c);
    if c == |v| {
      TrimStart(v, w);
    } else {
      assert (w + v)[..|w| + c] == w + v[..c];
      TrimStart(v[..c], w);
      assert (w + v)[|w| + c + 1..] == v[c + 1..];
    }
  }

  lemma {:induction false} ElementsJoin(a: seq<byte>, b: seq<byte>)
    ensures Elements(a + [COMMA] + b) == Elements(a) + Elements(b)
    decreases |a|
  {
    hide Trim, Elements;
    var u := a + [COMMA] + b;
    assert u == a + ([COMMA] + b);
    FindInLonger(a, [COMMA] + b, COMMA);
    var c := Find(a, 0, |a|, COMMA);
    ElementsUnfold(a, c);
    ElementsUnfold(u, c);
    if c == |a| {
      assert u[..|a|] == a && u[|a| + 1..] == b;
    } else {
      assert u[..c] == a[..c];
      assert u[c + 1..] == a[c + 1..] + [COMMA] + b;
      ElementsJoin(a[c + 1..], b);
      assert [Trim(a[..c])] + (Elements(a[c + 1..]) + Elements(b))
            == [Trim(a[..c])] + Elements(a[c + 1..]) + Elements(b);
    }
  }

  /** Two values joined by a comma with optional whitespace around it. */
  lemma ElementsJoinOws(a: seq<byte>, before: seq<byte>, after: seq<byte>, b: seq<byte>)
    requires AllLws(before) && AllLws(after)
    ensures Elements(a + before + [COMMA] + after + b) == Elements(a) + Elements(b)
  {
    hide Elements, AllLws;
    ElementsEnd(a, before);
    ElementsStart(b, after);
    ElementsJoin(a + before, after + b);
    assert a + before + [COMMA] + after + b == (a + before) + [COMMA] + (after + b);
  }

  /** Parts with a comma between each two. */
  function Joined(parts: seq<seq<byte>>): seq<byte>
    requires parts != []
  {
    if |parts| == 1 then parts[0] else Joined(parts[..|parts| - 1]) + [44] + parts[|parts| - 1]
  }

  /** w is what stands between the whitespace of p. */
  ghost predicate TrimmedTo(p: seq<byte>, w: seq<byte>) {
    exists i: nat, j: nat ::
      && i <= j <= |p| && w == p[i..j]
      && (forall k :: 0 <= k < |p| && !(i <= k < j) ==> p[k] == 32 || p[k] == 9)
      && (w != [] ==> w[0] != 32 && w[0] != 9 && w[|w| - 1] != 32 && w[|w| - 1] != 9)
  }

  lemma TrimTrims(p: seq<byte>)
    ensures TrimmedTo(p, Trim(p))
  {
    TrimParts(p);
    var i := SkipLws(p, 0, |p|);
    var j := TrimLws(p, i, |p|);
    assert Trim(p) == p[i..j];
  }

  /** The elements of a list are its comma-free parts, trimmed, empty ones included. */
  lemma {:induction false} ListSplits(parts: seq<seq<byte>>)
    requires parts != [] && forall p :: p in parts ==> 44 !in p
    ensures var es := Elements(Joined(parts));
            |es| == |parts| && forall k :: 0 <= k < |parts| ==> TrimmedTo(parts[k], es[k])
    decreases |parts|
  {
    hide Trim, TrimmedTo, Elements;
    var last := parts[|parts| - 1];
    assert last in parts;
    assert Find(last, 0, |last|, COMMA) == |last|;
    ElementsUnfold(last, |last|);
    TrimTrims(last);
    if |parts| > 1 {
      var init := parts[..|parts| - 1];
      ListSplits(init);
      ElementsJoin(Joined(init), last);
    }
  }

  /** Every value is such a list. */
  lemma {:induction false} EveryValueIsList(v: seq<byte>) returns (parts: seq<seq<byte>>)
    ensures parts != [] && Joined(parts) == v && forall p :: p in parts ==> 44 !in p
    decreases |v|
  {
    var last := FindLast(v, 0, |v|, COMMA);
    var tail := v[last..];
    assert forall k :: 0 <= k < |tail| ==> tail[k] == v[last + k] != COMMA;
    if last == 0 {
      parts := [v];
      assert tail == v;
    } else {
      var front := EveryValueIsList(v[..last - 1]);
      parts := front + [tail];
      assert parts[..|parts| - 1] == front;
      assert v == v[..last - 1] + [v[last - 1]] + tail;
    }
  }

  /** The whitespace on either side of one comma. */
  datatype Gap = Gap(before: seq<byte>, after: seq<byte>)

  predicate Gaps(gaps: seq<Gap>) {
    forall k :: 0 <= k < |gaps| ==> AllLws(gaps[k].before) && AllLws(gaps[k].after)
  }

  /** Several values as one. */
  function JoinValues(vs: seq<seq<byte>>, gaps: seq<Gap>): seq<byte>
    requires vs != [] && |gaps| == |vs| - 1
  {
    if |vs| == 1 then vs[0]
    else
      var g := gaps[|gaps| - 1];
      JoinValues(vs[..|vs| - 1], gaps[..|gaps| - 1]) + g.before + [COMMA] + g.after + vs[|vs| - 1]
  }

  /** The fields of every other kind, in order. */
  function Without(fs: seq<Field>, k: Kind): seq<Field> {
    if fs == [] then []
    else Without(fs[..|fs| - 1], k) + if KindOf(fs[|fs| - 1].name) == k then [] else [fs[|fs| - 1]]
  }

  lemma {:induction false} GatherWithout(fs: seq<Field>, k: Kind, other: Kind)
    ensures Gather(Without(fs, k), other) == if other == k then [] else Gather(fs, other)
    decreases |fs|
  {
    hide KindOf, Elements;
    if fs != [] {
      var init, last := fs[..|fs| - 1], fs[|fs| - 1];
      GatherWithout(init, k, other);
      if KindOf(last.name) == k {
        assert Without(init, k) + [] == Without(init, k);
        assert Gather(init, other) + [] == Gather(init, other);
      } else {
        GatherAppend(Without(init, k), [last], other);
        GatherOne(last, other);
      }
    }
  }

  lemma {:induction false} JoinedElements(vs: seq<seq<byte>>, gaps: seq<Gap>)
    requires vs != [] && |gaps| == |vs| - 1 && Gaps(gaps)
    ensures Elements(JoinValues(vs, gaps)) == AllElements(vs)
    decreases |vs|
  {
    hide Elements;
    var init, last := vs[..|vs| - 1], vs[|vs| - 1];
    if |vs| == 1 {
      assert AllElements(init) == [];
      assert [] + Elements(last) == Elements(last);
    } else {
      var g := gaps[|gaps| - 1];
      JoinedElements(init, gaps[..|gaps| - 1]);
      ElementsJoinOws(JoinValues(init, gaps[..|gaps| - 1]), g.before, g.after, last);
    }
  }

  /** Replacing all Transfer-Encoding, Connection or Trailer lines by a single line, anywhere,
      whose value joins theirs with commas and optional whitespace leaves every fact that framing
      depends on as it was; so the verdict and the outcome cannot change, for requests and for
      responses. */
  lemma FieldLinesCombine(fs: seq<Field>, k: Kind, name: seq<byte>, gaps: seq<Gap>, at: nat)
    requires ListKind(k) && KindOf(name) == k
    requires ValuesOf(fs, k) != [] && |gaps| == |ValuesOf(fs, k)| - 1 && Gaps(gaps)
    requires at <= |Without(fs, k)|
    ensures var rest := Without(fs, k);
            var one := Field(name, JoinValues(ValuesOf(fs, k), gaps));
            FactsOf(rest[..at] + [one] + rest[at..]) == FactsOf(fs)
  {
    hide KindOf, Elements, Gather, Without, ValuesOf, JoinValues;
    var rest := Without(fs, k);
    var one := Field(name, JoinValues(ValuesOf(fs, k), gaps));
    JoinedElements(ValuesOf(fs, k), gaps);
    GatherIsElements(fs, k);
    forall other: Kind
      ensures Gather(rest[..at] + [one] + rest[at..], other) == Gather(fs, other)
    {
      GatherMiddle(rest[..at], one, rest[at..], other);
      GatherAppend(rest[..at], rest[at..], other);
      GatherWithout(fs, k, other);
      assert rest[..at] + rest[at..] == rest;
      if other == k {
        assert Gather(rest[..at], k) == [] && Gather(rest[at..], k) == [];
        assert [] + AllElements(ValuesOf(fs, k)) + [] == AllElements(ValuesOf(fs, k));
      } else {
        assert Gather(rest[..at], other) + [] == Gather(rest[..at], other);
      }
    }
  }

  // ----- relaxing the policy

  /** Parsing and framing a request under one policy. */
  predicate RequestGoesThrough(s: seq<byte>, policy: Policy) {
    var o := OneShot(RequestMode, s, MAX_HEADERS, policy);
    && o.status == Ok && o.state.line.RequestLine?
    && RequestAccepted(FactsOf(FieldsAt(s, o.state.headers)), o.state.line.version, policy.rejectTeCl)
  }

  predicate ResponseGoesThrough(s: seq<byte>, policy: Policy) {
    var o := OneShot(ResponseMode, s, MAX_HEADERS, policy);
    && o.status == Ok && o.state.line.StatusLine?
    && ResponseAccepted(FactsOf(FieldsAt(s, o.state.headers)), o.state.line.code, policy.rejectTeCl)
  }

  /** The outcome of framing a request that goes through. */
  function FramingOfRequest(s: seq<byte>, policy: Policy, lengthBefore: nat): Framing
    requires RequestGoesThrough(s, policy)
  {
    var o := OneShot(RequestMode, s, MAX_HEADERS, policy);
    RequestFraming(FactsOf(FieldsAt(s, o.state.headers)), o.state.line.version, lengthBefore)
  }

  function FramingOfResponse(s: seq<byte>, policy: Policy, lengthBefore: nat, keepBefore: bool): Framing
    requires ResponseGoesThrough(s, policy)
  {
    var o := OneShot(ResponseMode, s, MAX_HEADERS, policy);
    ResponseFraming(FactsOf(FieldsAt(s, o.state.headers)), o.state.line.version, o.state.line.code, lengthBefore,
                    keepBefore)
  }

  /** A message that goes through under p goes through under every weaker policy with the same
      spans, the same consumed length, the same body mode and the same flags. */
  lemma RelaxingKeepsMessages(s: seq<byte>, p: Policy, q: Policy, lengthBefore: nat, keepBefore: bool)
    requires Weaker(p, q)
    ensures RequestGoesThrough(s, p) ==>
              && RequestGoesThrough(s, q)
              && OneShot(RequestMode, s, MAX_HEADERS, q) == OneShot(RequestMode, s, MAX_HEADERS, p)
              && FramingOfRequest(s, q, lengthBefore) == FramingOfRequest(s, p, lengthBefore)
    ensures ResponseGoesThrough(s, p) ==>
              && ResponseGoesThrough(s, q)
              && OneShot(ResponseMode, s, MAX_HEADERS, q) == OneShot(ResponseMode, s, MAX_HEADERS, p)
              && FramingOfResponse(s, q, lengthBefore, keepBefore) == FramingOfResponse(s, p, lengthBefore, keepBefore)
  {
    hide OneShot, FactsOf, CommonFieldsOk, RequestFieldsOk, CountChunked, EndsChunked, ResponseBodyMode;
    if RequestGoesThrough(s, p) {
      HeadRelaxes(RequestMode, s, MAX_HEADERS, p, q);
    }
    if ResponseGoesThrough(s, p) {
      HeadRelaxes(ResponseMode, s, MAX_HEADERS, p, q);
    }
  }
}
