/** Relaxing a policy never changes a head that was already accepted. */
module HeadPolicy {
  import opened Bytes
  import opened Types
  import opened HeadSpec

  /** q tolerates at least what p tolerates. */
  predicate Weaker(p: Policy, q: Policy) {
    && (q.rejectObsFold ==> p.rejectObsFold)
    && (q.rejectBareLf ==> p.rejectBareLf)
    && (q.rejectTeCl ==> p.rejectTeCl)
    && (p.allowSpacesInUri ==> q.allowSpacesInUri)
  }

  lemma TargetRelaxes(text: seq<byte>, from: nat, end: nat, p: Policy, q: Policy)
    requires Weaker(p, q) && from <= end <= |text|
    requires AllTarget(text, from, end, p.allowSpacesInUri)
    ensures AllTarget(text, from, end, q.allowSpacesInUri)
  {
  }

  lemma RequestLineRelaxes(text: seq<byte>, pos: nat, p: Policy, q: Policy)
    requires Weaker(p, q) && !RequestLineOf(text, pos, p).NoStartLine?
    ensures RequestLineOf(text, pos, q) == RequestLineOf(text, pos, p)
  {
    hide AllTarget, AllToken;
    var sp1 := Find(text, 0, |text|, SP);
    var version := FindLast(text, sp1 + 1, |text|, SP);
    TargetRelaxes(text, sp1 + 1, version - 1, p, q);
  }

  lemma StartLineRelaxes(mode: Mode, s: seq<byte>, pos: nat, p: Policy, q: Policy)
    requires Weaker(p, q) && pos <= |s|
    requires var r := ParseStartLine(mode, s, pos, p); r.status == Ok || r.status == Incomplete
    ensures ParseStartLine(mode, s, pos, q) == ParseStartLine(mode, s, pos, p)
  {
    hide StatusLineOf, RequestLineOf;
    var l := LineAt(s, pos, p);
    assert LineAt(s, pos, q) == l;
    if mode == RequestMode && l.Line? {
      RequestLineRelaxes(s[pos..pos + l.len], pos, p, q);
    }
  }

  lemma HeaderStepRelaxes(s: seq<byte>, pos: nat, hs: seq<Header>, max: nat, p: Policy, q: Policy)
    requires Weaker(p, q) && pos < |s|
    requires var r := HeaderStep(s, pos, hs, max, p); r.Next? || r.status == Ok || r.status == Incomplete
    ensures HeaderStep(s, pos, hs, max, q) == HeaderStep(s, pos, hs, max, p)
  {
    hide FieldStep, FoldStep;
  }

  lemma {:induction false} BlockRelaxes(s: seq<byte>, pos: nat, hs: seq<Header>, max: nat, p: Policy, q: Policy)
    requires Weaker(p, q) && pos <= |s|
    requires var b := ParseBlock(s, pos, hs, max, p); b.status == Ok || b.status == Incomplete
    ensures ParseBlock(s, pos, hs, max, q) == ParseBlock(s, pos, hs, max, p)
    decreases |s| - pos
  {
    hide HeaderStep;
    if pos < |s| {
      HeaderStepRelaxes(s, pos, hs, max, p, q);
      var step := HeaderStep(s, pos, hs, max, p);
      if step.Next? {
        BlockRelaxes(s, step.pos, step.headers, max, p, q);
      }
    }
  }

  /** An accepted or still incomplete head is the same under every weaker policy: same spans,
      same consumed length. */
  lemma HeadRelaxes(mode: Mode, s: seq<byte>, max: nat, p: Policy, q: Policy)
    requires Weaker(p, q)
    requires var o := OneShot(mode, s, max, p); o.status == Ok || o.status == Incomplete
    ensures OneShot(mode, s, max, q) == OneShot(mode, s, max, p)
  {
    hide ParseStartLine, ParseBlock;
    if mode == HeadersMode {
      BlockRelaxes(s, 0, [], max, p, q);
    } else {
      StartLineRelaxes(mode, s, 0, p, q);
      var r := ParseStartLine(mode, s, 0, p);
      if r.status == Ok {
        BlockRelaxes(s, r.end, [], max, p, q);
      }
    }
  }
}
