/** Growing buffers: what a longer buffer can and cannot change, and why a stateful parser fed
    any schedule of prefixes agrees with a one-shot parse of the last prefix. */
module HeadRuns {
  import opened Bytes
  import opened Types
  import opened HeadSpec

  // ----- lines of a prefix u of v

  /** A terminated line reads the same in every longer buffer. */
  lemma LineExtends(u: seq<byte>, v: seq<byte>, pos: nat, policy: Policy)
    requires u <= v && pos <= |u|
    requires !LineAt(u, pos, policy).Unterminated?
    ensures LineAt(v, pos, policy) == LineAt(u, pos, policy)
  {
    var lf := Find(u, pos, |u|, LF);
    var lf' := Find(v, pos, |v|, LF);
    assert u[lf] == v[lf];
  }

  lemma StartLineExtends(mode: Mode, u: seq<byte>, v: seq<byte>, pos: nat, policy: Policy)
    requires u <= v && pos <= |u|
    requires var r := ParseStartLine(mode, u, pos, policy); r.status == Ok || r.status == Error
    ensures ParseStartLine(mode, v, pos, policy) == ParseStartLine(mode, u, pos, policy)
  {
    hide RequestLineOf, StatusLineOf;
    if mode != HeadersMode {
      LineExtends(u, v, pos, policy);
      var line := LineAt(u, pos, policy);
      if line.Line? {
        assert u[pos..pos + line.len] == v[pos..pos + line.len];
      }
    }
  }

  // ----- header blocks

  predicate Decided(status: Status) {
    status == Ok || status == Error || status == TooManyHeaders
  }

  lemma HeaderStepExtends(u: seq<byte>, v: seq<byte>, pos: nat, hs: seq<Header>, max: nat, policy: Policy)
    requires u <= v && pos < |u|
    requires var r := HeaderStep(u, pos, hs, max, policy); r.Next? || Decided(r.status)
    ensures HeaderStep(v, pos, hs, max, policy) == HeaderStep(u, pos, hs, max, policy)
  {
    hide FieldStep, FoldStep;
    if !(policy.rejectObsFold && IsLws(u[pos])) {
      LineExtends(u, v, pos, policy);
      var line := LineAt(u, pos, policy);
      if line.Line? {
        assert u[pos..pos + line.len] == v[pos..pos + line.len];
      }
    }
  }

  /** A decided block stays decided, and an incomplete one can be resumed where it stopped. */
  lemma {:induction false} BlockExtends(u: seq<byte>, v: seq<byte>, pos: nat, hs: seq<Header>, max: nat, policy: Policy)
    requires u <= v && pos <= |u|
    ensures var b := ParseBlock(u, pos, hs, max, policy);
            && (Decided(b.status) ==> ParseBlock(v, pos, hs, max, policy) == b)
            && (b.status == Incomplete ==>
                  ParseBlock(v, pos, hs, max, policy) == ParseBlock(v, b.pos, b.headers, max, policy))
    decreases |u| - pos
  {
    hide HeaderStep;
    if pos < |u| {
      var step := HeaderStep(u, pos, hs, max, policy);
      if step.Next? {
        HeaderStepExtends(u, v, pos, hs, max, policy);
        BlockExtends(u, v, step.pos, step.headers, max, policy);
      } else if Decided(step.status) {
        HeaderStepExtends(u, v, pos, hs, max, policy);
      }
    }
  }

  // ----- one-shot results on a growing buffer

  /** Ok, Error and TooManyHeaders are final: no further input changes them, and an accepted
      head keeps its fields, its headers and its length. */
  lemma DecidedIsStable(mode: Mode, u: seq<byte>, v: seq<byte>, max: nat, policy: Policy)
    requires u <= v
    requires Decided(OneShot(mode, u, max, policy).status)
    ensures OneShot(mode, v, max, policy) == OneShot(mode, u, max, policy)
  {
    hide ParseBlock, ParseStartLine;
    if mode == HeadersMode {
      BlockExtends(u, v, 0, [], max, policy);
    } else {
      StartLineExtends(mode, u, v, 0, policy);
      var r := ParseStartLine(mode, u, 0, policy);
      if r.status == Ok {
        BlockExtends(u, v, r.end, [], max, policy);
      }
    }
  }

  /** An unterminated tail of exactly limit + 1 octets that ends in CR. */
  predicate EndsAtLimit(u: seq<byte>, pos: nat, limit: nat)
    requires pos <= |u|
  {
    |u| - pos == limit + 1 && u[|u| - 1] == CR
  }

  /** It is over the limit, finished or not. */
  predicate Overlong(v: seq<byte>, pos: nat, limit: nat, policy: Policy)
    requires pos <= |v|
  {
    match LineAt(v, pos, policy)
    case Unterminated => |v| - pos > limit
    case BareLf => false
    case Line(len, _) => len > limit
  }

  /** The octet right behind u is the LF that completes a line of exactly the limit. */
  predicate Completes(u: seq<byte>, v: seq<byte>, pos: nat, limit: nat)
    requires u <= v && pos <= |u|
  {
    EndsAtLimit(u, pos, limit) && |u| < |v| && v[|u|] == LF
  }

  /** The first LF behind u comes without a CR. */
  predicate EndsBare(u: seq<byte>, v: seq<byte>)
    requires u <= v
  {
    var lf := Find(v, |u|, |v|, LF);
    0 < lf < |v| && v[lf - 1] != CR
  }

  /** What an overlong tail u[pos..] is in a longer buffer, case by case. */
  lemma OverlongTailIn(u: seq<byte>, v: seq<byte>, pos: nat, limit: nat, policy: Policy)
    requires u <= v && pos <= |u| && |u| - pos > limit && LineAt(u, pos, policy).Unterminated?
    ensures Completes(u, v, pos, limit) ==> LineAt(v, pos, policy) == Line(limit, 2)
    ensures !Completes(u, v, pos, limit) && policy.rejectBareLf && EndsBare(u, v) ==> LineAt(v, pos, policy).BareLf?
    ensures !Completes(u, v, pos, limit) && !(policy.rejectBareLf && EndsBare(u, v)) ==> Overlong(v, pos, limit, policy)
  {
    assert forall k :: pos <= k < |u| ==> v[k] == u[k] && u[k] != LF;
    var lf := Find(v, |u|, |v|, LF);
    assert Find(v, pos, |v|, LF) == lf;
  }

  /** A tail that is already over the limit can still become a line within the limit in one case
      only: it is one octet over and that octet is the CR of the line ending. */
  lemma OverlongTailRecovers(u: seq<byte>, pos: nat, limit: nat, policy: Policy)
    requires pos <= |u| && |u| - pos > limit && LineAt(u, pos, policy).Unterminated?
    ensures (exists v :: u <= v && LineAt(v, pos, policy).Line? && LineAt(v, pos, policy).len <= limit)
            <==> EndsAtLimit(u, pos, limit)
  {
    hide LineAt, EndsAtLimit, EndsBare;
    if EndsAtLimit(u, pos, limit) {
      var v := u + [LF];
      OverlongTailIn(u, v, pos, limit, policy);
      assert u <= v && LineAt(v, pos, policy).Line? && LineAt(v, pos, policy).len <= limit;
    }
    forall v | u <= v && LineAt(v, pos, policy).Line? && LineAt(v, pos, policy).len <= limit
      ensures EndsAtLimit(u, pos, limit)
    {
      OverlongTailIn(u, v, pos, limit, policy);
    }
  }

  /** An overlong tail stays overlong in every extension, exactly when bare LF is allowed and the
      tail is not the limit plus a CR. */
  lemma OverlongTailStays(u: seq<byte>, pos: nat, limit: nat, policy: Policy)
    requires pos <= |u| && |u| - pos > limit && LineAt(u, pos, policy).Unterminated?
    ensures (forall v :: u <= v ==> Overlong(v, pos, limit, policy))
            <==> !policy.rejectBareLf && !EndsAtLimit(u, pos, limit)
  {
    if EndsAtLimit(u, pos, limit) {
      var v := u + [LF];
      OverlongTailIn(u, v, pos, limit, policy);
      assert u <= v && !Overlong(v, pos, limit, policy);
    } else if policy.rejectBareLf {
      var v := BareEnding(u);
      OverlongTailIn(u, v, pos, limit, policy);
      assert u <= v && !Overlong(v, pos, limit, policy);
    } else {
      forall v | u <= v
        ensures Overlong(v, pos, limit, policy)
      {
        OverlongTailIn(u, v, pos, limit, policy);
      }
    }
  }

  /** Any buffer can go on to a bare LF. */
  lemma BareEnding(u: seq<byte>) returns (v: seq<byte>)
    ensures u <= v && EndsBare(u, v) && v[|u|] != LF
  {
    v := u + [SP, LF];
    assert v[|u|] == SP && v[|u| + 1] == LF;
    assert Find(v, |u|, |v|, LF) == |u| + 1;
  }

  // ----- TooLong

  /** Where the parser stopped: the start of the line it could not take. */
  function StoppedAt(mode: Mode, s: seq<byte>, max: nat, policy: Policy): (pos: nat)
    ensures pos <= |s|
  {
    if mode == HeadersMode then ParseBlock(s, 0, [], max, policy).pos
    else
      var r := ParseStartLine(mode, s, 0, policy);
      if r.status == Ok then ParseBlock(s, r.end, [], max, policy).pos else 0
  }

  /** The limit for the line at pos. */
  function LimitAt(mode: Mode, pos: nat): nat {
    if pos == 0 && mode != HeadersMode then MAX_REQUEST_LINE else MAX_HEADER_LINE
  }

  /** u has no LF from pos on. */
  predicate Open(u: seq<byte>, pos: nat)
    requires pos <= |u|
  {
    forall k :: pos <= k < |u| ==> u[k] != LF
  }

  /** The verdict on v when that on u is TooLong, unless a line of exactly the limit gets its LF. */
  function Becomes(u: seq<byte>, v: seq<byte>, pos: nat, policy: Policy): Status
    requires u <= v && pos <= |u|
  {
    if Open(u, pos) && policy.rejectBareLf && EndsBare(u, v) then Error else TooLong
  }

  lemma StepTooLong(u: seq<byte>, v: seq<byte>, pos: nat, hs: seq<Header>, max: nat, policy: Policy)
    requires u <= v && pos < |u|
    requires var step := HeaderStep(u, pos, hs, max, policy); step.Stop? && step.status == TooLong
    ensures var step := HeaderStep(v, pos, hs, max, policy);
            if Open(u, pos) && Completes(u, v, pos, MAX_HEADER_LINE) then
              step.Stop? ==> step.status == Error || step.status == TooManyHeaders
            else step.Stop? && step.status == Becomes(u, v, pos, policy)
    ensures Open(u, pos) ==> |u| - pos > MAX_HEADER_LINE
  {
    hide FieldStep, FoldStep, EndsBare, EndsAtLimit;
    assert v[pos] == u[pos];
    if LineAt(u, pos, policy).Unterminated? {
      OverlongTailIn(u, v, pos, MAX_HEADER_LINE, policy);
    } else {
      LineExtends(u, v, pos, policy);
    }
  }

  /** A block that is too long, on a longer buffer: the verdict, case by case. */
  lemma {:induction false} BlockTooLong(u: seq<byte>, v: seq<byte>, pos: nat, hs: seq<Header>, max: nat, policy: Policy)
    requires u <= v && pos <= |u|
    requires ParseBlock(u, pos, hs, max, policy).status == TooLong
    ensures var at := ParseBlock(u, pos, hs, max, policy).pos;
            var w := ParseBlock(v, pos, hs, max, policy).status;
            && (Open(u, at) ==> |u| - at > MAX_HEADER_LINE)
            && (Open(u, at) && Completes(u, v, at, MAX_HEADER_LINE) && |v| == |u| + 1 ==> w != TooLong && w != Ok)
            && (!(Open(u, at) && Completes(u, v, at, MAX_HEADER_LINE)) ==> w == Becomes(u, v, at, policy))
    decreases |u| - pos
  {
    hide HeaderStep, Open, Completes, Becomes;
    var step := HeaderStep(u, pos, hs, max, policy);
    if step.Next? {
      HeaderStepExtends(u, v, pos, hs, max, policy);
      BlockTooLong(u, v, step.pos, step.headers, max, policy);
    } else {
      StepTooLong(u, v, pos, hs, max, policy);
      if HeaderStep(v, pos, hs, max, policy).Next? && Open(u, pos) && Completes(u, v, pos, MAX_HEADER_LINE)
         && |v| == |u| + 1 {
        OverlongTailTakesAll(u, v, pos, hs, max, policy);
      }
    }
  }

  /** The line that gets its LF there is the whole rest of the buffer. */
  lemma OverlongTailTakesAll(u: seq<byte>, v: seq<byte>, pos: nat, hs: seq<Header>, max: nat, policy: Policy)
    requires u <= v && pos < |u| && Open(u, pos) && Completes(u, v, pos, MAX_HEADER_LINE) && |v| == |u| + 1
    requires HeaderStep(v, pos, hs, max, policy).Next?
    ensures HeaderStep(v, pos, hs, max, policy).pos == |v|
  {
    hide FieldStep, FoldStep;
    OverlongTailIn(u, v, pos, MAX_HEADER_LINE, policy);
  }

  /** TooLong on a longer buffer v, exactly: the verdict stays, except that a bare LF turns the
      unfinished line into an Error where bare LF is rejected, and that a line of exactly the limit
      whose CR was read is judged afresh once its LF arrives; with that LF alone the head is refused
      or waiting for more. */
  lemma TooLongIsAlmostStable(mode: Mode, u: seq<byte>, v: seq<byte>, max: nat, policy: Policy)
    requires u <= v
    requires OneShot(mode, u, max, policy).status == TooLong
    ensures var at := StoppedAt(mode, u, max, policy);
            var w := OneShot(mode, v, max, policy).status;
            && (Open(u, at) ==> |u| - at > LimitAt(mode, at))
            && (Open(u, at) && Completes(u, v, at, LimitAt(mode, at)) && |v| == |u| + 1 ==> w != TooLong && w != Ok)
            && (!(Open(u, at) && Completes(u, v, at, LimitAt(mode, at))) ==> w == Becomes(u, v, at, policy))
  {
    hide RequestLineOf, StatusLineOf, ParseBlock, Open, Completes, Becomes;
    if mode == HeadersMode {
      BlockTooLong(u, v, 0, [], max, policy);
    } else {
      var r := ParseStartLine(mode, u, 0, policy);
      if r.status == Ok {
        StartLineExtends(mode, u, v, 0, policy);
        BlockTooLong(u, v, r.end, [], max, policy);
      } else {
        StartTooLong(u, v, max, policy);
      }
    }
  }

  lemma StartTooLong(u: seq<byte>, v: seq<byte>, max: nat, policy: Policy)
    requires u <= v && ParseRequestLine(u, 0, policy).status == TooLong
    ensures var w := OneShot(RequestMode, v, max, policy).status;
            && (Open(u, 0) ==> |u| > MAX_REQUEST_LINE)
            && (Open(u, 0) && Completes(u, v, 0, MAX_REQUEST_LINE) && |v| == |u| + 1 ==> w != TooLong && w != Ok)
            && (!(Open(u, 0) && Completes(u, v, 0, MAX_REQUEST_LINE)) ==> w == Becomes(u, v, 0, policy))
  {
    hide RequestLineOf, HeaderStep, EndsBare, EndsAtLimit;
    if LineAt(u, 0, policy).Unterminated? {
      OverlongTailIn(u, v, 0, MAX_REQUEST_LINE, policy);
    } else {
      LineExtends(u, v, 0, policy);
    }
  }

  /** TooLong is final, in every extension of the buffer, exactly when the offending line is
      already finished, or bare LF is allowed and the line is not the limit plus a CR. */
  lemma TooLongIsFinal(mode: Mode, u: seq<byte>, max: nat, policy: Policy)
    requires OneShot(mode, u, max, policy).status == TooLong
    ensures var at := StoppedAt(mode, u, max, policy);
            (forall v :: u <= v ==> OneShot(mode, v, max, policy).status == TooLong)
            <==> !Open(u, at) || (!policy.rejectBareLf && !EndsAtLimit(u, at, LimitAt(mode, at)))
  {
    hide OneShot, StoppedAt, Open, EndsBare;
    var at := StoppedAt(mode, u, max, policy);
    if Open(u, at) && EndsAtLimit(u, at, LimitAt(mode, at)) {
      var v := u + [LF];
      TooLongIsAlmostStable(mode, u, v, max, policy);
      assert u <= v && OneShot(mode, v, max, policy).status != TooLong;
    } else if Open(u, at) && policy.rejectBareLf {
      var v := BareEnding(u);
      TooLongIsAlmostStable(mode, u, v, max, policy);
      assert u <= v && OneShot(mode, v, max, policy).status != TooLong;
    } else {
      forall v | u <= v
        ensures OneShot(mode, v, max, policy).status == TooLong
      {
        TooLongIsAlmostStable(mode, u, v, max, policy);
      }
    }
  }

  /** Only the CR that ends a line of exactly the limit, followed by its LF, turns TooLong into
      anything but an Error. */
  lemma TooLongRecovers(mode: Mode, u: seq<byte>, v: seq<byte>, max: nat, policy: Policy)
    requires u <= v
    requires OneShot(mode, u, max, policy).status == TooLong
    requires var w := OneShot(mode, v, max, policy).status; w != TooLong && w != Error
    ensures var at := StoppedAt(mode, u, max, policy);
            Open(u, at) && EndsAtLimit(u, at, LimitAt(mode, at)) && |u| < |v| && v[|u|] == LF
  {
    hide OneShot, StoppedAt, Open, EndsBare;
    TooLongIsAlmostStable(mode, u, v, max, policy);
  }

  /** A bare LF behind an unfinished line that is too long makes it malformed where bare LF is
      rejected. */
  lemma BareLfAfterOverlong(mode: Mode, u: seq<byte>, max: nat, policy: Policy)
    requires OneShot(mode, u, max, policy).status == TooLong && Open(u, StoppedAt(mode, u, max, policy))
    requires policy.rejectBareLf && u != [] && u[|u| - 1] != CR
    ensures OneShot(mode, u + [LF], max, policy).status == Error
  {
    hide OneShot, StoppedAt, Open, LimitAt;
    var v := u + [LF];
    assert v[|u|] == LF && v[|u| - 1] == u[|u| - 1];
    assert Find(v, |u|, |v|, LF) == |u|;
    TooLongIsAlmostStable(mode, u, v, max, policy);
  }

  /** An unfinished line of n equal letters. */
  function Letters(n: nat): seq<byte> {
    seq(n, _ => 97)
  }

  /** Such lines exist, of every length over the limit, and do not end at the limit. */
  lemma LettersThenBareLf(mode: Mode, n: nat, max: nat, policy: Policy)
    requires mode != ResponseMode && n > LimitAt(mode, 0) && policy.rejectBareLf
    ensures var u := Letters(n);
            && OneShot(mode, u, max, policy).status == TooLong
            && StoppedAt(mode, u, max, policy) == 0 && Open(u, 0)
            && !EndsAtLimit(u, 0, LimitAt(mode, 0))
            && OneShot(mode, u + [LF], max, policy).status == Error
  {
    hide RequestLineOf, FieldStep, FoldStep;
    var u := Letters(n);
    assert Open(u, 0);
    assert LineAt(u, 0, policy).Unterminated?;
    BareLfAfterOverlong(mode, u, max, policy);
  }

  /** Where the line in progress starts: right after the last LF. */
  function LineInProgress(u: seq<byte>): (pos: nat)
    ensures pos <= |u|
  {
    FindLast(u, 0, |u|, LF)
  }

  lemma StepEndsWithLf(u: seq<byte>, pos: nat, hs: seq<Header>, max: nat, policy: Policy)
    requires pos < |u| && HeaderStep(u, pos, hs, max, policy).Next?
    ensures u[HeaderStep(u, pos, hs, max, policy).pos - 1] == LF
  {
    hide FieldStep, FoldStep;
  }

  lemma {:induction false} BlockStopsAtLine(u: seq<byte>, pos: nat, hs: seq<Header>, max: nat, policy: Policy)
    requires pos <= |u| && (pos == 0 || u[pos - 1] == LF)
    requires ParseBlock(u, pos, hs, max, policy).status == TooLong
    ensures var at := ParseBlock(u, pos, hs, max, policy).pos; at == 0 || u[at - 1] == LF
    decreases |u| - pos
  {
    hide HeaderStep;
    var step := HeaderStep(u, pos, hs, max, policy);
    if step.Next? {
      StepEndsWithLf(u, pos, hs, max, policy);
      BlockStopsAtLine(u, step.pos, step.headers, max, policy);
    }
  }

  lemma StartEndsWithLf(mode: Mode, u: seq<byte>, policy: Policy)
    requires ParseStartLine(mode, u, 0, policy).status == Ok
    ensures u[ParseStartLine(mode, u, 0, policy).end - 1] == LF
  {
    hide RequestLineOf, StatusLineOf;
  }

  /** When the offending line is unfinished it is the line in progress, so a caller finds it behind
      the last LF of its buffer. */
  lemma StoppedAtLineInProgress(mode: Mode, u: seq<byte>, max: nat, policy: Policy)
    requires OneShot(mode, u, max, policy).status == TooLong
    ensures Open(u, StoppedAt(mode, u, max, policy)) ==>
              StoppedAt(mode, u, max, policy) == LineInProgress(u)
  {
    hide ParseStartLine, ParseBlock;
    if mode == HeadersMode {
      BlockStopsAtLine(u, 0, [], max, policy);
    } else {
      var r := ParseStartLine(mode, u, 0, policy);
      if r.status == Ok {
        StartEndsWithLf(mode, u, policy);
        BlockStopsAtLine(u, r.end, [], max, policy);
      }
    }
  }

  // ----- stateful calls on a growing buffer

  /** Same answer; and same outputs whenever the outputs are meaningful. */
  predicate Agrees(a: Outcome, b: Outcome) {
    && a.status == b.status && a.consumed == b.consumed
    && (a.status == Ok || a.status == Incomplete ==> a.state == b.state)
  }

  /** The state an incomplete one-shot parse of u leaves is as good as a fresh one on v. */
  lemma ResumeAgrees(mode: Mode, u: seq<byte>, v: seq<byte>, max: nat, policy: Policy)
    requires u <= v
    requires OneShot(mode, u, max, policy).status == Incomplete
    ensures var st := OneShot(mode, u, max, policy).state;
            && (st.phase == AtStartLine || st.phase == AtHeaders) && st.cursor <= |u|
            && Agrees(Advance(mode, st, v, max, policy), OneShot(mode, v, max, policy))
  {
    hide ParseBlock, ParseStartLine;
    if mode == HeadersMode {
      BlockExtends(u, v, 0, [], max, policy);
    } else {
      var r := ParseStartLine(mode, u, 0, policy);
      if r.status == Ok {
        StartLineExtends(mode, u, v, 0, policy);
        BlockExtends(u, v, r.end, [], max, policy);
      }
    }
  }

  /** Lengths of the successive prefixes of s that a caller hands in. */
  predicate Schedule(s: seq<byte>, cuts: seq<nat>) {
    && cuts != []
    && (forall i :: 0 <= i < |cuts| ==> cuts[i] <= |s|)
    && (forall i, j :: 0 <= i < j < |cuts| ==> cuts[i] <= cuts[j])
  }

  /** Outcome of the last call of a schedule, every call starting from the state the one before
      it left, whatever that call returned. */
  function Feed(mode: Mode, s: seq<byte>, cuts: seq<nat>, max: nat, policy: Policy): (r: Outcome)
    requires Schedule(s, cuts)
    ensures Settled(r, s[..cuts[|cuts| - 1]])
    decreases |cuts|
  {
    var last := cuts[|cuts| - 1];
    var before := if |cuts| == 1 then Initial(mode) else Feed(mode, s, cuts[..|cuts| - 1], max, policy).state;
    Advance(mode, before, s[..last], max, policy)
  }

  /** Every call but the last returned Incomplete. */
  predicate Pending(mode: Mode, s: seq<byte>, cuts: seq<nat>, max: nat, policy: Policy)
    requires Schedule(s, cuts)
  {
    forall k :: 0 < k < |cuts| ==> Feed(mode, s, cuts[..k], max, policy).status == Incomplete
  }

  /** Incremental parsing equals one-shot parsing of the current prefix, for every schedule. */
  lemma {:induction false} IncrementalEqualsOneShot(mode: Mode, s: seq<byte>, cuts: seq<nat>, max: nat, policy: Policy)
    requires Schedule(s, cuts) && Pending(mode, s, cuts, max, policy)
    ensures Agrees(Feed(mode, s, cuts, max, policy), OneShot(mode, s[..cuts[|cuts| - 1]], max, policy))
    decreases |cuts|
  {
    hide ParseBlock, ParseStartLine;
    var n := |cuts|;
    if n > 1 {
      var init := cuts[..n - 1];
      forall k | 0 < k < |init|
        ensures Feed(mode, s, init[..k], max, policy).status == Incomplete
      {
        assert init[..k] == cuts[..k];
      }
      IncrementalEqualsOneShot(mode, s, init, max, policy);
      var u, v := s[..cuts[n - 2]], s[..cuts[n - 1]];
      assert u <= v;
      ResumeAgrees(mode, u, v, max, policy);
    }
  }

  /** What a decided parser answers from then on: Ok again, or plain Error. */
  function Latched(status: Status): Status {
    if status == Ok then Ok else Error
  }

  /** Once a call has decided, every later call of the schedule repeats the decision: an accepted
      head keeps its state and its length, a rejected one stays rejected. */
  lemma {:induction false} FirstDecisionWins(mode: Mode, s: seq<byte>, cuts: seq<nat>, k: nat, max: nat, policy: Policy)
    requires Schedule(s, cuts) && 0 < k < |cuts|
    requires Feed(mode, s, cuts[..k], max, policy).status != Incomplete
    ensures var a := Feed(mode, s, cuts[..k], max, policy);
            var b := Feed(mode, s, cuts, max, policy);
            && b.state == a.state && b.status == Latched(a.status)
            && (a.status == Ok ==> b.consumed == a.consumed)
            && (a.status != Ok ==> b.consumed == 0)
    decreases |cuts|
  {
    hide Feed, Advance;
    var n := |cuts|;
    var init := cuts[..n - 1];
    FeedUnfolds(mode, s, cuts, max, policy);
    assert init[..k] == cuts[..k];
    if k < n - 1 {
      FirstDecisionWins(mode, s, init, k, max, policy);
    } else {
      assert init == cuts[..k];
    }
    AdvanceRepeats(mode, Feed(mode, s, init, max, policy).state, s[..cuts[n - 1]], max, policy);
  }

  lemma FeedUnfolds(mode: Mode, s: seq<byte>, cuts: seq<nat>, max: nat, policy: Policy)
    requires Schedule(s, cuts) && |cuts| > 1
    ensures var before := Feed(mode, s, cuts[..|cuts| - 1], max, policy).state;
            var u := s[..cuts[|cuts| - 1]];
            CursorFits(before.phase, before.cursor, u)
            && Feed(mode, s, cuts, max, policy) == Advance(mode, before, u, max, policy)
  {
    hide Advance;
  }

  /** Done and Failed are absorbing. */
  lemma AdvanceRepeats(mode: Mode, st: HeadState, u: seq<byte>, max: nat, policy: Policy)
    requires CursorFits(st.phase, st.cursor, u)
    ensures st.phase == Done ==> Advance(mode, st, u, max, policy) == Outcome(Ok, st, st.cursor)
    ensures st.phase == Failed ==> Advance(mode, st, u, max, policy) == Outcome(Error, st, 0)
  {
  }
}
