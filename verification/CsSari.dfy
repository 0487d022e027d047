/** The conflict-scoped revocation hold (CS-SARI) on its own: authority only ever shrinks, so a gate
    decision can be read off the history of revocations.  Lines, tokens and queue depth are unbounded;
    the tuples of live flags are sets of what is no longer live. */
module CsSari {

  import RQ = RevocationQueue

  datatype State = State(
    queue: seq<nat>, overflow: bool, deadSource: set<nat>, deadTarget: set<(nat, nat)>, deadToken: set<nat>,
    allDead: bool)

  const INITIAL: State := State([], false, {}, {}, {}, false)

  datatype Event =
    | Idle | Dma(line: nat) | Chi(line: nat) | Io(line: nat) | Burst(lines: seq<nat>)
    | Remap(target: nat, token: nat) | TlbiToken(token: nat) | TlbiAll

  datatype Query = Query(valid: bool, src: nat, tgt: nat, token: nat)

  datatype Variant = Variant(
    checkIncomingSource: bool, checkQueuedSource: bool, checkRemapEvent: bool, checkRemapLine: bool,
    checkRemapToken: bool, checkTlbiToken: bool, checkTlbiAll: bool, checkOverflow: bool)

  const FULL: Variant := Variant(true, true, true, true, true, true, true, true)

  function SourceLines(e: Event): seq<nat> {
    match e
    case Dma(line) => [line]
    case Chi(line) => [line]
    case Io(line) => [line]
    case Burst(lines) => lines
    case _ => []
  }

  predicate TargetConflict(e: Event, tgt: nat, token: nat) {
    e == Remap(tgt, token) || e == TlbiToken(token) || e == TlbiAll
  }

  predicate LiveTarget(s: State, tgt: nat, token: nat) {
    (token, tgt) !in s.deadTarget && token !in s.deadToken && !s.allDead
  }

  predicate Authorized(s: State, q: Query) {
    q.valid && q.src !in s.deadSource && LiveTarget(s, q.tgt, q.token)
  }

  predicate TruthHazard(s: State, e: Event, q: Query) {
    q.valid && (s.overflow || q.src in s.queue || q.src in SourceLines(e) || TargetConflict(e, q.tgt, q.token))
  }

  predicate VariantHold(s: State, e: Event, q: Query, v: Variant) {
    q.valid && (
      || (v.checkOverflow && s.overflow)
      || (v.checkQueuedSource && q.src in s.queue)
      || (v.checkIncomingSource && q.src in SourceLines(e))
      || (e.Remap? && v.checkRemapEvent
          && (v.checkRemapLine ==> e.target == q.tgt) && (v.checkRemapToken ==> e.token == q.token))
      || (e.TlbiToken? && v.checkTlbiToken && e.token == q.token)
      || (e.TlbiAll? && v.checkTlbiAll))
  }

  predicate IssueAllowed(s: State, e: Event, q: Query, v: Variant) {
    Authorized(s, q) && !VariantHold(s, e, q, v)
  }

  function Transition(s: State, e: Event, depth: nat): State {
    var popped := RQ.Pop(s.queue);
    State(
      RQ.Push(popped, SourceLines(e), depth),
      s.overflow || RQ.Overflows(popped, SourceLines(e), depth),
      if s.queue == [] then s.deadSource else s.deadSource + {s.queue[0]},
      if e.Remap? then s.deadTarget + {(e.token, e.target)} else s.deadTarget,
      if e.TlbiToken? then s.deadToken + {e.token} else s.deadToken,
      s.allDead || e.TlbiAll?)
  }

  function After(log: seq<Event>, depth: nat): State {
    if log == [] then INITIAL else Transition(After(log[..|log| - 1], depth), log[|log| - 1], depth)
  }

  // ----- which variants are safe, and which are precise

  predicate UnsafeIssue(s: State, e: Event, q: Query, v: Variant) {
    TruthHazard(s, e, q) && IssueAllowed(s, e, q, v)
  }

  predicate NeedlessHold(s: State, e: Event, q: Query, v: Variant) {
    Authorized(s, q) && !TruthHazard(s, e, q) && VariantHold(s, e, q, v)
  }

  ghost predicate SafeInEveryRun(v: Variant, depth: nat) {
    forall log, e, q :: !UnsafeIssue(After(log, depth), e, q, v)
  }

  ghost predicate PreciseInEveryRun(v: Variant, depth: nat) {
    forall log, e, q :: !NeedlessHold(After(log, depth), e, q, v)
  }

  /** The flags that safety needs; a queue without slots never holds a line to check. */
  predicate Covers(v: Variant, depth: nat) {
    && v.checkIncomingSource && (depth == 0 || v.checkQueuedSource)
    && v.checkRemapEvent && v.checkTlbiToken && v.checkTlbiAll && v.checkOverflow
  }

  predicate Discriminates(v: Variant) {
    v.checkRemapEvent ==> v.checkRemapLine && v.checkRemapToken
  }

  lemma {:induction false} QueueFits(log: seq<Event>, depth: nat)
    ensures |After(log, depth).queue| <= depth
    decreases |log|
  {
    if log != [] {
      QueueFits(log[..|log| - 1], depth);
    }
  }

  lemma CoveringIsSafe(v: Variant, depth: nat, log: seq<Event>, e: Event, q: Query)
    requires Covers(v, depth)
    ensures !UnsafeIssue(After(log, depth), e, q, v)
  {
    QueueFits(log, depth);
  }

  lemma AfterOne(e: Event, depth: nat)
    ensures After([e], depth) == Transition(INITIAL, e, depth)
  {
    assert [e][..0] == [];
  }

  /** Without one of those flags, a run of at most one event ends in an unsafe issue. */
  lemma Escape(v: Variant, depth: nat, a: nat, b: nat) returns (log: seq<Event>, e: Event, q: Query)
    requires !Covers(v, depth) && a != b
    ensures |log| <= 1 && UnsafeIssue(After(log, depth), e, q, v)
  {
    log, e, q := [], Idle, Query(true, a, a, a);
    if !v.checkIncomingSource {
      e := Dma(a);
    } else if !v.checkRemapEvent {
      e := Remap(a, a);
    } else if !v.checkTlbiToken {
      e := TlbiToken(a);
    } else if !v.checkTlbiAll {
      e := TlbiAll;
    } else if !v.checkOverflow {
      var lines := seq(depth + 1, _ => b);
      log := [Burst(lines)];
      AfterOne(Burst(lines), depth);
      assert After(log, depth).overflow;
      assert forall l :: l in lines ==> l == b;
      assert a !in After(log, depth).queue;
    } else {
      log := [Dma(a)];
      AfterOne(Dma(a), depth);
    }
  }

  /** A variant is safe in every run exactly when it checks every hazard; the two precision flags do not matter. */
  lemma SafeIff(v: Variant, depth: nat)
    ensures SafeInEveryRun(v, depth) <==> Covers(v, depth)
  {
    if Covers(v, depth) {
      forall log, e, q ensures !UnsafeIssue(After(log, depth), e, q, v) {
        CoveringIsSafe(v, depth, log, e, q);
      }
    } else {
      var log, e, q := Escape(v, depth, 0, 1);
    }
  }

  lemma Overhold(v: Variant, depth: nat, a: nat, b: nat) returns (e: Event, q: Query)
    requires !Discriminates(v) && a != b
    ensures NeedlessHold(After([], depth), e, q, v)
  {
    q := Query(true, a, a, a);
    e := if v.checkRemapLine then Remap(a, b) else Remap(b, a);
  }

  /** A variant never holds without a hazard exactly when its remap check compares line and token. */
  lemma PreciseIff(v: Variant, depth: nat)
    ensures PreciseInEveryRun(v, depth) <==> Discriminates(v)
  {
    if !Discriminates(v) {
      var e, q := Overhold(v, depth, 0, 1);
    }
  }

  // ----- what a decision says about the history

  /** The event revokes the source line: a DMA, coherence or I/O write to it, or a burst that holds it. */
  predicate Revokes(e: Event, line: nat) {
    e == Dma(line) || e == Chi(line) || e == Io(line) || (e.Burst? && line in e.lines)
  }

  lemma RevokedLines(e: Event, line: nat)
    ensures line in SourceLines(e) <==> Revokes(e, line)
  {
  }

  ghost predicate SourceRevoked(log: seq<Event>, line: nat) {
    exists i :: 0 <= i < |log| && Revokes(log[i], line)
  }

  ghost predicate TargetRevoked(log: seq<Event>, tgt: nat, token: nat) {
    exists i :: 0 <= i < |log| && TargetConflict(log[i], tgt, token)
  }

  lemma RevokedNext(log: seq<Event>, e: Event, line: nat, tgt: nat, token: nat)
    ensures SourceRevoked(log + [e], line) <==> SourceRevoked(log, line) || Revokes(e, line)
    ensures TargetRevoked(log + [e], tgt, token) <==> TargetRevoked(log, tgt, token) || TargetConflict(e, tgt, token)
  {
    var log' := log + [e];
    assert log'[|log|] == e && forall i :: 0 <= i < |log| ==> log'[i] == log[i];
  }

  lemma TargetStep(s: State, e: Event, depth: nat, tgt: nat, token: nat)
    ensures LiveTarget(Transition(s, e, depth), tgt, token) <==>
            LiveTarget(s, tgt, token) && !TargetConflict(e, tgt, token)
  {
  }

  lemma PushHas(queue: seq<nat>, lines: seq<nat>, depth: nat, line: nat)
    ensures line in RQ.Push(queue, lines, depth) ==> line in queue || line in lines
    ensures line in queue || line in lines ==>
              line in RQ.Push(queue, lines, depth) || RQ.Overflows(queue, lines, depth)
  {
  }

  /** The line is dead already, or its revocation waits in the queue. */
  predicate Pending(s: State, line: nat) {
    line in s.deadSource || line in s.queue
  }

  lemma SourceStep(s: State, e: Event, depth: nat, line: nat)
    ensures var t := Transition(s, e, depth);
            && (Pending(t, line) ==> Pending(s, line) || Revokes(e, line))
            && (Pending(s, line) || Revokes(e, line) ==> Pending(t, line) || t.overflow)
            && (s.overflow ==> t.overflow)
  {
    assert s.queue != [] ==> s.queue == [s.queue[0]] + RQ.Pop(s.queue);
    RevokedLines(e, line);
    PushHas(RQ.Pop(s.queue), SourceLines(e), depth, line);
  }

  /** Target authority is exactly the absence of a revocation. */
  lemma {:induction false} TargetLiveIff(log: seq<Event>, depth: nat, tgt: nat, token: nat)
    ensures LiveTarget(After(log, depth), tgt, token) <==> !TargetRevoked(log, tgt, token)
    decreases |log|
  {
    if log != [] {
      var before, e := log[..|log| - 1], log[|log| - 1];
      var s := After(before, depth);
      assert log == before + [e] && After(log, depth) == Transition(s, e, depth);
      TargetLiveIff(before, depth, tgt, token);
      TargetStep(s, e, depth, tgt, token);
      RevokedNext(before, e, tgt, tgt, token);
    }
  }

  /** A revoked line is dead, queued, or lost to an overflow; a line never revoked is neither dead nor queued. */
  lemma {:induction false} SourceTracked(log: seq<Event>, depth: nat, line: nat)
    ensures Pending(After(log, depth), line) ==> SourceRevoked(log, line)
    ensures SourceRevoked(log, line) ==> Pending(After(log, depth), line) || After(log, depth).overflow
    decreases |log|
  {
    if log != [] {
      var before, e := log[..|log| - 1], log[|log| - 1];
      var s := After(before, depth);
      assert log == before + [e] && After(log, depth) == Transition(s, e, depth);
      SourceTracked(before, depth, line);
      SourceStep(s, e, depth, line);
      RevokedNext(before, e, line, line, line);
    }
  }

  function Stream(log: seq<Event>): seq<seq<nat>> {
    if log == [] then [] else Stream(log[..|log| - 1]) + [SourceLines(log[|log| - 1])]
  }

  lemma {:induction false} QueueIsRun(log: seq<Event>, depth: nat)
    ensures var s := After(log, depth);
            RQ.Contents(s.queue, s.overflow) == RQ.Run(Stream(log), depth)
    decreases |log|
  {
    if log != [] {
      var before := Stream(log[..|log| - 1]);
      QueueIsRun(log[..|log| - 1], depth);
      assert (before + [SourceLines(log[|log| - 1])])[..|before|] == before;
    }
  }

  /** The gate, read off the history alone: a valid candidate issues exactly when neither its source line
      nor its target was ever revoked, this cycle included, and no stretch of the history was too dense. */
  lemma IssuesIff(log: seq<Event>, depth: nat, e: Event, q: Query)
    ensures IssueAllowed(After(log, depth), e, q, FULL) <==>
            q.valid && !SourceRevoked(log + [e], q.src) && !TargetRevoked(log + [e], q.tgt, q.token)
            && RQ.AllWindowsFit(Stream(log), depth)
  {
    SourceTracked(log, depth, q.src);
    TargetLiveIff(log, depth, q.tgt, q.token);
    RevokedNext(log, e, q.src, q.tgt, q.token);
    RevokedLines(e, q.src);
    QueueIsRun(log, depth);
    RQ.OverflowIff(Stream(log), depth);
  }
}
