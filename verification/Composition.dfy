/** The composed issue contract: CLPD source metadata, CTLW target metadata and the conflict-scoped
    revocation hold (CS-SARI), against a ground-truth machine.

    The tuples of booleans of the checker are sets of line numbers here, and target tables are sets
    of (token, target) pairs.  The queue depth and the event alphabet are parameters. */
module Composition {
  import opened Options
  import opened Levels
  import opened RevocationQueue
  import Search

  datatype State = State(
    queue: seq<nat>, overflow: bool, truthSource: set<nat>, clpdSource: set<nat>,
    truthTarget: set<(nat, nat)>, ctlwTarget: set<(nat, nat)>)

  const INITIAL := State([], false, {}, {}, {}, {})

  datatype Event =
    | Idle | CommitSource(line: nat) | RecordTarget(target: nat, token: nat)
    | Dma(line: nat) | Chi(line: nat) | Io(line: nat) | Burst(lines: seq<nat>)
    | Remap(target: nat, token: nat) | TlbiToken(token: nat) | TlbiAll

  datatype Query = Query(valid: bool, src: nat, tgt: nat, token: nat)

  datatype Variant = Variant(
    checkIncomingSource: bool, checkQueuedSource: bool, checkRemapEvent: bool, checkTlbiToken: bool,
    checkTlbiAll: bool, checkOverflow: bool, clearSourceOnDrain: bool, clearTargetOnRemap: bool,
    clearTargetOnTlbiToken: bool, clearTargetOnTlbiAll: bool, requireSourceMetadata: bool,
    requireTargetMetadata: bool, forceGlobalHold: bool)

  const FULL := Variant(true, true, true, true, true, true, true, true, true, true, true, true, false)

  datatype Reason =
    | OverflowFallback | QueuedSource | IncomingSource | TargetRemap | TokenTlbi | GlobalTlbi
    | MissingSourceTruth | MissingTargetTruth

  function SourceLines(e: Event): seq<nat> {
    match e
    case Dma(line) => [line]
    case Chi(line) => [line]
    case Io(line) => [line]
    case Burst(lines) => lines
    case _ => []
  }

  predicate MetadataAuthorized(s: State, q: Query, v: Variant) {
    && q.valid
    && (v.requireSourceMetadata ==> q.src in s.clpdSource)
    && (v.requireTargetMetadata ==> (q.token, q.tgt) in s.ctlwTarget)
  }

  predicate GroundTruth(s: State, q: Query) {
    q.valid && q.src in s.truthSource && (q.token, q.tgt) in s.truthTarget
  }

  predicate TargetConflict(e: Event, q: Query) {
    || e == Remap(q.tgt, q.token)
    || e == TlbiToken(q.token)
    || e == TlbiAll
  }

  predicate TruthHazard(s: State, e: Event, q: Query) {
    q.valid && (s.overflow || q.src in s.queue || q.src in SourceLines(e) || TargetConflict(e, q))
  }

  predicate GlobalHold(s: State, e: Event, q: Query) {
    q.valid && (s.overflow || s.queue != [] || SourceLines(e) != [] || e.Remap? || e.TlbiToken? || e.TlbiAll?)
  }

  predicate VariantHold(s: State, e: Event, q: Query, v: Variant) {
    if !q.valid then false
    else if v.forceGlobalHold then GlobalHold(s, e, q)
    else
      || (v.checkOverflow && s.overflow)
      || (v.checkQueuedSource && q.src in s.queue)
      || (v.checkIncomingSource && q.src in SourceLines(e))
      || (v.checkRemapEvent && e == Remap(q.tgt, q.token))
      || (v.checkTlbiToken && e == TlbiToken(q.token))
      || (v.checkTlbiAll && e == TlbiAll)
  }

  predicate IssueAllowed(s: State, e: Event, q: Query, v: Variant) {
    MetadataAuthorized(s, q, v) && !VariantHold(s, e, q, v)
  }

  function UnsafeReason(s: State, e: Event, q: Query): Option<Reason> {
    if !q.valid then None
    else if s.overflow then Some(OverflowFallback)
    else if q.src in s.queue then Some(QueuedSource)
    else if q.src in SourceLines(e) then Some(IncomingSource)
    else if e == Remap(q.tgt, q.token) then Some(TargetRemap)
    else if e == TlbiToken(q.token) then Some(TokenTlbi)
    else if e == TlbiAll then Some(GlobalTlbi)
    else if q.src !in s.truthSource then Some(MissingSourceTruth)
    else if (q.token, q.tgt) !in s.truthTarget then Some(MissingTargetTruth)
    else None
  }

  predicate UnsafeIssue(s: State, e: Event, q: Query, v: Variant) {
    IssueAllowed(s, e, q, v) && UnsafeReason(s, e, q).Some?
  }

  function Lines(lines: seq<nat>): set<nat> {
    set l | l in lines
  }

  function Untagged(table: set<(nat, nat)>, token: nat): set<(nat, nat)> {
    set p | p in table && p.0 != token
  }

  function Transition(s: State, e: Event, v: Variant, depth: nat): State {
    var popped := Pop(s.queue);
    var drained := if s.queue != [] && v.clearSourceOnDrain then s.clpdSource - {s.queue[0]} else s.clpdSource;
    var next := s.(
      queue := Push(popped, SourceLines(e), depth),
      overflow := s.overflow || Overflows(popped, SourceLines(e), depth),
      truthSource := s.truthSource - Lines(SourceLines(e)),
      clpdSource := drained);
    match e
    case CommitSource(line) => next.(truthSource := s.truthSource + {line}, clpdSource := drained + {line})
    case RecordTarget(target, token) =>
      next.(truthTarget := s.truthTarget + {(token, target)}, ctlwTarget := s.ctlwTarget + {(token, target)})
    case Remap(target, token) =>
      next.(truthTarget := s.truthTarget - {(token, target)},
            ctlwTarget := if v.clearTargetOnRemap then s.ctlwTarget - {(token, target)} else s.ctlwTarget)
    case TlbiToken(token) =>
      next.(truthTarget := Untagged(s.truthTarget, token),
            ctlwTarget := if v.clearTargetOnTlbiToken then Untagged(s.ctlwTarget, token) else s.ctlwTarget)
    case TlbiAll =>
      next.(truthTarget := {}, ctlwTarget := if v.clearTargetOnTlbiAll then {} else s.ctlwTarget)
    case _ => next
  }

  function Step(v: Variant, depth: nat): (State, Event) -> State {
    (s: State, e: Event) => Transition(s, e, v, depth)
  }

  function Successors(alphabet: seq<Event>, v: Variant, depth: nat): State -> seq<(Event, State)> {
    Search.EventSuccessors(alphabet, Step(v, depth))
  }

  /** `s` occurs in some run over the alphabet. */
  ghost predicate Reached(alphabet: seq<Event>, v: Variant, depth: nat, s: State) {
    Reachable(Successors(alphabet, v, depth), INITIAL, s)
  }

  // ----- safety

  /** The rules that keep every run safe: both metadata checks, all four clears, and either the
      global hold or all six scoped checks.  A queue without slots never holds a line to clear or check, and
      overflow needs a check only where it can happen. */
  predicate Sufficient(v: Variant, depth: nat, overflowable: bool) {
    && v.requireSourceMetadata && v.requireTargetMetadata && (depth == 0 || v.clearSourceOnDrain)
    && v.clearTargetOnRemap && v.clearTargetOnTlbiToken && v.clearTargetOnTlbiAll
    && (v.forceGlobalHold
        || (v.checkIncomingSource && (depth == 0 || v.checkQueuedSource) && v.checkRemapEvent && v.checkTlbiToken
            && v.checkTlbiAll && (!overflowable || v.checkOverflow)))
  }

  /** Some run over the alphabet can overflow the queue: it has no slot, or an event brings two lines. */
  ghost predicate Overflowable(alphabet: seq<Event>, depth: nat) {
    depth == 0 || exists e :: e in alphabet && |SourceLines(e)| >= 2
  }

  /** A source line with stale metadata is queued, or its revocation was lost to overflow; target
      metadata is never stale. */
  ghost predicate Covered(s: State) {
    && (forall l :: l in s.clpdSource && l !in s.truthSource ==> s.overflow || l in s.queue)
    && s.ctlwTarget == s.truthTarget
  }

  lemma PushKeepsOrLoses(queue: seq<nat>, lines: seq<nat>, depth: nat)
    ensures forall l :: l in queue ==> l in Push(queue, lines, depth)
    ensures !Overflows(queue, lines, depth) ==> Push(queue, lines, depth) == queue + lines
  {
    forall l | l in queue ensures l in Push(queue, lines, depth) {
      var i :| 0 <= i < |queue| && queue[i] == l;
      assert Push(queue, lines, depth)[i] == l;
    }
  }

  lemma TransitionKeepsCovered(s: State, e: Event, v: Variant, depth: nat)
    requires Covered(s) && (v.clearSourceOnDrain || s.queue == [])
    requires v.clearTargetOnRemap && v.clearTargetOnTlbiToken && v.clearTargetOnTlbiAll
    ensures Covered(Transition(s, e, v, depth))
  {
    var t := Transition(s, e, v, depth);
    PushKeepsOrLoses(Pop(s.queue), SourceLines(e), depth);
    forall l | l in t.clpdSource && l !in t.truthSource ensures t.overflow || l in t.queue {
      if l in SourceLines(e) {
        assert !t.overflow ==> l in Pop(s.queue) + SourceLines(e);
      } else {
        assert l in s.clpdSource && l !in s.truthSource;
        assert l in s.queue && l != s.queue[0] ==> l in Pop(s.queue);
      }
    }
  }

  /** Without overflow, at most one line waits. */
  predicate Calm(s: State) {
    !s.overflow && |s.queue| <= 1
  }

  lemma TransitionKeepsCalm(s: State, e: Event, v: Variant, depth: nat)
    requires Calm(s) && depth > 0 && |SourceLines(e)| < 2
    ensures Calm(Transition(s, e, v, depth))
  {
    assert Pop(s.queue) == [];
  }

  lemma ReachedIsCovered(alphabet: seq<Event>, v: Variant, depth: nat, s: State)
    requires Sufficient(v, depth, Overflowable(alphabet, depth)) && Reached(alphabet, v, depth, s)
    ensures Covered(s) && |s.queue| <= depth && (s.overflow ==> Overflowable(alphabet, depth))
  {
    var may := Overflowable(alphabet, depth);
    var inv := (t: State) => Covered(t) && |t.queue| <= depth && (!may ==> Calm(t));
    var succ := Successors(alphabet, v, depth);
    forall t, i | inv(t) && 0 <= i < |succ(t)| ensures inv(succ(t)[i].1) {
      TransitionKeepsCovered(t, alphabet[i], v, depth);
      if !may {
        assert |SourceLines(alphabet[i])| < 2;
        TransitionKeepsCalm(t, alphabet[i], v, depth);
      }
    }
    var d: nat :| s in Within(succ, INITIAL, d);
    InvariantWithin(succ, INITIAL, inv, d);
    assert inv(s);
  }

  /** Any number of lines, targets and tokens, any queue depth, any burst shapes, any run: an issue
      that a sufficient variant allows is safe, whatever event arrives in the same cycle. */
  lemma SufficientIsSafe(alphabet: seq<Event>, v: Variant, depth: nat, s: State, e: Event, q: Query)
    requires Sufficient(v, depth, Overflowable(alphabet, depth)) && Reached(alphabet, v, depth, s)
    ensures !UnsafeIssue(s, e, q, v)
    ensures IssueAllowed(s, e, q, v) ==> GroundTruth(s, q) && !TruthHazard(s, e, q)
  {
    ReachedIsCovered(alphabet, v, depth, s);
  }

  // ----- the checker's own bounds: three source lines, three targets, two tokens, depth 2

  const DEPTH: nat := 2

  const PROOF_EVENTS: seq<Event> :=
    [Idle, CommitSource(0), CommitSource(1), CommitSource(2),
     RecordTarget(0, 0), RecordTarget(0, 1), RecordTarget(1, 0), RecordTarget(1, 1),
     RecordTarget(2, 0), RecordTarget(2, 1)]

  const SOURCE_EVENTS: seq<Event> :=
    [Dma(0), Dma(1), Dma(2), Chi(0), Chi(1), Chi(2), Io(0), Io(1), Io(2), Burst([0, 1, 2])]

  const TARGET_EVENTS: seq<Event> :=
    [Remap(0, 0), Remap(0, 1), Remap(1, 0), Remap(1, 1), Remap(2, 0), Remap(2, 1),
     TlbiToken(0), TlbiToken(1), TlbiAll]

  const EVENTS: seq<Event> := PROOF_EVENTS + SOURCE_EVENTS + TARGET_EVENTS

  predicate Asked(q: Query) {
    q == Query(false, 0, 0, 0) || (q.valid && q.src < 3 && q.tgt < 3 && q.token < 2)
  }

  /** The alphabet offers at least one event of each kind, on one line, target and token. */
  predicate Probing(alphabet: seq<Event>) {
    && Idle in alphabet && CommitSource(0) in alphabet && RecordTarget(0, 0) in alphabet && Dma(0) in alphabet
    && Remap(0, 0) in alphabet && TlbiToken(0) in alphabet && TlbiAll in alphabet
  }

  /** It can overflow the queue with one burst and then prove a line that the burst does not leave queued. */
  predicate Floods(alphabet: seq<Event>, depth: nat, burst: Event, line: nat) {
    && burst in alphabet && depth < |SourceLines(burst)| && CommitSource(line) in alphabet
    && forall i :: 1 <= i < depth ==> SourceLines(burst)[i] != line
  }

  /** What the checker's alphabet offers. */
  predicate Rich(alphabet: seq<Event>) {
    Probing(alphabet) && CommitSource(2) in alphabet && Burst([0, 1, 2]) in alphabet
  }

  lemma RichFloods(alphabet: seq<Event>)
    requires Rich(alphabet)
    ensures Floods(alphabet, DEPTH, Burst([0, 1, 2]), 2)
  {
  }

  lemma EventsAreRich()
    ensures Rich(EVENTS)
  {
    assert PROOF_EVENTS[0] == Idle && PROOF_EVENTS[1] == CommitSource(0) && PROOF_EVENTS[3] == CommitSource(2);
    assert PROOF_EVENTS[4] == RecordTarget(0, 0);
    assert SOURCE_EVENTS[0] == Dma(0) && SOURCE_EVENTS[9] == Burst([0, 1, 2]);
    assert TARGET_EVENTS[0] == Remap(0, 0) && TARGET_EVENTS[6] == TlbiToken(0) && TARGET_EVENTS[8] == TlbiAll;
  }

  ghost predicate At(alphabet: seq<Event>, v: Variant, depth: nat, d: nat, s: State) {
    s in Within(Successors(alphabet, v, depth), INITIAL, d)
  }

  ghost predicate UnsafeWithin(alphabet: seq<Event>, v: Variant, depth: nat, d: nat) {
    exists s, e, q :: At(alphabet, v, depth, d, s) && e in alphabet && Asked(q) && UnsafeIssue(s, e, q, v)
  }

  lemma Advance(alphabet: seq<Event>, v: Variant, depth: nat, d: nat, s: State, e: Event)
      returns (d': nat, t: State)
    requires At(alphabet, v, depth, d, s) && e in alphabet
    ensures d' == d + 1 && t == Transition(s, e, v, depth) && At(alphabet, v, depth, d', t)
  {
    d', t := d + 1, Transition(s, e, v, depth);
    var k :| 0 <= k < |alphabet| && alphabet[k] == e;
    assert Successors(alphabet, v, depth)(s)[k] == (e, t);
    StepWithin(Successors(alphabet, v, depth), INITIAL, d, s, k);
  }

  lemma Begin(alphabet: seq<Event>, v: Variant, depth: nat) returns (d: nat, s: State)
    ensures d == 0 && s == INITIAL && At(alphabet, v, depth, d, s)
  {
    d, s := 0, INITIAL;
  }

  /** Line 0, target 0 and token 0 fully proved: the start of most attacks. */
  lemma Prove(alphabet: seq<Event>, v: Variant, depth: nat) returns (d: nat, s: State)
    requires Probing(alphabet)
    ensures d == 2 && At(alphabet, v, depth, d, s)
    ensures s == State([], false, {0}, {0}, {(0, 0)}, {(0, 0)})
  {
    d, s := Begin(alphabet, v, depth);
    d, s := Advance(alphabet, v, depth, d, s, CommitSource(0));
    d, s := Advance(alphabet, v, depth, d, s, RecordTarget(0, 0));
  }

  lemma UnsafeMetadata(alphabet: seq<Event>, v: Variant, depth: nat) returns (d: nat, s: State)
    requires Probing(alphabet) && (!v.requireSourceMetadata || !v.requireTargetMetadata)
    ensures d <= 4 && At(alphabet, v, depth, d, s) && UnsafeIssue(s, Idle, Query(true, 0, 0, 0), v)
  {
    d, s := Begin(alphabet, v, depth);
    d, s := Advance(alphabet, v, depth, d, s, if v.requireSourceMetadata then CommitSource(0) else RecordTarget(0, 0));
  }

  /** ... and then line 0 revoked, with its metadata still in place. */
  lemma ProveThenRevoke(alphabet: seq<Event>, v: Variant, depth: nat) returns (d: nat, s: State)
    requires Probing(alphabet) && depth > 0
    ensures d == 3 && At(alphabet, v, depth, d, s)
    ensures s == State([0], false, {}, {0}, {(0, 0)}, {(0, 0)})
  {
    d, s := Prove(alphabet, v, depth);
    d, s := Advance(alphabet, v, depth, d, s, Dma(0));
  }

  lemma UnsafeSourceClear(alphabet: seq<Event>, v: Variant, depth: nat) returns (d: nat, s: State)
    requires Probing(alphabet) && depth > 0 && !v.clearSourceOnDrain
    ensures d <= 4 && At(alphabet, v, depth, d, s) && UnsafeIssue(s, Idle, Query(true, 0, 0, 0), v)
  {
    d, s := ProveThenRevoke(alphabet, v, depth);
    DrainKeepsMetadata(v, depth, s);
    d, s := Advance(alphabet, v, depth, d, s, Idle);
    StaleMetadataIssues(v, s);
  }

  lemma DrainKeepsMetadata(v: Variant, depth: nat, s: State)
    requires depth > 0 && !v.clearSourceOnDrain && s == State([0], false, {}, {0}, {(0, 0)}, {(0, 0)})
    ensures Transition(s, Idle, v, depth) == State([], false, {}, {0}, {(0, 0)}, {(0, 0)})
  {
  }

  lemma StaleMetadataIssues(v: Variant, s: State)
    requires s == State([], false, {}, {0}, {(0, 0)}, {(0, 0)})
    ensures UnsafeIssue(s, Idle, Query(true, 0, 0, 0), v)
  {
    var q := Query(true, 0, 0, 0);
    assert MetadataAuthorized(s, q, v) && SourceLines(Idle) == [];
    assert !VariantHold(s, Idle, q, v);
    assert UnsafeReason(s, Idle, q) == Some(MissingSourceTruth);
  }

  lemma UnsafeQueued(alphabet: seq<Event>, v: Variant, depth: nat) returns (d: nat, s: State)
    requires Probing(alphabet) && depth > 0 && !v.forceGlobalHold && !v.checkQueuedSource
    ensures d <= 4 && At(alphabet, v, depth, d, s) && UnsafeIssue(s, Idle, Query(true, 0, 0, 0), v)
  {
    d, s := ProveThenRevoke(alphabet, v, depth);
    assert s.queue[0] == 0;
  }

  /** A target-side revocation that some flag of `v` fails to clear. */
  function UnclearedEvent(v: Variant): Event {
    if !v.clearTargetOnRemap then Remap(0, 0) else if !v.clearTargetOnTlbiToken then TlbiToken(0) else TlbiAll
  }

  lemma UnclearedTarget(v: Variant, depth: nat, s: State)
    requires !v.clearTargetOnRemap || !v.clearTargetOnTlbiToken || !v.clearTargetOnTlbiAll
    requires s == State([], false, {0}, {0}, {(0, 0)}, {(0, 0)})
    ensures UnsafeIssue(Transition(s, UnclearedEvent(v), v, depth), Idle, Query(true, 0, 0, 0), v)
  {
    var t := Transition(s, UnclearedEvent(v), v, depth);
    assert t.queue == [] && !t.overflow && (0, 0) in t.ctlwTarget && (0, 0) !in t.truthTarget;
  }

  lemma UnsafeTargetClear(alphabet: seq<Event>, v: Variant, depth: nat) returns (d: nat, s: State)
    requires Probing(alphabet)
    requires !v.clearTargetOnRemap || !v.clearTargetOnTlbiToken || !v.clearTargetOnTlbiAll
    ensures d <= 4 && At(alphabet, v, depth, d, s) && UnsafeIssue(s, Idle, Query(true, 0, 0, 0), v)
  {
    d, s := Prove(alphabet, v, depth);
    UnclearedTarget(v, depth, s);
    d, s := Advance(alphabet, v, depth, d, s, UnclearedEvent(v));
  }

  lemma UnsafeOverflow(alphabet: seq<Event>, v: Variant, depth: nat, burst: Event, line: nat)
      returns (d: nat, s: State)
    requires Probing(alphabet) && Floods(alphabet, depth, burst, line) && !v.forceGlobalHold && !v.checkOverflow
    ensures d <= 4 && At(alphabet, v, depth, d, s) && UnsafeIssue(s, Idle, Query(true, line, 0, 0), v)
  {
    var lines := SourceLines(burst)[..depth];
    d, s := Begin(alphabet, v, depth);
    BurstFloods(v, depth, burst);
    d, s := Advance(alphabet, v, depth, d, s, burst);
    CommitAfterFlood(v, depth, s, lines, line);
    d, s := Advance(alphabet, v, depth, d, s, CommitSource(line));
    d, s := Advance(alphabet, v, depth, d, s, RecordTarget(0, 0));
    FloodIgnored(v, depth, lines, line, s);
  }

  lemma BurstFloods(v: Variant, depth: nat, burst: Event)
    requires depth < |SourceLines(burst)|
    ensures Transition(INITIAL, burst, v, depth) == State(SourceLines(burst)[..depth], true, {}, {}, {}, {})
  {
    assert [] + SourceLines(burst)[..depth] == SourceLines(burst)[..depth];
  }

  lemma CommitAfterFlood(v: Variant, depth: nat, s: State, lines: seq<nat>, line: nat)
    requires s == State(lines, true, {}, {}, {}, {}) && |lines| <= depth
    ensures Transition(s, CommitSource(line), v, depth) == State(Pop(lines), true, {line}, {line}, {}, {})
  {
  }

  lemma FloodIgnored(v: Variant, depth: nat, lines: seq<nat>, line: nat, s: State)
    requires |lines| <= depth && !v.forceGlobalHold && !v.checkOverflow
    requires forall i :: 1 <= i < |lines| ==> lines[i] != line
    requires s == Transition(State(Pop(lines), true, {line}, {line}, {}, {}), RecordTarget(0, 0), v, depth)
    ensures UnsafeIssue(s, Idle, Query(true, line, 0, 0), v)
  {
    assert s.queue == Pop(Pop(lines)) && line !in s.queue;
    assert line in s.clpdSource && (0, 0) in s.ctlwTarget && s.overflow;
  }

  /** An event that some flag of `v` fails to hold against. */
  function UncheckedEvent(v: Variant): Event {
    if !v.checkIncomingSource then Dma(0) else if !v.checkRemapEvent then Remap(0, 0)
    else if !v.checkTlbiToken then TlbiToken(0) else TlbiAll
  }

  lemma UncheckedIsUnsafe(v: Variant, s: State)
    requires !v.forceGlobalHold
    requires !v.checkIncomingSource || !v.checkRemapEvent || !v.checkTlbiToken || !v.checkTlbiAll
    requires s == State([], false, {0}, {0}, {(0, 0)}, {(0, 0)})
    ensures UnsafeIssue(s, UncheckedEvent(v), Query(true, 0, 0, 0), v)
  {
    assert UncheckedEvent(v) == Dma(0) ==> SourceLines(UncheckedEvent(v))[0] == 0;
  }

  /** Every other variant is unsafe after at most four events. */
  lemma InsufficientIsUnsafe(alphabet: seq<Event>, v: Variant, depth: nat, burst: Event, line: nat)
      returns (s: State, e: Event, q: Query)
    requires Probing(alphabet) && Floods(alphabet, depth, burst, line) && !Sufficient(v, depth, true)
    ensures At(alphabet, v, depth, 4, s) && e in alphabet && UnsafeIssue(s, e, q, v)
    ensures q == Query(true, 0, 0, 0) || q == Query(true, line, 0, 0)
  {
    var d;
    e, q := Idle, Query(true, 0, 0, 0);
    if !v.requireSourceMetadata || !v.requireTargetMetadata {
      d, s := UnsafeMetadata(alphabet, v, depth);
    } else if !v.clearSourceOnDrain && depth > 0 {
      d, s := UnsafeSourceClear(alphabet, v, depth);
    } else if !v.clearTargetOnRemap || !v.clearTargetOnTlbiToken || !v.clearTargetOnTlbiAll {
      d, s := UnsafeTargetClear(alphabet, v, depth);
    } else if !v.checkQueuedSource && depth > 0 {
      d, s := UnsafeQueued(alphabet, v, depth);
    } else if !v.checkOverflow {
      d, s := UnsafeOverflow(alphabet, v, depth, burst, line);
      q := Query(true, line, 0, 0);
    } else {
      d, s := Prove(alphabet, v, depth);
      e := UncheckedEvent(v);
      UncheckedIsUnsafe(v, s);
    }
    WithinMonotone(Successors(alphabet, v, depth), INITIAL, d, 4);
  }

  // ----- every depth

  /** Bursts of two or more lines fill any queue until it overflows. */
  lemma {:induction false} FillUp(alphabet: seq<Event>, v: Variant, depth: nat, d0: nat, s0: State, burst: Event)
      returns (d: nat, s: State)
    requires At(alphabet, v, depth, d0, s0) && |s0.queue| <= depth && burst in alphabet
    requires |SourceLines(burst)| >= 2 || (depth == 0 && SourceLines(burst) != [])
    ensures At(alphabet, v, depth, d, s) && s.overflow
    decreases depth - |s0.queue|
  {
    d, s := Advance(alphabet, v, depth, d0, s0, burst);
    BurstGrows(s0, burst, v, depth);
    if !s.overflow {
      d, s := FillUp(alphabet, v, depth, d, s, burst);
    }
  }

  lemma BurstGrows(s: State, burst: Event, v: Variant, depth: nat)
    requires |s.queue| <= depth && (|SourceLines(burst)| >= 2 || (depth == 0 && SourceLines(burst) != []))
    ensures var t := Transition(s, burst, v, depth);
            t.overflow || |s.queue| < |t.queue| <= depth
  {
  }

  lemma {:induction false} DrainAll(alphabet: seq<Event>, v: Variant, depth: nat, d0: nat, s0: State)
      returns (d: nat, s: State)
    requires Idle in alphabet && At(alphabet, v, depth, d0, s0) && s0.overflow && |s0.queue| <= depth
    ensures At(alphabet, v, depth, d, s) && s.overflow && s.queue == []
    decreases |s0.queue|
  {
    d, s := d0, s0;
    if s.queue != [] {
      d, s := Advance(alphabet, v, depth, d, s, Idle);
      assert s.queue == s0.queue[1..];
      d, s := DrainAll(alphabet, v, depth, d, s);
    }
  }

  lemma QueueFits(s: State, e: Event, v: Variant, depth: nat)
    requires |s.queue| <= depth
    ensures |Transition(s, e, v, depth).queue| <= depth
  {
  }

  lemma ReachedFits(alphabet: seq<Event>, v: Variant, depth: nat, d: nat, s: State)
    requires At(alphabet, v, depth, d, s)
    ensures |s.queue| <= depth
  {
    var inv := (t: State) => |t.queue| <= depth;
    var succ := Successors(alphabet, v, depth);
    forall t, i | inv(t) && 0 <= i < |succ(t)| ensures inv(succ(t)[i].1) {
      QueueFits(t, alphabet[i], v, depth);
    }
    InvariantWithin(succ, INITIAL, inv, d);
    assert inv(s);
  }

  /** After an overflow, once the queue is empty, line 0 is proved and issued, unless overflow is checked. */
  lemma IssueAfterOverflow(alphabet: seq<Event>, v: Variant, depth: nat, d0: nat, s0: State)
      returns (d: nat, s: State)
    requires Probing(alphabet) && At(alphabet, v, depth, d0, s0) && s0.overflow && s0.queue == []
    requires !v.forceGlobalHold && !v.checkOverflow
    ensures At(alphabet, v, depth, d, s) && UnsafeIssue(s, Idle, Query(true, 0, 0, 0), v)
  {
    d, s := Advance(alphabet, v, depth, d0, s0, CommitSource(0));
    d, s := Advance(alphabet, v, depth, d, s, RecordTarget(0, 0));
    ProvedAfterOverflow(s0, v, depth);
  }

  lemma ProvedAfterOverflow(s: State, v: Variant, depth: nat)
    requires s.overflow && s.queue == [] && !v.forceGlobalHold && !v.checkOverflow
    ensures var t := Transition(Transition(s, CommitSource(0), v, depth), RecordTarget(0, 0), v, depth);
            UnsafeIssue(t, Idle, Query(true, 0, 0, 0), v)
  {
    var t := Transition(Transition(s, CommitSource(0), v, depth), RecordTarget(0, 0), v, depth);
    assert t.overflow && t.queue == [] && 0 in t.clpdSource && (0, 0) in t.ctlwTarget;
  }

  lemma OverflowIsUnsafe(alphabet: seq<Event>, v: Variant, depth: nat) returns (d: nat, s: State)
    requires Probing(alphabet) && Overflowable(alphabet, depth) && !v.forceGlobalHold && !v.checkOverflow
    ensures At(alphabet, v, depth, d, s) && UnsafeIssue(s, Idle, Query(true, 0, 0, 0), v)
  {
    var burst := Dma(0);
    if depth > 0 {
      burst :| burst in alphabet && |SourceLines(burst)| >= 2;
    }
    d, s := Begin(alphabet, v, depth);
    d, s := FillUp(alphabet, v, depth, d, s, burst);
    ReachedFits(alphabet, v, depth, d, s);
    d, s := DrainAll(alphabet, v, depth, d, s);
    d, s := IssueAfterOverflow(alphabet, v, depth, d, s);
  }

  /** Every variant outside the sufficient ones reaches an unsafe issue, at any queue depth. */
  lemma InsufficientFails(alphabet: seq<Event>, v: Variant, depth: nat) returns (d: nat, s: State, e: Event, q: Query)
    requires Probing(alphabet) && !Sufficient(v, depth, Overflowable(alphabet, depth))
    ensures At(alphabet, v, depth, d, s) && e in alphabet && UnsafeIssue(s, e, q, v)
  {
    e, q := Idle, Query(true, 0, 0, 0);
    if !v.requireSourceMetadata || !v.requireTargetMetadata {
      d, s := UnsafeMetadata(alphabet, v, depth);
    } else if !v.clearSourceOnDrain && depth > 0 {
      d, s := UnsafeSourceClear(alphabet, v, depth);
    } else if !v.clearTargetOnRemap || !v.clearTargetOnTlbiToken || !v.clearTargetOnTlbiAll {
      d, s := UnsafeTargetClear(alphabet, v, depth);
    } else if !v.checkQueuedSource && depth > 0 {
      d, s := UnsafeQueued(alphabet, v, depth);
    } else if !v.checkOverflow && Overflowable(alphabet, depth) {
      d, s := OverflowIsUnsafe(alphabet, v, depth);
    } else {
      d, s := Prove(alphabet, v, depth);
      e := UncheckedEvent(v);
      UncheckedIsUnsafe(v, s);
    }
  }

  /** At every queue depth, over every alphabet with one event of each kind: no run has an unsafe issue
      exactly for the sufficient variants. */
  lemma SafeIff(alphabet: seq<Event>, v: Variant, depth: nat)
    requires Probing(alphabet)
    ensures Sufficient(v, depth, Overflowable(alphabet, depth)) <==>
            forall s, e, q :: Reached(alphabet, v, depth, s) && e in alphabet ==> !UnsafeIssue(s, e, q, v)
  {
    if Sufficient(v, depth, Overflowable(alphabet, depth)) {
      forall s, e, q | Reached(alphabet, v, depth, s) && e in alphabet ensures !UnsafeIssue(s, e, q, v) {
        SufficientIsSafe(alphabet, v, depth, s, e, q);
      }
    } else {
      var d, s, e, q := InsufficientFails(alphabet, v, depth);
      assert Reached(alphabet, v, depth, s);
    }
  }

  /** The bounded check is conclusive: from depth 4 on (the program uses 7), a variant has an unsafe
      issue within the bound exactly when it has one in a run of any length. */
  lemma BoundedVerdict(alphabet: seq<Event>, v: Variant, depth: nat, burst: Event, line: nat, d: nat)
    requires Probing(alphabet) && Floods(alphabet, depth, burst, line) && line < 3 && 4 <= d
    ensures UnsafeWithin(alphabet, v, depth, d) <==> !Sufficient(v, depth, true)
  {
    if Sufficient(v, depth, true) {
      forall s, e, q | At(alphabet, v, depth, d, s) ensures !UnsafeIssue(s, e, q, v) {
        assert Reached(alphabet, v, depth, s);
        SufficientIsSafe(alphabet, v, depth, s, e, q);
      }
    } else {
      var s, e, q := InsufficientIsUnsafe(alphabet, v, depth, burst, line);
      WithinMonotone(Successors(alphabet, v, depth), INITIAL, 4, d);
      assert At(alphabet, v, depth, d, s);
    }
  }
}
