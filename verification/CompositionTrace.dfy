/** The composed machine read off its event history, event kind by event kind. */
module CompositionTrace {
  import opened RevocationQueue
  import opened Histories
  import opened Composition
  import opened CompositionPrecision

  /** The event revokes the source line. */
  predicate Revokes(e: Event, line: nat) {
    e == Dma(line) || e == Chi(line) || e == Io(line) || (e.Burst? && line in e.lines)
  }

  /** The event revokes the target under the token. */
  predicate RevokesTarget(e: Event, tgt: nat, token: nat) {
    e == Remap(tgt, token) || e == TlbiToken(token) || e == TlbiAll
  }

  function Commits(line: nat): Event -> bool {
    (e: Event) => e == CommitSource(line)
  }

  function Revoking(line: nat): Event -> bool {
    (e: Event) => Revokes(e, line)
  }

  function Records(tgt: nat, token: nat): Event -> bool {
    (e: Event) => e == RecordTarget(tgt, token)
  }

  function RevokingTarget(tgt: nat, token: nat): Event -> bool {
    (e: Event) => RevokesTarget(e, tgt, token)
  }

  /** The events on which the variant clears its target metadata. */
  function ClearingTarget(v: Variant, tgt: nat, token: nat): Event -> bool {
    (e: Event) =>
      || (v.clearTargetOnRemap && e == Remap(tgt, token))
      || (v.clearTargetOnTlbiToken && e == TlbiToken(token))
      || (v.clearTargetOnTlbiAll && e == TlbiAll)
  }

  lemma RevokedLines(e: Event, line: nat)
    ensures line in SourceLines(e) <==> Revokes(e, line)
  {
  }

  lemma RunNext(events: seq<Event>, e: Event, v: Variant, depth: nat)
    ensures RunEvents(events + [e], v, depth) == Transition(RunEvents(events, v, depth), e, v, depth)
  {
    assert (events + [e])[..|events|] == events;
  }

  /** A source line is truly authorised exactly when it was committed and no DMA, coherence or I/O write
      and no burst has hit it since. */
  lemma {:induction false} TruthSourceIff(events: seq<Event>, v: Variant, depth: nat, line: nat)
    ensures line in RunEvents(events, v, depth).truthSource <==> Raised(events, Commits(line), Revoking(line))
    decreases |events|
  {
    if events != [] {
      var before, e := events[..|events| - 1], events[|events| - 1];
      assert events == before + [e];
      TruthSourceIff(before, v, depth, line);
      RaisedNext(before, Commits(line), Revoking(line), e);
      RevokedLines(e, line);
      RunNext(before, e, v, depth);
    }
  }

  /** A target is truly authorised exactly when it was recorded and not remapped or invalidated since. */
  lemma {:induction false} TruthTargetIff(events: seq<Event>, v: Variant, depth: nat, tgt: nat, token: nat)
    ensures (token, tgt) in RunEvents(events, v, depth).truthTarget <==>
            Raised(events, Records(tgt, token), RevokingTarget(tgt, token))
    decreases |events|
  {
    if events != [] {
      var before, e := events[..|events| - 1], events[|events| - 1];
      assert events == before + [e];
      TruthTargetIff(before, v, depth, tgt, token);
      RaisedNext(before, Records(tgt, token), RevokingTarget(tgt, token), e);
      RunNext(before, e, v, depth);
    }
  }

  /** Target metadata, likewise, with the clears that the variant performs. */
  lemma {:induction false} MetadataTargetIff(events: seq<Event>, v: Variant, depth: nat, tgt: nat, token: nat)
    ensures (token, tgt) in RunEvents(events, v, depth).ctlwTarget <==>
            Raised(events, Records(tgt, token), ClearingTarget(v, tgt, token))
    decreases |events|
  {
    if events != [] {
      var before, e := events[..|events| - 1], events[|events| - 1];
      assert events == before + [e];
      MetadataTargetIff(before, v, depth, tgt, token);
      RaisedNext(before, Records(tgt, token), ClearingTarget(v, tgt, token), e);
      RunNext(before, e, v, depth);
    }
  }

  /** Cycle `j` drains the line's revocation from the head of the queue. */
  ghost predicate DrainsAt(events: seq<Event>, v: Variant, depth: nat, j: nat, line: nat)
    requires j <= |events|
  {
    var queue := RunEvents(events[..j], v, depth).queue;
    v.clearSourceOnDrain && queue != [] && queue[0] == line
  }

  ghost predicate CommittedAt(events: seq<Event>, v: Variant, depth: nat, line: nat, i: nat) {
    && i < |events| && events[i] == CommitSource(line)
    && forall j: nat :: i < j < |events| ==> !DrainsAt(events, v, depth, j, line)
  }

  ghost predicate Committed(events: seq<Event>, v: Variant, depth: nat, line: nat) {
    exists i: nat :: CommittedAt(events, v, depth, line, i)
  }

  lemma MetadataNext(s: State, e: Event, v: Variant, depth: nat, line: nat)
    ensures line in Transition(s, e, v, depth).clpdSource <==>
            e == CommitSource(line)
            || (line in s.clpdSource && !(v.clearSourceOnDrain && s.queue != [] && s.queue[0] == line))
  {
  }

  /** Source metadata holds a line exactly when it was committed and no revocation of it was drained since. */
  lemma {:induction false} MetadataSourceIff(events: seq<Event>, v: Variant, depth: nat, line: nat)
    ensures line in RunEvents(events, v, depth).clpdSource <==> Committed(events, v, depth, line)
    decreases |events|
  {
    if events != [] {
      var before, e := events[..|events| - 1], events[|events| - 1];
      assert events == before + [e];
      MetadataSourceIff(before, v, depth, line);
      CommittedNext(before, e, v, depth, line);
      MetadataNext(RunEvents(before, v, depth), e, v, depth, line);
      assert before[..|before|] == before;
      RunNext(before, e, v, depth);
    }
  }

  lemma CommittedNext(events: seq<Event>, e: Event, v: Variant, depth: nat, line: nat)
    ensures Committed(events + [e], v, depth, line) <==>
            e == CommitSource(line)
            || (Committed(events, v, depth, line) && !DrainsAt(events, v, depth, |events|, line))
  {
    var n, longer := |events|, events + [e];
    assert longer[n] == e;
    if e == CommitSource(line) {
      assert CommittedAt(longer, v, depth, line, n);
    }
    forall i: nat | i < n
      ensures CommittedAt(longer, v, depth, line, i) <==>
              CommittedAt(events, v, depth, line, i) && !DrainsAt(events, v, depth, n, line)
    {
      CommittedAtNext(events, e, v, depth, line, i);
    }
    if Committed(events, v, depth, line) && !DrainsAt(events, v, depth, n, line) {
      var i: nat :| CommittedAt(events, v, depth, line, i);
      assert CommittedAt(longer, v, depth, line, i);
    }
  }

  lemma CommittedAtNext(events: seq<Event>, e: Event, v: Variant, depth: nat, line: nat, i: nat)
    requires i < |events|
    ensures CommittedAt(events + [e], v, depth, line, i) <==>
            CommittedAt(events, v, depth, line, i) && !DrainsAt(events, v, depth, |events|, line)
  {
    var n, longer := |events|, events + [e];
    assert longer[i] == events[i];
    forall j: nat | j <= n ensures DrainsAt(longer, v, depth, j, line) == DrainsAt(events, v, depth, j, line) {
      assert longer[..j] == events[..j];
    }
  }

  /** The full gate, read off the history: it issues exactly the valid candidates whose line was committed
      and not drained since, whose target was recorded and not revoked since, that no event of this cycle
      revokes, whose line is not queued, while no revocation was ever lost. */
  lemma FullGateIff(events: seq<Event>, depth: nat, e: Event, q: Query)
    ensures IssueAllowed(RunEvents(events, FULL, depth), e, q, FULL) <==>
            && q.valid && Committed(events, FULL, depth, q.src)
            && Raised(events, Records(q.tgt, q.token), RevokingTarget(q.tgt, q.token))
            && !Revokes(e, q.src) && !RevokesTarget(e, q.tgt, q.token)
            && q.src !in Run(Stream(events), depth).queue && AllWindowsFit(Stream(events), depth)
  {
    MetadataSourceIff(events, FULL, depth, q.src);
    MetadataTargetIff(events, FULL, depth, q.tgt, q.token);
    SameClears(events, q.tgt, q.token);
    RevokedLines(e, q.src);
    QueueIsRun(events, FULL, depth);
    OverflowIffDenseWindow(events, FULL, depth);
  }

  lemma {:induction false} SameClears(events: seq<Event>, tgt: nat, token: nat)
    ensures Raised(events, Records(tgt, token), ClearingTarget(FULL, tgt, token)) <==>
            Raised(events, Records(tgt, token), RevokingTarget(tgt, token))
    decreases |events|
  {
    if events != [] {
      var before, e := events[..|events| - 1], events[|events| - 1];
      assert events == before + [e];
      SameClears(before, tgt, token);
      RaisedNext(before, Records(tgt, token), ClearingTarget(FULL, tgt, token), e);
      RaisedNext(before, Records(tgt, token), RevokingTarget(tgt, token), e);
    }
  }

  /** The full gate never issues in the cycle that revokes the candidate's own line or target. */
  lemma HeldInOwnCycle(s: State, e: Event, q: Query)
    requires Revokes(e, q.src) || RevokesTarget(e, q.tgt, q.token)
    ensures !IssueAllowed(s, e, q, FULL)
  {
    RevokedLines(e, q.src);
  }

  /** The global hold is on exactly when some candidate is in danger. */
  lemma GlobalHoldIff(s: State, e: Event, q: Query)
    ensures GlobalHold(s, e, q) <==> q.valid && exists other :: TruthHazard(s, e, other)
  {
    if GlobalHold(s, e, q) {
      var src := if s.queue != [] then s.queue[0] else if SourceLines(e) != [] then SourceLines(e)[0] else 0;
      var tgt, token := if e.Remap? then e.target else 0, if e.Remap? || e.TlbiToken? then e.token else 0;
      assert TruthHazard(s, e, Query(true, src, tgt, token));
    }
  }

  /** A candidate is in danger exactly when revocations were lost, its line is queued, or this cycle revokes it. */
  lemma HazardIff(s: State, e: Event, q: Query)
    ensures TruthHazard(s, e, q) <==>
            q.valid && (s.overflow || q.src in s.queue || Revokes(e, q.src) || RevokesTarget(e, q.tgt, q.token))
  {
    RevokedLines(e, q.src);
  }

  predicate Present(r: Reason, s: State, e: Event, q: Query) {
    match r
    case OverflowFallback => s.overflow
    case QueuedSource => q.src in s.queue
    case IncomingSource => Revokes(e, q.src)
    case TargetRemap => e == Remap(q.tgt, q.token)
    case TokenTlbi => e == TlbiToken(q.token)
    case GlobalTlbi => e == TlbiAll
    case MissingSourceTruth => q.src !in s.truthSource
    case MissingTargetTruth => (q.token, q.tgt) !in s.truthTarget
  }

  /** A reason is reported exactly when one is present for a valid candidate, and it is one of those. */
  lemma ReasonIsPresent(s: State, e: Event, q: Query)
    ensures UnsafeReason(s, e, q).Some? <==> q.valid && exists r :: Present(r, s, e, q)
    ensures UnsafeReason(s, e, q).Some? ==> Present(UnsafeReason(s, e, q).value, s, e, q)
  {
    RevokedLines(e, q.src);
    if UnsafeReason(s, e, q).Some? {
      assert Present(UnsafeReason(s, e, q).value, s, e, q);
    }
  }
}
