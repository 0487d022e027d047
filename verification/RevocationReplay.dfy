/** The cycles that the evaluation's replay loop can produce, from its passes, trace and lookahead, and
    exactly which workloads let it issue a candidate whose line is revoked in the same cycle. */
module RevocationReplay {

  import opened Sequences
  import opened RevocationEval
  import RQ = RevocationQueue

  /** The replayed edges, the target line of every edge, the slots that are mutated in the second pass,
      and how far ahead the prefetched edge lies. */
  datatype Workload = Workload(trace: seq<nat>, target: nat -> nat, mutateSlots: set<nat>, lookahead: nat)

  /** The cycle at position `pos` of a pass.  The draws bring at most one source event, one remap and
      one token invalidation, but are otherwise arbitrary. */
  ghost predicate Follows(w: Workload, c: Cycle, pass: nat, pos: nat)
    requires pos < |w.trace|
  {
    && c.edge == w.trace[pos] && c.target == w.target(c.edge)
    && (c.Candidate? <==> pos + w.lookahead < |w.trace|)
    && (c.Candidate? ==>
          && c.pfEdge == w.trace[pos + w.lookahead] && c.pfTarget == w.target(c.pfEdge)
          && (c.mutated <==> pass == 1 && c.edge in w.mutateSlots)
          && |c.drawn| <= 1 && |c.remaps| <= 1 && |c.tlbiTokens| <= 1)
  }

  function PassOf(i: nat, n: nat): nat
    requires n > 0
  {
    if i < n then 0 else 1 + PassOf(i - n, n)
  }

  function PosOf(i: nat, n: nat): (pos: nat)
    requires n > 0
    ensures pos < n
  {
    if i < n then i else PosOf(i - n, n)
  }

  ghost predicate FollowsAt(w: Workload, log: seq<Cycle>, i: nat) {
    i < |log| && |w.trace| > 0 && Follows(w, log[i], PassOf(i, |w.trace|), PosOf(i, |w.trace|))
  }

  /** `log` is a run of `passes` passes over the trace. */
  ghost predicate Replays(w: Workload, passes: nat, log: seq<Cycle>) {
    |log| == passes * |w.trace| && forall i: nat {:trigger FollowsAt(w, log, i)} :: i < |log| ==> FollowsAt(w, log, i)
  }

  /** Cycle `i` issues a candidate under scoped hold although the cycle revokes the candidate's line. */
  ghost predicate SlipsAt(log: seq<Cycle>, depth: nat, token: nat, i: nat) {
    && i < |log| && ScopedIssues(After(log[..i], depth, token), log[i], token)
    && Line(log[i].pfEdge) in SourceEvents(log[i])
  }

  ghost predicate RunSlips(w: Workload, passes: nat, depth: nat, token: nat) {
    exists log, i :: Replays(w, passes, log) && SlipsAt(log, depth, token, i)
  }

  /** The slot at `p` is mutated, lies in the line that its own cycle prefetches from, and is the first
      mutated slot of that line; a queue without slots must not have overflowed before. */
  ghost predicate Exposed(w: Workload, depth: nat, p: nat) {
    && p + w.lookahead < |w.trace|
    && w.trace[p] in w.mutateSlots && Line(w.trace[p]) == Line(w.trace[p + w.lookahead])
    && forall q :: 0 <= q < p && w.trace[q] in w.mutateSlots ==>
         depth > 0 && Line(w.trace[q]) != Line(w.trace[p])
  }

  lemma FirstPasses(i: nat, n: nat)
    requires n > 0
    ensures i < n ==> PassOf(i, n) == 0 && PosOf(i, n) == i
    ensures n <= i < n + n ==> PassOf(i, n) == 1 && PosOf(i, n) == i - n
    ensures n + n <= i ==> PassOf(i, n) >= 2
  {
  }

  lemma TwoPasses(passes: nat, n: nat)
    ensures passes <= 1 ==> passes * n <= n
    ensures passes >= 2 ==> passes * n >= n + n
  {
    if passes >= 2 {
      assert passes * n == (passes - 2) * n + 2 * n;
    }
  }

  // ----- a slip needs an exposed position

  /** An edge of the second pass's lookahead was recorded in the first pass only. */
  lemma RecordedOnce(w: Workload, passes: nat, log: seq<Cycle>, p: nat, r: nat)
    requires Replays(w, passes, log) && Distinct(w.trace) && |w.trace| + p < |log|
    requires p + w.lookahead < |w.trace| && r < |w.trace| + p && log[r].edge == w.trace[p + w.lookahead]
    ensures r == p + w.lookahead
  {
    var n := |w.trace|;
    FirstPasses(r, n);
    assert FollowsAt(w, log, r);
  }

  lemma EarlierMutation(w: Workload, passes: nat, log: seq<Cycle>, p: nat, q: nat)
    requires Replays(w, passes, log) && q < p && |w.trace| + p < |log| && p + w.lookahead < |w.trace|
    requires w.trace[q] in w.mutateSlots
    ensures Line(w.trace[q]) in SourceEvents(log[|w.trace| + q])
  {
    var n := |w.trace|;
    FirstPasses(n + q, n);
    assert FollowsAt(w, log, n + q);
  }

  /** A line revoked in the second pass, before the edge comes round again, leaves no fresh proof. */
  lemma RevokedIsNotFresh(w: Workload, passes: nat, log: seq<Cycle>, p: nat, q: nat)
    requires Replays(w, passes, log) && Distinct(w.trace) && q < p && |w.trace| + p < |log|
    requires p + w.lookahead < |w.trace| && w.trace[q] in w.mutateSlots
    requires Line(w.trace[q]) == Line(w.trace[p + w.lookahead])
    ensures !ProofFresh(log[..|w.trace| + p], w.trace[p + w.lookahead])
  {
    var edge, k := w.trace[p + w.lookahead], |w.trace| + q;
    var before := log[..|w.trace| + p];
    EarlierMutation(w, passes, log, p, q);
    assert before[k] == log[k] && Line(edge) in SourceEvents(before[k]);
    forall r | 0 <= r < |before| && before[r].edge == edge ensures !SourceQuietSince(before, r, Line(edge)) {
      assert log[r].edge == edge;
      RecordedOnce(w, passes, log, p, r);
      assert r < k;
    }
  }

  lemma NoSlotOverflows(log: seq<Cycle>, token: nat, k: nat, depth: nat)
    requires k < |log| && log[k].Candidate? && SourceEvents(log[k]) != [] && depth == 0
    ensures After(log, depth, token).overflow
  {
    assert log[..k + 1][..k] == log[..k];
    assert After(log[..k + 1], depth, token).overflow;
    OverflowStays(log, k + 1, depth, token);
  }

  /** A cycle that revokes the line it prefetches from, other than by a draw, is one of the second pass. */
  lemma MutationPosition(w: Workload, log: seq<Cycle>, i: nat) returns (p: nat)
    requires FollowsAt(w, log, i) && log[i].Candidate?
    requires Line(log[i].pfEdge) in SourceEvents(log[i]) && Line(log[i].pfEdge) !in log[i].drawn
    ensures i == |w.trace| + p && p + w.lookahead < |w.trace| && log[i].pfEdge == w.trace[p + w.lookahead]
    ensures w.trace[p] in w.mutateSlots && Line(w.trace[p]) == Line(w.trace[p + w.lookahead])
  {
    FirstPasses(i, |w.trace|);
    assert log[i].mutated;
    p := i - |w.trace|;
  }

  lemma EarlierSlot(
      w: Workload, passes: nat, depth: nat, token: nat, log: seq<Cycle>, before: seq<Cycle>, p: nat, q: nat)
    requires Distinct(w.trace) && Replays(w, passes, log) && |w.trace| + p < |log|
    requires before == log[..|w.trace| + p] && p + w.lookahead < |w.trace|
    requires q < p && w.trace[q] in w.mutateSlots
    requires ProofFresh(before, w.trace[p + w.lookahead]) && !After(before, depth, token).overflow
    ensures depth > 0 && Line(w.trace[q]) != Line(w.trace[p + w.lookahead])
  {
    var k := |w.trace| + q;
    EarlierMutation(w, passes, log, p, q);
    assert before[k] == log[k];
    if depth == 0 {
      NoSlotOverflows(before, token, k, depth);
    }
    if Line(w.trace[q]) == Line(w.trace[p + w.lookahead]) {
      RevokedIsNotFresh(w, passes, log, p, q);
    }
  }

  lemma SlipIsExposed(w: Workload, passes: nat, depth: nat, token: nat, log: seq<Cycle>, i: nat) returns (p: nat)
    requires Distinct(w.trace) && Replays(w, passes, log) && SlipsAt(log, depth, token, i)
    ensures passes >= 2 && Exposed(w, depth, p)
  {
    assert FollowsAt(w, log, i);
    IssuesAreFresh(log[..i], depth, token, log[i]);
    p := MutationPosition(w, log, i);
    TwoPasses(passes, |w.trace|);
    forall q | 0 <= q < p && w.trace[q] in w.mutateSlots
      ensures depth > 0 && Line(w.trace[q]) != Line(w.trace[p])
    {
      EarlierSlot(w, passes, depth, token, log, log[..i], p, q);
    }
  }

  // ----- an exposed position slips, when nothing is drawn

  /** The cycle of a run without drawn events. */
  function QuietCycle(w: Workload, i: nat): Cycle
    requires |w.trace| > 0
  {
    var pos := PosOf(i, |w.trace|);
    var edge := w.trace[pos];
    if pos + w.lookahead < |w.trace| then
      var ahead := w.trace[pos + w.lookahead];
      Candidate(edge, w.target(edge), ahead, w.target(ahead), [],
                PassOf(i, |w.trace|) == 1 && edge in w.mutateSlots, [], [], false)
    else Tail(edge, w.target(edge))
  }

  ghost function QuietRun(w: Workload, length: nat): (log: seq<Cycle>)
    requires |w.trace| > 0
    ensures |log| == length && forall i :: 0 <= i < length ==> log[i] == QuietCycle(w, i)
  {
    seq(length, i requires 0 <= i < length => QuietCycle(w, i))
  }

  lemma QuietRunReplays(w: Workload, passes: nat)
    requires |w.trace| > 0 && passes * |w.trace| >= 0
    ensures Replays(w, passes, QuietRun(w, passes * |w.trace|))
  {
  }

  ghost predicate Undrawn(log: seq<Cycle>) {
    forall i :: 0 <= i < |log| && log[i].Candidate? ==>
      log[i].drawn == [] && log[i].remaps == [] && log[i].tlbiTokens == [] && !log[i].tlbiAll
  }

  ghost predicate LineUntouched(log: seq<Cycle>, line: nat) {
    forall i :: 0 <= i < |log| ==> line !in SourceEvents(log[i])
  }

  /** A line that no cycle revokes is never queued, and keeps the proof of every recorded edge. */
  lemma {:induction false} UntouchedKeepsProof(log: seq<Cycle>, depth: nat, token: nat, edge: nat)
    requires LineUntouched(log, Line(edge))
    ensures Line(edge) !in After(log, depth, token).queue
    ensures (exists i :: 0 <= i < |log| && log[i].edge == edge) ==> HasProof(After(log, depth, token).masks, edge)
    decreases |log|
  {
    if log != [] {
      var before, c := log[..|log| - 1], log[|log| - 1];
      assert forall i :: 0 <= i < |before| ==> before[i] == log[i];
      UntouchedKeepsProof(before, depth, token, edge);
      var w := After(before, depth, token);
      RememberAddsOneProof(if c.Tail? then w.masks else PopLine(w), c.edge, edge);
      assert Line(edge) !in SourceEvents(c);
      PushBrings(RQ.Pop(w.queue), SourceEvents(c), depth, Line(edge));
    }
  }

  lemma PushBrings(queue: seq<nat>, lines: seq<nat>, depth: nat, line: nat)
    requires line !in queue && line !in lines
    ensures line !in RQ.Push(queue, lines, depth)
  {
  }

  /** At most one event a cycle never overflows a queue with a slot; no event at all never overflows any. */
  lemma {:induction false} SingleEventsFit(log: seq<Cycle>, depth: nat, token: nat)
    requires forall i :: 0 <= i < |log| ==> |SourceEvents(log[i])| <= if depth > 0 then 1 else 0
    ensures !After(log, depth, token).overflow && |After(log, depth, token).queue| <= 1
    decreases |log|
  {
    if log != [] {
      var before := log[..|log| - 1];
      assert forall i :: 0 <= i < |before| ==> before[i] == log[i];
      SingleEventsFit(before, depth, token);
    }
  }

  lemma UndrawnWitness(log: seq<Cycle>, depth: nat, token: nat, i: nat)
    requires Undrawn(log) && i < |log|
    ensures (log[i].target, token) in After(log, depth, token).witnesses
  {
    assert TargetQuietSince(log, i, log[i].target, token);
    WitnessesExact(log, depth, token, log[i].target, token);
  }

  /** What the quiet run has brought before an exposed position of the second pass. */
  lemma QuietBefore(w: Workload, depth: nat, p: nat, log: seq<Cycle>, i: nat)
    requires Exposed(w, depth, p) && log == QuietRun(w, |w.trace| + p) && i < |log|
    ensures Line(w.trace[p]) !in SourceEvents(log[i])
    ensures |SourceEvents(log[i])| <= if depth > 0 then 1 else 0
  {
    FirstPasses(i, |w.trace|);
  }

  lemma QuietPrefix(w: Workload, depth: nat, p: nat, log: seq<Cycle>)
    requires Exposed(w, depth, p) && log == QuietRun(w, |w.trace| + p)
    ensures Undrawn(log) && LineUntouched(log, Line(w.trace[p + w.lookahead]))
    ensures forall i :: 0 <= i < |log| ==> |SourceEvents(log[i])| <= if depth > 0 then 1 else 0
    ensures log[p + w.lookahead].edge == w.trace[p + w.lookahead]
    ensures log[p + w.lookahead].target == w.target(w.trace[p + w.lookahead])
  {
    forall i | 0 <= i < |log|
      ensures Line(w.trace[p]) !in SourceEvents(log[i]) && |SourceEvents(log[i])| <= if depth > 0 then 1 else 0
    {
      QuietBefore(w, depth, p, log, i);
    }
    FirstPasses(p + w.lookahead, |w.trace|);
  }

  lemma QuietSlip(w: Workload, depth: nat, p: nat, c: Cycle)
    requires Exposed(w, depth, p) && c == QuietCycle(w, |w.trace| + p)
    ensures c.Candidate? && c.pfEdge == w.trace[p + w.lookahead] && c.pfTarget == w.target(c.pfEdge)
    ensures c.drawn == [] && !TargetEventPossible(c) && Line(c.pfEdge) in SourceEvents(c)
  {
    FirstPasses(|w.trace| + p, |w.trace|);
    assert SourceEvents(c) == [Line(w.trace[p])];
  }

  predicate TargetEventPossible(c: Cycle) {
    c.Candidate? && (c.remaps != [] || c.tlbiTokens != [] || c.tlbiAll)
  }

  /** Without draws, an edge recorded before and a line never revoked suffice for an issue. */
  lemma QuietIssues(log: seq<Cycle>, depth: nat, token: nat, c: Cycle, i: nat)
    requires c.Candidate? && c.drawn == [] && !TargetEventPossible(c)
    requires Undrawn(log) && LineUntouched(log, Line(c.pfEdge))
    requires forall k :: 0 <= k < |log| ==> |SourceEvents(log[k])| <= if depth > 0 then 1 else 0
    requires i < |log| && log[i].edge == c.pfEdge && log[i].target == c.pfTarget
    ensures ScopedIssues(After(log, depth, token), c, token)
  {
    UntouchedKeepsProof(log, depth, token, c.pfEdge);
    SingleEventsFit(log, depth, token);
    UndrawnWitness(log, depth, token, i);
  }

  lemma ExposedSlips(w: Workload, passes: nat, depth: nat, token: nat, p: nat)
    requires passes >= 2 && Exposed(w, depth, p)
    ensures RunSlips(w, passes, depth, token)
  {
    var n := |w.trace|;
    TwoPasses(passes, n);
    QuietRunReplays(w, passes);
    var log := QuietRun(w, passes * n);
    assert log[..n + p] == QuietRun(w, n + p);
    QuietPrefix(w, depth, p, log[..n + p]);
    QuietSlip(w, depth, p, log[n + p]);
    QuietIssues(log[..n + p], depth, token, log[n + p], p + w.lookahead);
    assert SlipsAt(log, depth, token, n + p);
  }

  /** Some run issues a candidate whose line its own cycle revokes, exactly when there is a second pass
      and an exposed position. */
  lemma SlipsIff(w: Workload, passes: nat, depth: nat, token: nat)
    requires Distinct(w.trace)
    ensures RunSlips(w, passes, depth, token) <==> passes >= 2 && exists p :: Exposed(w, depth, p)
  {
    if RunSlips(w, passes, depth, token) {
      var log, i :| Replays(w, passes, log) && SlipsAt(log, depth, token, i);
      var p := SlipIsExposed(w, passes, depth, token, log, i);
    }
    if passes >= 2 && exists p :: Exposed(w, depth, p) {
      var p :| Exposed(w, depth, p);
      ExposedSlips(w, passes, depth, token, p);
    }
  }

  /** Edges in storage order that look a whole line ahead never show it: the edge-scan kernel is safe. */
  lemma EdgeScanNeverSlips(w: Workload, passes: nat, depth: nat, token: nat)
    requires forall i :: 0 <= i < |w.trace| ==> w.trace[i] == i
    requires w.lookahead >= SLOTS_PER_LINE
    ensures !RunSlips(w, passes, depth, token)
  {
    SlipsIff(w, passes, depth, token);
    forall p: nat ensures !Exposed(w, depth, p) {
      if p + w.lookahead < |w.trace| {
        assert Line(p + w.lookahead) > Line(p);
      }
    }
  }
}
