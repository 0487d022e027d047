/** The GAPBS revocation evaluation: three hold policies run in lock step over one trace of edges.
    What the trace, the random draws and the mutated slots bring in a cycle is one `Cycle` value. */
module RevocationEval {

  import opened Options
  import RQ = RevocationQueue

  const SLOTS_PER_LINE: nat := 16

  function Line(edge: nat): nat {
    edge / SLOTS_PER_LINE
  }

  function Bit(edge: nat): nat {
    edge % SLOTS_PER_LINE
  }

  /** Every cycle records `edge` and its target; all but the last few of a pass also try to prefetch
      a later edge, while revocations arrive. */
  datatype Cycle =
    | Tail(edge: nat, target: nat)
    | Candidate(
        edge: nat, target: nat, pfEdge: nat, pfTarget: nat, drawn: seq<nat>, mutated: bool,
        remaps: seq<(nat, nat)>, tlbiTokens: seq<nat>, tlbiAll: bool)

  /** All source lines revoked in a cycle: the drawn ones and the line of a mutated slot. */
  function SourceEvents(c: Cycle): seq<nat> {
    if c.Tail? then [] else c.drawn + if c.mutated then [Line(c.edge)] else []
  }

  /** The cycle revokes the witness of target line `t` under `token`. */
  predicate TargetEvent(c: Cycle, t: nat, token: nat) {
    c.Candidate? && ((t, token) in c.remaps || token in c.tlbiTokens || c.tlbiAll)
  }

  // ----- the authority state

  datatype World = World(masks: map<nat, set<nat>>, witnesses: set<(nat, nat)>, queue: seq<nat>, overflow: bool)

  const START: World := World(map[], {}, [], false)

  predicate HasProof(masks: map<nat, set<nat>>, edge: nat) {
    Line(edge) in masks && Bit(edge) in masks[Line(edge)]
  }

  function Remember(masks: map<nat, set<nat>>, edge: nat): map<nat, set<nat>> {
    masks[Line(edge) := (if Line(edge) in masks then masks[Line(edge)] else {}) + {Bit(edge)}]
  }

  /** Exactly one bit of one mask is added: the edge's own. */
  lemma RememberAddsOneProof(masks: map<nat, set<nat>>, edge: nat, other: nat)
    ensures HasProof(Remember(masks, edge), other) <==> other == edge || HasProof(masks, other)
  {
    if Line(other) == Line(edge) && Bit(other) == Bit(edge) {
      assert other == SLOTS_PER_LINE * Line(other) + Bit(other) == edge;
    }
  }

  function PopLine(w: World): map<nat, set<nat>> {
    if w.queue == [] then w.masks else w.masks - {w.queue[0]}
  }

  function Surviving(c: Cycle, witnesses: set<(nat, nat)>): set<(nat, nat)> {
    set p | p in witnesses && !TargetEvent(c, p.0, p.1)
  }

  /** The state after a cycle. */
  function Next(w: World, c: Cycle, depth: nat, token: nat): World {
    if c.Tail? then
      w.(masks := Remember(w.masks, c.edge), witnesses := w.witnesses + {(c.target, token)})
    else
      World(Remember(PopLine(w), c.edge), Surviving(c, w.witnesses) + {(c.target, token)},
            RQ.Push(RQ.Pop(w.queue), SourceEvents(c), depth),
            w.overflow || RQ.Overflows(RQ.Pop(w.queue), SourceEvents(c), depth))
  }

  function After(log: seq<Cycle>, depth: nat, token: nat): World {
    if log == [] then START else Next(After(log[..|log| - 1], depth, token), log[|log| - 1], depth, token)
  }

  predicate Authorized(w: World, c: Cycle, token: nat)
    requires c.Candidate?
  {
    HasProof(w.masks, c.pfEdge) && (c.pfTarget, token) in w.witnesses
  }

  /** The hold of the scoped policy, which is also the evaluator's hazard. */
  predicate ScopedHold(w: World, c: Cycle, token: nat)
    requires c.Candidate?
  {
    w.overflow || Line(c.pfEdge) in w.queue || Line(c.pfEdge) in c.drawn || TargetEvent(c, c.pfTarget, token)
  }

  predicate GlobalHold(w: World, c: Cycle)
    requires c.Candidate?
  {
    w.overflow || w.queue != [] || SourceEvents(c) != [] || c.remaps != [] || c.tlbiTokens != [] || c.tlbiAll
  }

  predicate ScopedIssues(w: World, c: Cycle, token: nat) {
    c.Candidate? && Authorized(w, c, token) && !ScopedHold(w, c, token)
  }

  // ----- what the history says about a proof and a witness

  /** The edge was recorded in some cycle after whose recording its line was never revoked. */
  ghost predicate ProofFresh(log: seq<Cycle>, edge: nat) {
    exists i :: 0 <= i < |log| && log[i].edge == edge && SourceQuietSince(log, i, Line(edge))
  }

  ghost predicate SourceQuietSince(log: seq<Cycle>, i: nat, line: nat) {
    forall j :: i < j < |log| ==> line !in SourceEvents(log[j])
  }

  /** The target was recorded in some cycle after whose recording its witness was never revoked. */
  ghost predicate WitnessFresh(log: seq<Cycle>, t: nat, token: nat) {
    exists i :: 0 <= i < |log| && log[i].target == t && TargetQuietSince(log, i, t, token)
  }

  ghost predicate TargetQuietSince(log: seq<Cycle>, i: nat, t: nat, token: nat) {
    forall j :: i < j < |log| ==> !TargetEvent(log[j], t, token)
  }

  lemma ProofFreshNext(log: seq<Cycle>, c: Cycle, edge: nat)
    ensures ProofFresh(log + [c], edge) <==>
            c.edge == edge || (ProofFresh(log, edge) && Line(edge) !in SourceEvents(c))
  {
    var log' := log + [c];
    assert log'[|log|] == c && forall i :: 0 <= i < |log| ==> log'[i] == log[i];
    if c.edge == edge {
      assert SourceQuietSince(log', |log|, Line(edge));
    }
    if ProofFresh(log, edge) && Line(edge) !in SourceEvents(c) {
      var i :| 0 <= i < |log| && log[i].edge == edge && SourceQuietSince(log, i, Line(edge));
      assert SourceQuietSince(log', i, Line(edge));
    }
    if ProofFresh(log', edge) && c.edge != edge {
      var i :| 0 <= i < |log'| && log'[i].edge == edge && SourceQuietSince(log', i, Line(edge));
      assert i < |log| && SourceQuietSince(log, i, Line(edge));
      assert Line(edge) !in SourceEvents(log'[|log|]);
    }
  }

  lemma WitnessFreshNext(log: seq<Cycle>, c: Cycle, t: nat, token: nat)
    ensures WitnessFresh(log + [c], t, token) <==>
            c.target == t || (WitnessFresh(log, t, token) && !TargetEvent(c, t, token))
  {
    var log' := log + [c];
    assert log'[|log|] == c && forall i :: 0 <= i < |log| ==> log'[i] == log[i];
    if c.target == t {
      assert TargetQuietSince(log', |log|, t, token);
    }
    if WitnessFresh(log, t, token) && !TargetEvent(c, t, token) {
      var i :| 0 <= i < |log| && log[i].target == t && TargetQuietSince(log, i, t, token);
      assert TargetQuietSince(log', i, t, token);
    }
    if WitnessFresh(log', t, token) && c.target != t {
      var i :| 0 <= i < |log'| && log'[i].target == t && TargetQuietSince(log', i, t, token);
      assert i < |log| && TargetQuietSince(log, i, t, token);
      assert !TargetEvent(log'[|log|], t, token);
    }
  }

  /** The witnesses are exactly the fresh ones. */
  lemma {:induction false} WitnessesExact(log: seq<Cycle>, depth: nat, token: nat, t: nat, k: nat)
    ensures (t, k) in After(log, depth, token).witnesses <==> k == token && WitnessFresh(log, t, token)
    decreases |log|
  {
    if log != [] {
      var before, c := log[..|log| - 1], log[|log| - 1];
      WitnessesExact(before, depth, token, t, k);
      WitnessFreshNext(before, c, t, token);
      assert log == before + [c];
    }
  }

  lemma ProofNext(w: World, c: Cycle, depth: nat, token: nat, edge: nat)
    requires HasProof(Next(w, c, depth, token).masks, edge) && edge != c.edge
    ensures HasProof(w.masks, edge)
    ensures c.Candidate? && Line(edge) in w.queue ==> Line(edge) in RQ.Pop(w.queue)
  {
    if Line(edge) == Line(c.edge) {
      assert Bit(edge) != Bit(c.edge);
    }
  }

  /** Cycle `j` takes a revocation of the line off the queue. */
  ghost predicate Drains(log: seq<Cycle>, depth: nat, token: nat, j: nat, line: nat)
    requires j < |log|
  {
    var queue := After(log[..j], depth, token).queue;
    log[j].Candidate? && queue != [] && queue[0] == line
  }

  ghost predicate KeptSince(log: seq<Cycle>, depth: nat, token: nat, i: nat, edge: nat) {
    && i < |log| && log[i].edge == edge
    && forall j: nat :: i < j < |log| ==> !Drains(log, depth, token, j, Line(edge))
  }

  lemma KeptNext(log: seq<Cycle>, depth: nat, token: nat, c: Cycle, i: nat, edge: nat)
    requires i < |log|
    ensures KeptSince(log + [c], depth, token, i, edge) <==>
            KeptSince(log, depth, token, i, edge) && !Drains(log + [c], depth, token, |log|, Line(edge))
  {
    var longer := log + [c];
    forall j: nat | j < |log|
      ensures Drains(longer, depth, token, j, Line(edge)) <==> Drains(log, depth, token, j, Line(edge)) {
      assert longer[..j] == log[..j];
    }
    assert longer[i] == log[i];
  }

  ghost predicate Kept(log: seq<Cycle>, depth: nat, token: nat, edge: nat) {
    exists i: nat :: KeptSince(log, depth, token, i, edge)
  }

  lemma KeptIff(log: seq<Cycle>, depth: nat, token: nat, c: Cycle, edge: nat)
    ensures Kept(log + [c], depth, token, edge) <==>
            c.edge == edge
            || (Kept(log, depth, token, edge) && !Drains(log + [c], depth, token, |log|, Line(edge)))
  {
    var longer := log + [c];
    if c.edge == edge {
      assert KeptSince(longer, depth, token, |log|, edge);
    }
    if Kept(log, depth, token, edge) {
      var i: nat :| KeptSince(log, depth, token, i, edge);
      KeptNext(log, depth, token, c, i, edge);
    }
    if Kept(longer, depth, token, edge) && c.edge != edge {
      var i: nat :| KeptSince(longer, depth, token, i, edge);
      assert longer[|log|] == c;
      KeptNext(log, depth, token, c, i, edge);
    }
  }

  lemma ProofStep(w: World, c: Cycle, depth: nat, token: nat, edge: nat)
    ensures HasProof(Next(w, c, depth, token).masks, edge) <==>
            c.edge == edge
            || (HasProof(w.masks, edge) && !(c.Candidate? && w.queue != [] && w.queue[0] == Line(edge)))
  {
    RememberAddsOneProof(if c.Tail? then w.masks else PopLine(w), c.edge, edge);
  }

  /** The proof bits are exactly those recorded in a cycle after which no revocation of their line was taken
      off the queue. */
  lemma {:induction false} ProofsExact(log: seq<Cycle>, depth: nat, token: nat, edge: nat)
    ensures HasProof(After(log, depth, token).masks, edge) <==> Kept(log, depth, token, edge)
    decreases |log|
  {
    if log != [] {
      var before, c := log[..|log| - 1], log[|log| - 1];
      assert log == before + [c];
      ProofsExact(before, depth, token, edge);
      ProofStep(After(before, depth, token), c, depth, token, edge);
      KeptIff(before, depth, token, c, edge);
      assert log[..|before|] == before;
    }
  }

  lemma PushKeeps(queue: seq<nat>, lines: seq<nat>, depth: nat, line: nat)
    requires line in queue || line in lines
    ensures line in RQ.Push(queue, lines, depth) || RQ.Overflows(queue, lines, depth)
  {
  }

  /** A proof bit older than a revocation of its line: the revocation is still queued, or was lost. */
  lemma {:induction false} StaleIsPending(log: seq<Cycle>, depth: nat, token: nat, edge: nat)
    requires HasProof(After(log, depth, token).masks, edge)
    ensures var w := After(log, depth, token);
            ProofFresh(log, edge) || Line(edge) in w.queue || w.overflow
    decreases |log|
  {
    if log != [] {
      var before, c := log[..|log| - 1], log[|log| - 1];
      assert log == before + [c];
      ProofFreshNext(before, c, edge);
      if c.edge != edge {
        var w := After(before, depth, token);
        ProofNext(w, c, depth, token, edge);
        StaleIsPending(before, depth, token, edge);
        if c.Candidate? && (Line(edge) in RQ.Pop(w.queue) || Line(edge) in SourceEvents(c)) {
          PushKeeps(RQ.Pop(w.queue), SourceEvents(c), depth, Line(edge));
        }
      }
    }
  }

  /** Whatever the run so far, a candidate issued under scoped hold has a proof and a witness that no
      earlier cycle revoked, and that no draw of its own cycle revokes. */
  lemma IssuesAreFresh(log: seq<Cycle>, depth: nat, token: nat, c: Cycle)
    requires ScopedIssues(After(log, depth, token), c, token)
    ensures ProofFresh(log, c.pfEdge) && WitnessFresh(log, c.pfTarget, token)
    ensures Line(c.pfEdge) !in c.drawn && !TargetEvent(c, c.pfTarget, token)
  {
    StaleIsPending(log, depth, token, c.pfEdge);
    WitnessesExact(log, depth, token, c.pfTarget, token);
  }

  // ----- the queue of the evaluation is the queue of the protocol

  /** The source events of the candidate cycles, cycle by cycle. */
  function Stream(log: seq<Cycle>): seq<seq<nat>> {
    if log == [] then []
    else
      var before := Stream(log[..|log| - 1]);
      if log[|log| - 1].Tail? then before else before + [SourceEvents(log[|log| - 1])]
  }

  lemma {:induction false} QueueIsRun(log: seq<Cycle>, depth: nat, token: nat)
    ensures var w := After(log, depth, token);
            RQ.Contents(w.queue, w.overflow) == RQ.Run(Stream(log), depth)
    decreases |log|
  {
    if log != [] {
      var before := log[..|log| - 1];
      QueueIsRun(before, depth, token);
      assert forall x :: (Stream(before) + [x])[..|Stream(before)|] == Stream(before);
    }
  }

  /** A run loses no revocation exactly when no stretch of its candidate cycles brings too many. */
  lemma NothingLostIff(log: seq<Cycle>, depth: nat, token: nat)
    ensures !After(log, depth, token).overflow <==> RQ.AllWindowsFit(Stream(log), depth)
  {
    QueueIsRun(log, depth, token);
    RQ.OverflowIff(Stream(log), depth);
  }

  // ----- counters

  datatype Policy = Policy(issued: nat, held: nat, blocked: nat, unsafeIssued: nat)

  datatype Stats = Stats(
    noHold: Policy, globalHold: Policy, scopedHold: Policy, raw: nat, authority: nat, sourceEvents: nat,
    targetEvents: nat, hazards: nat, avoidedHold: nat, avoidedAllow: nat, overflowCycle: Option<nat>)

  const NO_POLICY: Policy := Policy(0, 0, 0, 0)
  const NO_STATS: Stats := Stats(NO_POLICY, NO_POLICY, NO_POLICY, 0, 0, 0, 0, 0, 0, 0, None)

  function Apply(p: Policy, authorized: bool, hold: bool, hazard: bool): Policy {
    if !authorized then p.(blocked := p.blocked + 1)
    else if hold then p.(held := p.held + 1)
    else p.(issued := p.issued + 1, unsafeIssued := p.unsafeIssued + if hazard then 1 else 0)
  }

  function One(b: bool): nat {
    if b then 1 else 0
  }

  /** The counters after a candidate cycle that starts in state `w`, before its revocations are queued. */
  function Tally(s: Stats, w: World, c: Cycle, token: nat): Stats
    requires c.Candidate?
  {
    var auth, scoped, global := Authorized(w, c, token), ScopedHold(w, c, token), GlobalHold(w, c);
    Stats(
      Apply(s.noHold, auth, false, scoped), Apply(s.globalHold, auth, global, scoped),
      Apply(s.scopedHold, auth, scoped, scoped), s.raw + 1, s.authority + One(auth),
      s.sourceEvents + |SourceEvents(c)|,
      s.targetEvents + |c.remaps| + |c.tlbiTokens| + One(c.tlbiAll), s.hazards + One(scoped),
      s.avoidedHold + One(auth && global && !scoped), s.avoidedAllow + One(auth && global && !scoped),
      s.overflowCycle)
  }

  /** Only the first loss is noted; `now` is the cycle number. */
  function NoteOverflow(s: Stats, overflows: bool, now: nat): Stats {
    if s.overflowCycle.None? && overflows then s.(overflowCycle := Some(now)) else s
  }

  function Count(s: Stats, w: World, c: Cycle, depth: nat, token: nat, now: nat): Stats {
    if c.Tail? then s
    else NoteOverflow(Tally(s, w, c, token), RQ.Overflows(RQ.Pop(w.queue), SourceEvents(c), depth), now)
  }

  function Counted(log: seq<Cycle>, depth: nat, token: nat): Stats {
    if log == [] then NO_STATS
    else
      var before := log[..|log| - 1];
      Count(Counted(before, depth, token), After(before, depth, token), log[|log| - 1], depth, token, |before|)
  }

  predicate Partition(p: Policy, raw: nat) {
    p.issued + p.held + p.blocked == raw
  }

  /** The identities that tie the three policies together. */
  predicate Balanced(s: Stats) {
    && Partition(s.noHold, s.raw) && Partition(s.globalHold, s.raw) && Partition(s.scopedHold, s.raw)
    && s.noHold.blocked == s.globalHold.blocked == s.scopedHold.blocked == s.raw - s.authority
    && s.noHold.held == 0
    && s.noHold.unsafeIssued == s.scopedHold.held <= s.hazards
    && s.scopedHold.unsafeIssued == 0 && s.globalHold.unsafeIssued == 0
    && s.avoidedHold == s.avoidedAllow == s.scopedHold.issued - s.globalHold.issued
  }

  lemma ScopedImpliesGlobal(w: World, c: Cycle, token: nat)
    requires c.Candidate? && ScopedHold(w, c, token)
    ensures GlobalHold(w, c)
  {
  }

  /** The candidate of the cycle would be held if it were the edge `e` with target `t` under token `k`. */
  ghost predicate WouldHold(w: World, c: Cycle, e: nat, t: nat, k: nat)
    requires c.Candidate?
  {
    || w.overflow || e / 16 in w.queue || e / 16 in c.drawn
    || (t, k) in c.remaps || k in c.tlbiTokens || c.tlbiAll
  }

  /** The global hold is on exactly when the cycle could hold some candidate, or mutates a slot. */
  lemma GlobalHoldIff(w: World, c: Cycle)
    requires c.Candidate?
    ensures GlobalHold(w, c) <==> c.mutated || exists e: nat, t: nat, k: nat :: WouldHold(w, c, e, t, k)
  {
    if GlobalHold(w, c) && !c.mutated {
      if w.queue != [] {
        LineOfFirst(w.queue[0]);
        assert WouldHold(w, c, 16 * w.queue[0], 0, 0);
      } else if c.drawn != [] {
        LineOfFirst(c.drawn[0]);
        assert WouldHold(w, c, 16 * c.drawn[0], 0, 0);
      } else if c.remaps != [] {
        assert WouldHold(w, c, 0, c.remaps[0].0, c.remaps[0].1);
      } else if c.tlbiTokens != [] {
        assert WouldHold(w, c, 0, 0, c.tlbiTokens[0]);
      } else {
        assert WouldHold(w, c, 0, 0, 0);
      }
    }
  }

  lemma LineOfFirst(line: nat)
    ensures (16 * line) / 16 == line
  {
  }

  /** ... and the scoped hold when it holds the cycle's own. */
  lemma ScopedHoldIff(w: World, c: Cycle, token: nat)
    requires c.Candidate?
    ensures ScopedHold(w, c, token) <==> WouldHold(w, c, c.pfEdge, c.pfTarget, token)
  {
  }

  lemma BalancedNext(s: Stats, w: World, c: Cycle, depth: nat, token: nat, now: nat)
    requires Balanced(s)
    ensures Balanced(Count(s, w, c, depth, token, now))
  {
    if c.Candidate? && ScopedHold(w, c, token) {
      ScopedImpliesGlobal(w, c, token);
    }
  }

  /** Every run balances. */
  lemma {:induction false} RunsBalance(log: seq<Cycle>, depth: nat, token: nat)
    ensures Balanced(Counted(log, depth, token))
    decreases |log|
  {
    if log != [] {
      var before := log[..|log| - 1];
      RunsBalance(before, depth, token);
      BalancedNext(Counted(before, depth, token), After(before, depth, token), log[|log| - 1], depth, token, |before|);
    }
  }

  /** What can be true of a cycle and the state it starts from. */
  datatype Fact = Tried | Backed | Hazardous | IssuedScoped | IssuedGlobal

  predicate Satisfies(f: Fact, w: World, c: Cycle, token: nat) {
    c.Candidate? &&
    match f
    case Tried => true
    case Backed => Authorized(w, c, token)
    case Hazardous => ScopedHold(w, c, token)
    case IssuedScoped => ScopedIssues(w, c, token)
    case IssuedGlobal => Authorized(w, c, token) && !GlobalHold(w, c)
  }

  /** In how many cycles of the history the fact holds. */
  ghost function Cases(f: Fact, log: seq<Cycle>, depth: nat, token: nat): nat {
    if log == [] then 0
    else
      var before := log[..|log| - 1];
      Cases(f, before, depth, token) + One(Satisfies(f, After(before, depth, token), log[|log| - 1], token))
  }

  /** The counters count what they are named for. */
  lemma {:induction false} CountersCount(log: seq<Cycle>, depth: nat, token: nat)
    ensures var s := Counted(log, depth, token);
            && s.raw == Cases(Tried, log, depth, token) && s.authority == Cases(Backed, log, depth, token)
            && s.hazards == Cases(Hazardous, log, depth, token)
            && s.scopedHold.issued == Cases(IssuedScoped, log, depth, token)
            && s.globalHold.issued == Cases(IssuedGlobal, log, depth, token)
    decreases |log|
  {
    if log != [] {
      CountersCount(log[..|log| - 1], depth, token);
    }
  }

  ghost function SumOver(log: seq<Cycle>, events: Cycle -> nat): nat {
    if log == [] then 0 else SumOver(log[..|log| - 1], events) + events(log[|log| - 1])
  }

  function SourceCount(): Cycle -> nat {
    (c: Cycle) => if c.Tail? then 0 else |c.drawn| + One(c.mutated)
  }

  function TargetCount(): Cycle -> nat {
    (c: Cycle) => if c.Tail? then 0 else |c.remaps| + |c.tlbiTokens| + One(c.tlbiAll)
  }

  /** The event counters are the sums over the history. */
  lemma {:induction false} EventsAreSummed(log: seq<Cycle>, depth: nat, token: nat)
    ensures Counted(log, depth, token).sourceEvents == SumOver(log, SourceCount())
    ensures Counted(log, depth, token).targetEvents == SumOver(log, TargetCount())
    decreases |log|
  {
    if log != [] {
      EventsAreSummed(log[..|log| - 1], depth, token);
    }
  }

  lemma {:induction false} OverflowIsNoted(log: seq<Cycle>, depth: nat, token: nat)
    ensures Counted(log, depth, token).overflowCycle.Some? <==> After(log, depth, token).overflow
    decreases |log|
  {
    if log != [] {
      OverflowIsNoted(log[..|log| - 1], depth, token);
    }
  }

  /** The recorded overflow cycle is the first cycle that loses a revocation. */
  lemma {:induction false} OverflowCycleIsFirst(log: seq<Cycle>, depth: nat, token: nat, k: nat)
    ensures Counted(log, depth, token).overflowCycle == Some(k) <==>
            k < |log| && !After(log[..k], depth, token).overflow && After(log[..k + 1], depth, token).overflow
    decreases |log|
  {
    if log != [] {
      var before := log[..|log| - 1];
      OverflowIsNoted(before, depth, token);
      OverflowCycleIsFirst(before, depth, token, k);
      if k < |before| {
        assert before[..k] == log[..k] && before[..k + 1] == log[..k + 1];
        if After(log[..k + 1], depth, token).overflow {
          OverflowStays(before, k + 1, depth, token);
        }
      } else if k == |before| {
        assert log[..k] == before && log[..k + 1] == log;
      }
    }
  }

  lemma {:induction false} OverflowStays(log: seq<Cycle>, k: nat, depth: nat, token: nat)
    requires k <= |log| && After(log[..k], depth, token).overflow
    ensures After(log, depth, token).overflow
    decreases |log|
  {
    if k < |log| {
      assert log[..|log| - 1][..k] == log[..k];
      OverflowStays(log[..|log| - 1], k, depth, token);
    } else {
      assert log[..k] == log;
    }
  }

  // ----- the program's run

  class Evaluator {
    const depth: nat
    const token: nat
    var lineMasks: map<nat, set<nat>>
    var targetWitnesses: set<(nat, nat)>
    var queue: seq<nat>
    var overflow: bool
    var stats: Stats
    var now: nat
    ghost var log: seq<Cycle>

    ghost function State(): World
      reads this
    {
      World(lineMasks, targetWitnesses, queue, overflow)
    }

    /** State and counters are those of the history. */
    ghost predicate Valid()
      reads this
    {
      State() == After(log, depth, token) && stats == Counted(log, depth, token) && now == |log|
    }

    constructor (depth: nat, token: nat)
      ensures Valid() && log == [] && this.depth == depth && this.token == token
    {
      this.depth, this.token := depth, token;
      lineMasks, targetWitnesses, queue, overflow := map[], {}, [], false;
      stats, now, log := NO_STATS, 0, [];
    }

    method RememberProof(edge: nat)
      modifies this`lineMasks
      ensures lineMasks == Remember(old(lineMasks), edge)
      ensures forall other: nat :: HasProof(lineMasks, other) <==> other == edge || HasProof(old(lineMasks), other)
    {
      ghost var before := lineMasks;
      var line := Line(edge);
      var mask := if line in lineMasks then lineMasks[line] else {};
      lineMasks := lineMasks[line := mask + {Bit(edge)}];
      forall other: nat ensures HasProof(lineMasks, other) <==> other == edge || HasProof(before, other) {
        RememberAddsOneProof(before, edge, other);
      }
    }

    method PushEvents(events: seq<nat>)
      modifies this`queue, this`overflow, this`stats
      ensures queue == RQ.Push(old(queue), events, depth)
      ensures overflow <==> old(overflow) || RQ.Overflows(old(queue), events, depth)
      ensures stats == NoteOverflow(old(stats), RQ.Overflows(old(queue), events, depth), now)
    {
      var lost;
      queue, lost := RQ.PushAll(queue, events, depth, false);
      if lost {
        overflow := true;
        if stats.overflowCycle.None? {
          stats := stats.(overflowCycle := Some(now));
        }
      }
    }

    method RevokeTargets(c: Cycle)
      requires c.Candidate?
      modifies this`targetWitnesses
      ensures targetWitnesses == Surviving(c, old(targetWitnesses))
    {
      ghost var w0 := targetWitnesses;
      for i := 0 to |c.remaps|
        invariant targetWitnesses == set p | p in w0 && p !in c.remaps[..i]
      {
        targetWitnesses := targetWitnesses - {c.remaps[i]};
      }
      for i := 0 to |c.tlbiTokens|
        invariant targetWitnesses == set p | p in w0 && p !in c.remaps && p.1 !in c.tlbiTokens[..i]
      {
        targetWitnesses := set p | p in targetWitnesses && p.1 != c.tlbiTokens[i];
      }
      if c.tlbiAll {
        targetWitnesses := {};
      }
    }

    /** The three policies decide on the same candidate. */
    method Decide(c: Cycle) returns (events: seq<nat>)
      requires c.Candidate?
      modifies this`stats
      ensures stats == Tally(old(stats), State(), c, token) && events == SourceEvents(c)
    {
      events := c.drawn;
      var line := Line(c.pfEdge);
      var incoming := line in events;
      if c.mutated {
        events := events + [Line(c.edge)];
      }
      var target := (c.pfTarget, token) in c.remaps || token in c.tlbiTokens || c.tlbiAll;
      var hazard := overflow || line in queue || incoming || target;
      var authorized := HasProof(lineMasks, c.pfEdge) && (c.pfTarget, token) in targetWitnesses;
      var global := overflow || queue != [] || events != [] || c.remaps != [] || c.tlbiTokens != [] || c.tlbiAll;
      var avoided := authorized && global && !hazard;
      stats := Stats(
        Apply(stats.noHold, authorized, false, hazard), Apply(stats.globalHold, authorized, global, hazard),
        Apply(stats.scopedHold, authorized, hazard, hazard), stats.raw + 1, stats.authority + One(authorized),
        stats.sourceEvents + |events|, stats.targetEvents + |c.remaps| + |c.tlbiTokens| + One(c.tlbiAll),
        stats.hazards + One(hazard), stats.avoidedHold + One(avoided), stats.avoidedAllow + One(avoided),
        stats.overflowCycle);
    }

    /** One iteration of the replay loop. */
    method Step(c: Cycle)
      requires Valid()
      modifies this
      ensures Valid() && log == old(log) + [c]
    {
      if c.Candidate? {
        var events := Decide(c);
        if queue != [] {
          lineMasks := lineMasks - {queue[0]};
          queue := queue[1..];
        }
        PushEvents(events);
        RevokeTargets(c);
      }
      RememberProof(c.edge);
      targetWitnesses := targetWitnesses + {(c.target, token)};
      ghost var before := log;
      log := log + [c];
      assert log[..|log| - 1] == before;
      now := now + 1;
    }
  }

  // ----- merging runs

  function Plus(p: Policy, q: Policy): Policy {
    Policy(p.issued + q.issued, p.held + q.held, p.blocked + q.blocked, p.unsafeIssued + q.unsafeIssued)
  }

  function Earlier(a: Option<nat>, b: Option<nat>): Option<nat> {
    if b.None? then a else if a.None? then b else Some(if b.value < a.value then b.value else a.value)
  }

  function Merge(a: Stats, b: Stats): Stats {
    Stats(
      Plus(a.noHold, b.noHold), Plus(a.globalHold, b.globalHold), Plus(a.scopedHold, b.scopedHold),
      a.raw + b.raw, a.authority + b.authority, a.sourceEvents + b.sourceEvents, a.targetEvents + b.targetEvents,
      a.hazards + b.hazards, a.avoidedHold + b.avoidedHold, a.avoidedAllow + b.avoidedAllow,
      Earlier(a.overflowCycle, b.overflowCycle))
  }

  function Fold<T>(f: (T, T) -> T, unit: T, items: seq<T>): T {
    if items == [] then unit else f(Fold(f, unit, items[..|items| - 1]), items[|items| - 1])
  }

  function Total(items: seq<Stats>): Stats {
    Fold(Merge, NO_STATS, items)
  }

  method MergeStats(items: seq<Stats>) returns (out: Stats)
    ensures out == Total(items)
  {
    out := NO_STATS;
    for i := 0 to |items|
      invariant out == Total(items[..i])
    {
      assert items[..i + 1][..i] == items[..i];
      out := Merge(out, items[i]);
    }
    assert items[..|items|] == items;
  }

  lemma MergeBalances(a: Stats, b: Stats)
    requires Balanced(a) && Balanced(b)
    ensures Balanced(Merge(a, b))
  {
  }

  /** The merged counters of balanced runs balance. */
  lemma {:induction false} TotalBalances(items: seq<Stats>)
    requires forall s :: s in items ==> Balanced(s)
    ensures Balanced(Total(items))
    decreases |items|
  {
    if items != [] {
      TotalBalances(items[..|items| - 1]);
      MergeBalances(Total(items[..|items| - 1]), items[|items| - 1]);
    }
  }

  /** The merged overflow cycle is the least one of any run. */
  lemma {:induction false} TotalOverflowIsLeast(items: seq<Stats>)
    ensures forall s :: s in items && s.overflowCycle.Some? ==>
              Total(items).overflowCycle.Some? && Total(items).overflowCycle.value <= s.overflowCycle.value
    ensures Total(items).overflowCycle.Some? ==>
              exists s :: s in items && s.overflowCycle == Total(items).overflowCycle
    decreases |items|
  {
    if items != [] {
      var front, last := items[..|items| - 1], items[|items| - 1];
      TotalOverflowIsLeast(front);
      assert items == front + [last];
      assert Total(items).overflowCycle == Earlier(Total(front).overflowCycle, last.overflowCycle);
    }
  }

  lemma MergeAssociates(a: Stats, b: Stats, c: Stats)
    ensures Merge(Merge(a, b), c) == Merge(a, Merge(b, c))
  {
  }

  lemma MergeCommutes(a: Stats, b: Stats)
    ensures Merge(a, b) == Merge(b, a) && Merge(a, NO_STATS) == a
  {
  }

  lemma {:induction false} FoldSplits<T>(f: (T, T) -> T, unit: T, xs: seq<T>, ys: seq<T>)
    requires forall a, b, c :: f(f(a, b), c) == f(a, f(b, c))
    requires forall a :: f(a, unit) == a
    ensures Fold(f, unit, xs + ys) == f(Fold(f, unit, xs), Fold(f, unit, ys))
    decreases |ys|
  {
    if ys == [] {
      assert xs + ys == xs;
    } else {
      var front, last := ys[..|ys| - 1], ys[|ys| - 1];
      FoldSplits(f, unit, xs, front);
      assert (xs + ys)[..|xs + ys| - 1] == xs + front && (xs + ys)[|xs + ys| - 1] == last;
      assert f(f(Fold(f, unit, xs), Fold(f, unit, front)), last) == f(Fold(f, unit, xs), f(Fold(f, unit, front), last));
    }
  }

  /** Merging in batches is merging at once, in either order of the batches. */
  lemma TotalSplits(xs: seq<Stats>, ys: seq<Stats>)
    ensures Total(xs + ys) == Merge(Total(xs), Total(ys)) == Total(ys + xs)
  {
    forall a, b, c ensures Merge(Merge(a, b), c) == Merge(a, Merge(b, c)) {
      MergeAssociates(a, b, c);
    }
    forall a ensures Merge(a, NO_STATS) == a {
      MergeCommutes(a, a);
    }
    FoldSplits(Merge, NO_STATS, xs, ys);
    FoldSplits(Merge, NO_STATS, ys, xs);
    MergeCommutes(Total(xs), Total(ys));
  }
}
