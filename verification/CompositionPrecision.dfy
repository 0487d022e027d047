/** How precise the composed CS-SARI gate is, and what the checker's verdicts mean. */
module CompositionPrecision {
  import opened Options
  import opened Levels
  import opened RevocationQueue
  import opened Composition
  import Search

  // ----- the queue of the model, and overflow

  ghost function RunEvents(events: seq<Event>, v: Variant, depth: nat): State {
    if events == [] then INITIAL
    else Transition(RunEvents(events[..|events| - 1], v, depth), events[|events| - 1], v, depth)
  }

  ghost function Stream(events: seq<Event>): seq<seq<nat>> {
    seq(|events|, i requires 0 <= i < |events| => SourceLines(events[i]))
  }

  lemma TransitionRunsQueue(s: State, e: Event, v: Variant, depth: nat)
    ensures Transition(s, e, v, depth).queue == Push(Pop(s.queue), SourceLines(e), depth)
    ensures Transition(s, e, v, depth).overflow == (s.overflow || Overflows(Pop(s.queue), SourceLines(e), depth))
  {
  }

  lemma {:induction false} QueueIsRun(events: seq<Event>, v: Variant, depth: nat)
    ensures RunEvents(events, v, depth).queue == Run(Stream(events), depth).queue
    ensures RunEvents(events, v, depth).overflow == Run(Stream(events), depth).overflow
    decreases |events|
  {
    if events != [] {
      var n := |events| - 1;
      QueueIsRun(events[..n], v, depth);
      assert Stream(events)[..n] == Stream(events[..n]);
      assert Stream(events)[n] == SourceLines(events[n]);
      TransitionRunsQueue(RunEvents(events[..n], v, depth), events[n], v, depth);
    }
  }

  /** A run sets the overflow flag exactly when some window of its events revokes more lines than
      the queue depth plus the pops in between. */
  lemma OverflowIffDenseWindow(events: seq<Event>, v: Variant, depth: nat)
    ensures RunEvents(events, v, depth).overflow <==> !AllWindowsFit(Stream(events), depth)
  {
    QueueIsRun(events, v, depth);
    OverflowIff(Stream(events), depth);
  }

  lemma StreamConcat(events: seq<Event>, more: seq<Event>)
    ensures Stream(events + more) == Stream(events) + Stream(more)
  {
  }

  lemma OverflowPersists(events: seq<Event>, more: seq<Event>, v: Variant, depth: nat)
    requires RunEvents(events, v, depth).overflow
    ensures RunEvents(events + more, v, depth).overflow
  {
    QueueIsRun(events, v, depth);
    QueueIsRun(events + more, v, depth);
    StreamConcat(events, more);
    OverflowIsSticky(Stream(events), Stream(more), depth);
  }

  lemma OverflowHolds(s: State, v: Variant, e: Event, q: Query)
    requires s.overflow && q.valid && (v.checkOverflow || v.forceGlobalHold)
    ensures VariantHold(s, e, q, v) && !IssueAllowed(s, e, q, v)
  {
  }

  /** Overflow is sticky, and from then on every valid query is held, whatever happens. */
  lemma OverflowHoldsForever(events: seq<Event>, more: seq<Event>, v: Variant, depth: nat)
    requires RunEvents(events, v, depth).overflow && (v.checkOverflow || v.forceGlobalHold)
    ensures forall e, q: Query :: q.valid ==> !IssueAllowed(RunEvents(events + more, v, depth), e, q, v)
  {
    OverflowPersists(events, more, v, depth);
    forall e, q: Query | q.valid ensures !IssueAllowed(RunEvents(events + more, v, depth), e, q, v) {
      OverflowHolds(RunEvents(events + more, v, depth), v, e, q);
    }
  }

  // ----- exactness: no over-blocking

  /** The gate of the full design issues exactly the candidates that ground truth allows. */
  ghost predicate ExactAt(s: State, e: Event, q: Query) {
    IssueAllowed(s, e, q, FULL) <==> GroundTruth(s, q) && !TruthHazard(s, e, q)
  }

  ghost predicate Exact(alphabet: seq<Event>, depth: nat) {
    forall s, e, q :: Reached(alphabet, FULL, depth, s) ==> ExactAt(s, e, q)
  }

  /** One cycle revokes at most one line, or so many that the queue overflows even when empty. */
  predicate SingleOrOverflowing(e: Event, depth: nat) {
    |SourceLines(e)| <= 1 || depth < |SourceLines(e)|
  }

  /** Until overflow the queue holds at most one line, freshly revoked; metadata lags behind truth
      for no other line. */
  ghost predicate Prompt(s: State) {
    !s.overflow ==>
      && |s.queue| <= 1
      && (forall l :: l in s.queue ==> l !in s.truthSource)
      && s.truthSource <= s.clpdSource
  }

  lemma TransitionKeepsPrompt(s: State, e: Event, depth: nat)
    requires Prompt(s) && SingleOrOverflowing(e, depth)
    ensures Prompt(Transition(s, e, FULL, depth))
  {
    var t := Transition(s, e, FULL, depth);
    if !t.overflow {
      assert Pop(s.queue) == [];
      PushKeepsOrLoses([], SourceLines(e), depth);
      assert t.queue == SourceLines(e);
    }
  }

  lemma PromptIsExact(alphabet: seq<Event>, depth: nat, s: State, e: Event, q: Query)
    requires forall x :: x in alphabet ==> SingleOrOverflowing(x, depth)
    requires Reached(alphabet, FULL, depth, s)
    ensures ExactAt(s, e, q)
  {
    SufficientIsSafe(alphabet, FULL, depth, s, e, q);
    ReachedIsCovered(alphabet, FULL, depth, s);
    var inv := (t: State) => Prompt(t);
    var succ := Successors(alphabet, FULL, depth);
    forall t, i | inv(t) && 0 <= i < |succ(t)| ensures inv(succ(t)[i].1) {
      TransitionKeepsPrompt(t, alphabet[i], depth);
    }
    var d: nat :| s in Within(succ, INITIAL, d);
    InvariantWithin(succ, INITIAL, inv, d);
    assert inv(s);
  }

  /** Idle cycles drain the queue, and each popped line loses its metadata. */
  lemma {:induction false} Drain(alphabet: seq<Event>, depth: nat, d: nat, s: State) returns (d': nat, t: State)
    requires Idle in alphabet && At(alphabet, FULL, depth, d, s)
    ensures At(alphabet, FULL, depth, d', t)
    ensures t == s.(queue := [], clpdSource := s.clpdSource - Lines(s.queue))
    decreases |s.queue|
  {
    if s.queue == [] {
      d', t := d, s;
      assert s.clpdSource - Lines(s.queue) == s.clpdSource;
    } else {
      var d1, s1 := Advance(alphabet, FULL, depth, d, s, Idle);
      assert s1 == s.(queue := s.queue[1..], clpdSource := s.clpdSource - {s.queue[0]});
      d', t := Drain(alphabet, depth, d1, s1);
      assert Lines(s.queue) == {s.queue[0]} + Lines(s.queue[1..]);
      assert t.clpdSource == s.clpdSource - Lines(s.queue);
    }
  }

  /** A revoked line that is re-committed while still queued. */
  lemma RecommitQueued(alphabet: seq<Event>, depth: nat, burst: Event, l: nat) returns (d: nat, s: State)
    requires burst in alphabet && RecordTarget(0, 0) in alphabet && CommitSource(l) in alphabet
    requires 2 <= |SourceLines(burst)| <= depth && l == SourceLines(burst)[|SourceLines(burst)| - 1]
    ensures At(alphabet, FULL, depth, d, s)
    ensures s == State(SourceLines(burst)[1..], false, {l}, {l}, {(0, 0)}, {(0, 0)})
  {
    var lines := SourceLines(burst);
    d, s := Begin(alphabet, FULL, depth);
    d, s := Advance(alphabet, FULL, depth, d, s, RecordTarget(0, 0));
    assert s == State([], false, {}, {}, {(0, 0)}, {(0, 0)});
    BurstFromEmpty(s, burst, depth);
    d, s := Advance(alphabet, FULL, depth, d, s, burst);
    var t := s;
    CommitKeepsQueued(t, lines, l, depth);
    d, s := Advance(alphabet, FULL, depth, d, s, CommitSource(l));
  }

  lemma CommitKeepsQueued(s: State, lines: seq<nat>, l: nat, depth: nat)
    requires 2 <= |lines| <= depth && s == State(lines, false, {}, {}, {(0, 0)}, {(0, 0)})
    ensures Transition(s, CommitSource(l), FULL, depth) == State(lines[1..], false, {l}, {l}, {(0, 0)}, {(0, 0)})
  {
  }

  lemma BurstFromEmpty(s: State, burst: Event, depth: nat)
    requires s.queue == [] && !s.overflow && s.truthSource == {} && 2 <= |SourceLines(burst)| <= depth
    ensures Transition(s, burst, FULL, depth) == s.(queue := SourceLines(burst))
  {
    assert [] + SourceLines(burst) == SourceLines(burst);
  }

  /** A burst that fits but leaves a backlog makes a line lose a proof committed after its
      revocation: the gate then over-blocks. */
  lemma BacklogIsInexact(alphabet: seq<Event>, depth: nat, burst: Event)
    requires burst in alphabet && !SingleOrOverflowing(burst, depth)
    requires Idle in alphabet && RecordTarget(0, 0) in alphabet
    requires forall l :: l in SourceLines(burst) ==> CommitSource(l) in alphabet
    ensures !Exact(alphabet, depth)
  {
    var lines := SourceLines(burst);
    var l := lines[|lines| - 1];
    var d, s := RecommitQueued(alphabet, depth, burst, l);
    assert lines[1..][|lines| - 2] == l;
    assert l in Lines(s.queue);
    d, s := Drain(alphabet, depth, d, s);
    assert Reached(alphabet, FULL, depth, s);
    assert !ExactAt(s, Idle, Query(true, l, 0, 0));
  }

  /** For an alphabet that can idle, record a target and re-commit what it revokes, the gate is exact
      in every run if and only if no event revokes between 2 and `depth` lines at once. */
  lemma ExactIff(alphabet: seq<Event>, depth: nat)
    requires Idle in alphabet && RecordTarget(0, 0) in alphabet
    requires forall e, l :: e in alphabet && l in SourceLines(e) ==> CommitSource(l) in alphabet
    ensures Exact(alphabet, depth) <==> forall e :: e in alphabet ==> SingleOrOverflowing(e, depth)
  {
    if forall e :: e in alphabet ==> SingleOrOverflowing(e, depth) {
      forall s, e, q | Reached(alphabet, FULL, depth, s) ensures ExactAt(s, e, q) {
        PromptIsExact(alphabet, depth, s, e, q);
      }
    } else {
      var burst :| burst in alphabet && !SingleOrOverflowing(burst, depth);
      BacklogIsInexact(alphabet, depth, burst);
    }
  }

  /** The alphabet has the checker's shape: single-line revocations and one burst of three. */
  ghost predicate CheckerShaped(alphabet: seq<Event>) {
    && Rich(alphabet) && CommitSource(1) in alphabet && Dma(1) in alphabet
    && forall e :: e in alphabet ==> SingleOrTriple(e)
  }

  predicate SingleOrTriple(e: Event) {
    |SourceLines(e)| <= 1 || e == Burst([0, 1, 2])
  }

  lemma SourceEventsShaped(e: Event)
    requires e in SOURCE_EVENTS
    ensures SingleOrTriple(e)
  {
  }

  lemma OtherEventsShaped(e: Event)
    requires e in PROOF_EVENTS || e in TARGET_EVENTS
    ensures SingleOrTriple(e)
  {
  }

  lemma EventsSplit(e: Event)
    requires e in EVENTS
    ensures e in PROOF_EVENTS || e in SOURCE_EVENTS || e in TARGET_EVENTS
  {
  }

  lemma OneMorePair()
    ensures CommitSource(1) in EVENTS && Dma(1) in EVENTS
  {
    assert PROOF_EVENTS[2] == CommitSource(1) && SOURCE_EVENTS[1] == Dma(1);
  }

  lemma EventsAreCheckerShaped()
    ensures CheckerShaped(EVENTS)
  {
    forall e | e in EVENTS ensures SingleOrTriple(e) {
      EventsSplit(e);
      if e in SOURCE_EVENTS {
        SourceEventsShaped(e);
      } else {
        OtherEventsShaped(e);
      }
    }
    EventsAreRich();
    OneMorePair();
  }

  /** The checker's gate is exact at its queue depth 2, and would not be at depth 3. */
  lemma CheckedGateIsExact(alphabet: seq<Event>)
    requires CheckerShaped(alphabet)
    ensures Exact(alphabet, DEPTH) && !Exact(alphabet, DEPTH + 1)
  {
    var burst := Burst([0, 1, 2]);
    assert SourceLines(burst) == [0, 1, 2];
    forall s, e, q | Reached(alphabet, FULL, DEPTH, s) ensures ExactAt(s, e, q) {
      forall x | x in alphabet ensures SingleOrOverflowing(x, DEPTH) {
        assert SingleOrTriple(x);
      }
      PromptIsExact(alphabet, DEPTH, s, e, q);
    }
    BacklogIsInexact(alphabet, DEPTH + 1, burst);
  }

  // ----- the checker's two searches over the reachable states

  const QUERIES: seq<Query> :=
    [Query(false, 0, 0, 0)] + seq(18, (i: nat) => Query(true, i / 6, i / 2 % 3, i % 2))

  lemma QueriesAreAsked(q: Query)
    ensures q in QUERIES <==> Asked(q)
  {
    if Asked(q) && q.valid {
      var i := 6 * q.src + 2 * q.tgt + q.token;
      assert QUERIES[1 + i] == q;
    }
    assert QUERIES[0] == Query(false, 0, 0, 0);
  }

  lemma AllAsked()
    ensures forall q :: q in QUERIES <==> Asked(q)
  {
    forall q ensures q in QUERIES <==> Asked(q) {
      QueriesAreAsked(q);
    }
  }

  datatype Finding = Finding(state: State, event: Event, query: Query)

  ghost predicate FoundAt(alphabet: seq<Event>, s: State, wanted: Finding -> bool) {
    exists e, q :: e in alphabet && Asked(q) && wanted(Finding(s, e, q))
  }

  /** Some finding lies within `d` steps. */
  ghost predicate FoundWithin(alphabet: seq<Event>, v: Variant, depth: nat, d: nat, wanted: Finding -> bool) {
    exists s :: At(alphabet, v, depth, d, s) && FoundAt(alphabet, s, wanted)
  }

  /** The loop over queries, for one state and event. */
  method ScanQueries(s: State, e: Event, queries: seq<Query>, wanted: Finding -> bool) returns (r: Option<Finding>)
    ensures r.Some? ==> wanted(r.value) && r.value.state == s && r.value.event == e && r.value.query in queries
    ensures r.None? ==> forall q :: q in queries ==> !wanted(Finding(s, e, q))
  {
    for j := 0 to |queries|
      invariant forall q :: q in queries[..j] ==> !wanted(Finding(s, e, q))
    {
      if wanted(Finding(s, e, queries[j])) {
        return Some(Finding(s, e, queries[j]));
      }
    }
    r := None;
  }

  /** The loops over events and queries, for one state. */
  method ScanState(s: State, alphabet: seq<Event>, queries: seq<Query>, wanted: Finding -> bool)
      returns (r: Option<Finding>)
    requires forall q :: q in queries <==> Asked(q)
    ensures r.Some? ==> wanted(r.value) && r.value.state == s && r.value.event in alphabet && Asked(r.value.query)
    ensures r.Some? <==> FoundAt(alphabet, s, wanted)
  {
    for i := 0 to |alphabet|
      invariant forall e, q :: e in alphabet[..i] && Asked(q) ==> !wanted(Finding(s, e, q))
    {
      r := ScanQueries(s, alphabet[i], queries, wanted);
      if r.Some? {
        return;
      }
    }
    r := None;
  }

  /** `safety_counterexample` and `precision_witness`: the first finding in the dictionary's order. */
  method FirstFinding(order: seq<State>, alphabet: seq<Event>, queries: seq<Query>, wanted: Finding -> bool)
      returns (r: Option<Finding>, ghost at: nat)
    requires forall q :: q in queries <==> Asked(q)
    ensures at <= |order| && forall j :: 0 <= j < at ==> !FoundAt(alphabet, order[j], wanted)
    ensures r.None? ==> at == |order|
    ensures r.Some? ==> at < |order| && r.value.state == order[at] && wanted(r.value)
                        && r.value.event in alphabet && Asked(r.value.query)
  {
    for i := 0 to |order|
      invariant forall j :: 0 <= j < i ==> !FoundAt(alphabet, order[j], wanted)
    {
      r := ScanState(order[i], alphabet, queries, wanted);
      if r.Some? {
        return r, i;
      }
    }
    return None, |order|;
  }

  /** A state of an arranged dictionary with a path shorter than that at `at` comes before it. */
  lemma ShorterIsEarlier(paths: map<State, seq<Event>>, order: seq<State>, at: nat, s: State, k: nat)
    requires Search.Arranged(paths, order) && s in order && s in paths && |paths[s]| <= k
    requires at <= |order| && (at < |order| ==> k < |paths[order[at]]|)
    ensures exists j :: 0 <= j < at && order[j] == s
  {
    var j :| 0 <= j < |order| && order[j] == s;
  }

  /** In the dictionary of reachable states the first finding has the shortest path of all. */
  lemma FirstIsShortest(
      alphabet: seq<Event>, v: Variant, depth: nat, maxDepth: nat, wanted: Finding -> bool,
      paths: map<State, seq<Event>>, order: seq<State>, at: nat, k: nat)
    requires paths.Keys == Within(Successors(alphabet, v, depth), INITIAL, maxDepth)
    requires forall s, i: nat :: s in paths && i < |paths[s]| ==> !At(alphabet, v, depth, i, s)
    requires Search.Arranged(paths, order) && forall s :: s in order <==> s in paths
    requires at <= |order| && forall j :: 0 <= j < at ==> !FoundAt(alphabet, order[j], wanted)
    requires k <= maxDepth && (at < |order| ==> k < |paths[order[at]]|)
    ensures !FoundWithin(alphabet, v, depth, k, wanted)
  {
    WithinMonotone(Successors(alphabet, v, depth), INITIAL, k, maxDepth);
    forall s | At(alphabet, v, depth, k, s) ensures !FoundAt(alphabet, s, wanted) {
      assert s in paths && s in order;
      ShorterIsEarlier(paths, order, at, s, k);
    }
  }

  /** Both searches of the checker: reach, then scan.  A finding is reported exactly when one lies within
      the bound, with a path to it, and no finding has a shorter path. */
  method Report(
      alphabet: seq<Event>, v: Variant, depth: nat, maxDepth: nat, queries: seq<Query>, wanted: Finding -> bool)
      returns (r: Option<Finding>, path: seq<Event>)
    requires forall q :: q in queries <==> Asked(q)
    ensures r.Some? <==> FoundWithin(alphabet, v, depth, maxDepth, wanted)
    ensures r.Some? ==> wanted(r.value) && r.value.event in alphabet && Asked(r.value.query)
    ensures r.Some? ==> Leads(Successors(alphabet, v, depth), INITIAL, path, r.value.state) && |path| <= maxDepth
    ensures r.Some? ==> forall k: nat :: k < |path| ==> !FoundWithin(alphabet, v, depth, k, wanted)
  {
    var paths, order := Search.ReachableStates(INITIAL, alphabet, Step(v, depth), maxDepth);
    ghost var at;
    r, at := FirstFinding(order, alphabet, queries, wanted);
    if r.Some? {
      path := paths[r.value.state];
      assert At(alphabet, v, depth, maxDepth, r.value.state);
      assert FoundAt(alphabet, r.value.state, wanted);
      forall k: nat | k < |path| ensures !FoundWithin(alphabet, v, depth, k, wanted) {
        FirstIsShortest(alphabet, v, depth, maxDepth, wanted, paths, order, at, k);
      }
    } else {
      path := [];
      FirstIsShortest(alphabet, v, depth, maxDepth, wanted, paths, order, at, maxDepth);
    }
  }

  /** A candidate that ground truth allows, that a global hold would block, and that is issued. */
  predicate PrecisionGain(s: State, e: Event, q: Query, v: Variant) {
    GroundTruth(s, q) && !TruthHazard(s, e, q) && GlobalHold(s, e, q) && IssueAllowed(s, e, q, v)
  }

  function Unsafe(v: Variant): Finding -> bool {
    (f: Finding) => UnsafeIssue(f.state, f.event, f.query, v)
  }

  function Gains(v: Variant): Finding -> bool {
    (f: Finding) => PrecisionGain(f.state, f.event, f.query, v)
  }

  lemma FoundIsUnsafe(alphabet: seq<Event>, v: Variant, depth: nat, d: nat)
    ensures FoundWithin(alphabet, v, depth, d, Unsafe(v)) <==> UnsafeWithin(alphabet, v, depth, d)
  {
    if UnsafeWithin(alphabet, v, depth, d) {
      var s, e, q :| At(alphabet, v, depth, d, s) && e in alphabet && Asked(q) && UnsafeIssue(s, e, q, v);
      assert Unsafe(v)(Finding(s, e, q));
    }
    if FoundWithin(alphabet, v, depth, d, Unsafe(v)) {
      var s :| At(alphabet, v, depth, d, s) && FoundAt(alphabet, s, Unsafe(v));
      var e, q :| e in alphabet && Asked(q) && Unsafe(v)(Finding(s, e, q));
      assert UnsafeIssue(s, e, q, v);
    }
  }

  /** The checker's safety search: it reports a counterexample exactly when the bound holds one, by a
      shortest path, and from depth 4 on (it uses 7) exactly for the insufficient variants. */
  method CheckSafety(alphabet: seq<Event>, v: Variant, maxDepth: nat)
      returns (r: Option<Finding>, path: seq<Event>)
    ensures r.Some? <==> UnsafeWithin(alphabet, v, DEPTH, maxDepth)
    ensures r.Some? ==> r.value.event in alphabet && Asked(r.value.query)
                        && UnsafeIssue(r.value.state, r.value.event, r.value.query, v)
    ensures r.Some? ==> Leads(Successors(alphabet, v, DEPTH), INITIAL, path, r.value.state) && |path| <= maxDepth
    ensures r.Some? ==> forall k: nat :: k < |path| ==> !UnsafeWithin(alphabet, v, DEPTH, k)
    ensures Rich(alphabet) && 4 <= maxDepth ==> (r.None? <==> Sufficient(v, DEPTH, true))
  {
    AllAsked();
    r, path := Report(alphabet, v, DEPTH, maxDepth, QUERIES, Unsafe(v));
    forall k: nat ensures FoundWithin(alphabet, v, DEPTH, k, Unsafe(v)) <==> UnsafeWithin(alphabet, v, DEPTH, k) {
      FoundIsUnsafe(alphabet, v, DEPTH, k);
    }
    if Rich(alphabet) && 4 <= maxDepth {
      RichFloods(alphabet);
      BoundedVerdict(alphabet, v, DEPTH, Burst([0, 1, 2]), 2, maxDepth);
    }
  }

  ghost predicate GainWithin(alphabet: seq<Event>, v: Variant, depth: nat, d: nat) {
    FoundWithin(alphabet, v, depth, d, Gains(v))
  }

  lemma GlobalGainsNothing(v: Variant, f: Finding)
    requires v.forceGlobalHold
    ensures !Gains(v)(f)
  {
  }

  lemma ProvedGains(alphabet: seq<Event>, v: Variant, s: State)
    requires s == State([], false, {0}, {0}, {(0, 0)}, {(0, 0)}) && Dma(1) in alphabet && !v.forceGlobalHold
    ensures FoundAt(alphabet, s, Gains(v))
  {
    var e, q := Dma(1), Query(true, 0, 0, 0);
    assert SourceLines(e) == [1];
    assert PrecisionGain(s, e, q, v) && Asked(q);
    assert Gains(v)(Finding(s, e, q));
  }

  lemma GainUnlessGlobal(alphabet: seq<Event>, v: Variant, depth: nat, d: nat)
    requires Rich(alphabet) && Dma(1) in alphabet && 2 <= d
    ensures GainWithin(alphabet, v, depth, d) <==> !v.forceGlobalHold
  {
    if v.forceGlobalHold {
      forall f ensures !Gains(v)(f) {
        GlobalGainsNothing(v, f);
      }
    } else {
      var d0, s := Prove(alphabet, v, depth);
      WithinMonotone(Successors(alphabet, v, depth), INITIAL, d0, d);
      ProvedGains(alphabet, v, s);
      assert At(alphabet, v, depth, d, s);
    }
  }

  /** Its precision search: a witness exactly when the bound holds one, by a shortest path, and from
      depth 2 on exactly for the variants without the global hold. */
  method CheckPrecision(alphabet: seq<Event>, v: Variant, maxDepth: nat)
      returns (r: Option<Finding>, path: seq<Event>)
    ensures r.Some? <==> GainWithin(alphabet, v, DEPTH, maxDepth)
    ensures r.Some? ==> r.value.event in alphabet && Asked(r.value.query)
                        && PrecisionGain(r.value.state, r.value.event, r.value.query, v)
    ensures r.Some? ==> Leads(Successors(alphabet, v, DEPTH), INITIAL, path, r.value.state) && |path| <= maxDepth
    ensures r.Some? ==> forall k: nat :: k < |path| ==> !GainWithin(alphabet, v, DEPTH, k)
    ensures Rich(alphabet) && Dma(1) in alphabet && 2 <= maxDepth ==> (r.None? <==> v.forceGlobalHold)
  {
    AllAsked();
    r, path := Report(alphabet, v, DEPTH, maxDepth, QUERIES, Gains(v));
    if Rich(alphabet) && Dma(1) in alphabet && 2 <= maxDepth {
      GainUnlessGlobal(alphabet, v, DEPTH, maxDepth);
    }
  }
}
