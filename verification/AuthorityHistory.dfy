/** What one-bit epochs can and cannot promise.

    The authority machine compares source words by a value bit and an epoch bit, which repeat
    after two updates.  Here every state carries unbounded counters, so that "newer than the last
    update" can be said about whole runs. */
module AuthorityHistory {
  import opened Options
  import opened Levels
  import opened Authority

  /** `updates` and `remaps` count events; the other fields hold the count at which the in-flight
      tag was captured, the stored proof was committed, its tag was captured, and the witness was
      recorded. */
  datatype History = History(
    state: State, updates: nat, tagAt: nat, proofAt: nat, proofTagAt: nat, remaps: nat, witnessAt: nat)

  const START := History(INITIAL, 0, 0, 0, 0, 0, 0)

  ghost function Record(h: History, v: Variant, l: Label): History {
    var next := h.(state := Apply(h.state, v, l));
    match l
    case CaptureTag => next.(tagAt := h.updates)
    case Commit => next.(proofAt := h.updates, proofTagAt := h.tagAt)
    case StoreOrFill => next.(updates := h.updates + 1)
    case CoherenceOrDma => next.(updates := h.updates + 1)
    case RecordWitness => next.(witnessAt := h.remaps)
    case Remap => next.(remaps := h.remaps + 1)
    case _ => next
  }

  ghost function Recorded(h: History, v: Variant, steps: seq<(Label, State)>): seq<(Label, History)> {
    seq(|steps|, i requires 0 <= i < |steps| => (steps[i].0, Record(h, v, steps[i].0)))
  }

  ghost function Histories(v: Variant): History -> seq<(Label, History)> {
    (h: History) => Recorded(h, v, Successors(v)(h.state))
  }

  lemma HistoryStep(v: Variant, h: History, i: nat)
    requires i < |Histories(v)(h)|
    ensures i < |Successors(v)(h.state)|
    ensures var l := Histories(v)(h)[i].0;
            Enabled(h.state, v, l) && Histories(v)(h)[i].1 == Record(h, v, l)
            && Histories(v)(h)[i].1.state == Successors(v)(h.state)[i].1
  {
    SuccessorsAreEnabledSteps(v, h.state);
  }

  /** The counters only watch: the runs are those of the authority machine. */
  lemma HistoryFaithful(v: Variant, d: nat, s: State)
    ensures s in Within(Successors(v), INITIAL, d) <==> exists h :: h in Within(Histories(v), START, d) && h.state == s
  {
    var hist, succ, view := Histories(v), Successors(v), (h: History) => h.state;
    assert Mirrors(hist, succ, view) by {
      forall h, i | 0 <= i < |hist(h)|
        ensures |hist(h)| == |succ(view(h))| && view(hist(h)[i].1) == succ(view(h))[i].1 {
        HistoryStep(v, h, i);
      }
    }
    if s in Within(succ, INITIAL, d) {
      var h := WithinHasHistory(hist, succ, view, START, d, s);
    }
    forall h | h in Within(hist, START, d) && h.state == s ensures s in Within(succ, INITIAL, d) {
      ViewIsWithin(hist, succ, view, START, d, h);
    }
  }

  // ----- parity: all that the one-bit fields know

  ghost predicate Parity(h: History) {
    && h.state.srcValue == h.state.srcEpoch == h.updates % 2
    && h.state.inflightValue == h.state.inflightEpoch == h.tagAt % 2 && h.tagAt <= h.updates
    && h.state.proofValue == h.state.proofEpoch == h.proofAt % 2 && h.proofAt <= h.updates
  }

  lemma {:induction false} ParityHolds(v: Variant, d: nat, h: History)
    requires h in Within(Histories(v), START, d)
    ensures Parity(h)
  {
    var inv := (g: History) => Parity(g);
    var hist := Histories(v);
    forall g, i | inv(g) && 0 <= i < |hist(g)| ensures inv(hist(g)[i].1) {
      HistoryStep(v, g, i);
      ParityStep(v, g, hist(g)[i].0);
    }
    InvariantWithin(hist, START, inv, d);
    assert inv(h);
  }

  /** What a step does to the compared fields. */
  lemma FieldsStep(v: Variant, s: State, l: Label)
    ensures var t := Apply(s, v, l);
            var update := l == StoreOrFill || l == CoherenceOrDma;
            && t.srcValue == (if update then 1 - s.srcValue else s.srcValue)
            && t.srcEpoch == (if update then 1 - s.srcEpoch else s.srcEpoch)
            && t.inflightValue == (if l == CaptureTag then s.srcValue else s.inflightValue)
            && t.inflightEpoch == (if l == CaptureTag then s.srcEpoch else s.inflightEpoch)
            && t.proofValue == (if l == Commit then s.srcValue else s.proofValue)
            && t.proofEpoch == (if l == Commit then s.srcEpoch else s.proofEpoch)
  {
  }

  /** ... and to the counters. */
  lemma CountersStep(v: Variant, h: History, l: Label)
    ensures var g := Record(h, v, l);
            && g.state == Apply(h.state, v, l)
            && g.updates == (if l == StoreOrFill || l == CoherenceOrDma then h.updates + 1 else h.updates)
            && g.tagAt == (if l == CaptureTag then h.updates else h.tagAt)
            && g.proofAt == (if l == Commit then h.updates else h.proofAt)
  {
  }

  lemma NextParity(n: nat)
    ensures (n + 1) % 2 == 1 - n % 2
  {
  }

  lemma ParityStep(v: Variant, h: History, l: Label)
    requires Parity(h)
    ensures Parity(Record(h, v, l))
  {
    FieldsStep(v, h.state, l);
    CountersStep(v, h, l);
    NextParity(h.updates);
  }

  /** In every run the gate's comparisons hold exactly when the number of updates in between is even. */
  lemma ComparisonsAreParity(v: Variant, d: nat, h: History)
    requires h in Within(Histories(v), START, d)
    ensures SourceExact(h.state) <==> (h.updates - h.proofAt) % 2 == 0
    ensures CepfMatch(h.state) <==>
            h.state.srcClean && h.state.inflightToken == h.state.currentToken && (h.updates - h.tagAt) % 2 == 0
  {
    ParityHolds(v, d, h);
  }

  /** A matching tag was captured from the current source word exactly when fewer than two updates
      happened since; a matching proof likewise. */
  lemma MatchIsCurrentIff(v: Variant, d: nat, h: History)
    requires h in Within(Histories(v), START, d)
    ensures CepfMatch(h.state) ==> (h.tagAt == h.updates <==> h.updates < h.tagAt + 2)
    ensures SourceExact(h.state) ==> (h.proofAt == h.updates <==> h.updates < h.proofAt + 2)
  {
    ParityHolds(v, d, h);
  }

  // ----- freshness of the proof and of the witness

  /** The issue uses a proof older than the last source update, or a cross-page witness older than
      the last remap. */
  predicate StaleUse(h: History) {
    h.proofAt != h.updates || (!h.state.targetSamePage && h.witnessAt != h.remaps)
  }

  predicate UnsafeOrStale(h: History, v: Variant) {
    CanIssue(h.state, v) && (UnsafeReason(h.state).Some? || StaleUse(h))
  }

  predicate Fresh(v: Variant) {
    Sufficient(v) && v.clearProofOnSourceUpdate && v.invalidateWitnessOnRemap
  }

  ghost predicate FreshInvariant(v: Variant, h: History) {
    && ProofInvariant(v, h.state)
    && (h.state.proofValid ==> h.proofAt == h.updates)
    && (h.state.witnessValid ==> h.witnessAt == h.remaps)
  }

  lemma FreshIsSafe(v: Variant, d: nat, h: History)
    requires Fresh(v) && h in Within(Histories(v), START, d)
    ensures !UnsafeOrStale(h, v)
  {
    var inv := (g: History) => FreshInvariant(v, g);
    var hist := Histories(v);
    forall g, i | inv(g) && 0 <= i < |hist(g)| ensures inv(hist(g)[i].1) {
      HistoryStep(v, g, i);
      FreshStep(v, g, hist(g)[i].0);
    }
    InvariantWithin(hist, START, inv, d);
    assert inv(h);
  }

  lemma FreshStep(v: Variant, h: History, l: Label)
    requires Fresh(v) && FreshInvariant(v, h) && Enabled(h.state, v, l)
    ensures FreshInvariant(v, Record(h, v, l))
  {
    StepKeepsProof(v, h.state, l);
  }

  lemma Advance(v: Variant, d: nat, h: History, l: Label) returns (d': nat, g: History)
    requires h in Within(Histories(v), START, d) && Enabled(h.state, v, l)
    ensures d' == d + 1 && g == Record(h, v, l) && g in Within(Histories(v), START, d')
  {
    d', g := d + 1, Record(h, v, l);
    SuccessorsAreEnabledSteps(v, h.state);
    var i :| 0 <= i < |Successors(v)(h.state)| && Successors(v)(h.state)[i] == (l, Apply(h.state, v, l));
    StepWithin(Histories(v), START, d, h, i);
  }

  lemma CommitProof(v: Variant) returns (d: nat, h: History)
    ensures d == 3 && h in Within(Histories(v), START, d)
    ensures h == START.(state := INITIAL.(srcClean := true, proofValid := true, proofSound := true))
  {
    d, h := 0, START;
    d, h := Advance(v, d, h, DemandLoad);
    d, h := Advance(v, d, h, CaptureTag);
    d, h := Advance(v, d, h, Commit);
  }

  /** Two updates bring the value and the epoch bit back. */
  lemma StaleProof(v: Variant) returns (d: nat, h: History)
    requires !v.clearProofOnSourceUpdate
    ensures h in Within(Histories(v), START, d) && UnsafeOrStale(h, v)
  {
    d, h := CommitProof(v);
    d, h := UpdateTwice(v, d, h);
  }

  lemma UpdateTwice(v: Variant, d: nat, h: History) returns (d': nat, g: History)
    requires h in Within(Histories(v), START, d) && h.state.srcValue == h.state.srcEpoch == 0
    ensures g in Within(Histories(v), START, d') && g.updates == h.updates + 2
    ensures g == h.(updates := g.updates, state := SourceUpdate(SourceUpdate(h.state, v), v))
  {
    d', g := Advance(v, d, h, StoreOrFill);
    d', g := Advance(v, d', g, StoreOrFill);
  }

  lemma WitnessCrossPage(v: Variant) returns (d: nat, h: History)
    ensures h in Within(Histories(v), START, d)
    ensures h == START.(state := INITIAL.(srcClean := true, proofValid := true, proofSound := true,
                                          witnessValid := true, targetSamePage := false))
  {
    d, h := CommitProof(v);
    d, h := Advance(v, d, h, RecordWitness);
    d, h := Advance(v, d, h, CrossPage);
  }

  /** A remap followed by a change of candidate brings the target bit back. */
  lemma StaleWitness(v: Variant) returns (d: nat, h: History)
    requires !v.invalidateWitnessOnRemap
    ensures h in Within(Histories(v), START, d) && UnsafeOrStale(h, v)
  {
    d, h := WitnessCrossPage(v);
    d, h := RemapAndBack(v, d, h);
  }

  lemma RemapAndBack(v: Variant, d: nat, h: History) returns (d': nat, g: History)
    requires !v.invalidateWitnessOnRemap && h in Within(Histories(v), START, d) && h.state.candidateTarget == 0
    ensures g in Within(Histories(v), START, d') && g == h.(remaps := h.remaps + 1)
  {
    d', g := Advance(v, d, h, Remap);
    d', g := Advance(v, d', g, CandidateChanges);
  }

  /** Over whole runs, no issue is unsafe or uses stale authority exactly when the sufficient rules
      hold and both invalidations are performed: comparing bits cannot replace them. */
  lemma FreshIff(v: Variant)
    ensures Fresh(v) <==> forall h :: Reachable(Histories(v), START, h) ==> !UnsafeOrStale(h, v)
  {
    if Fresh(v) {
      forall h | Reachable(Histories(v), START, h) ensures !UnsafeOrStale(h, v) {
        var d: nat :| h in Within(Histories(v), START, d);
        FreshIsSafe(v, d, h);
      }
    } else if !v.clearProofOnSourceUpdate {
      var d, h := StaleProof(v);
      assert Reachable(Histories(v), START, h);
    } else if !v.invalidateWitnessOnRemap {
      var d, h := StaleWitness(v);
      assert Reachable(Histories(v), START, h);
    } else {
      var d, s := UnsafeWithinSix(v);
      HistoryFaithful(v, d, s);
      var h :| h in Within(Histories(v), START, d) && h.state == s;
      assert Reachable(Histories(v), START, h) && UnsafeOrStale(h, v);
    }
  }

  /** CEPF has the same blind spot in every variant, the full one included: a tag captured two
      updates ago still commits a proof that the machine calls sound, and the issue is allowed. */
  lemma StaleTagCommits(v: Variant)
    ensures exists h :: Reachable(Histories(v), START, h) && CanIssue(h.state, v) && UnsafeReason(h.state).None?
                        && h.proofTagAt != h.updates
  {
    var d, h := 0, START;
    d, h := Advance(v, d, h, DemandLoad);
    d, h := Advance(v, d, h, CaptureTag);
    d, h := UpdateTwice(v, d, h);
    h := CommitOldTag(v, d, h);
  }

  lemma CommitOldTag(v: Variant, d: nat, h: History) returns (g: History)
    requires h in Within(Histories(v), START, d) && h.tagAt != h.updates
    requires h.state.inflightValid && h.state.targetSamePage && !h.state.proofValid
    requires h.state.inflightValue == h.state.srcValue && h.state.inflightEpoch == h.state.srcEpoch
    requires h.state.inflightToken == h.state.currentToken
    ensures Reachable(Histories(v), START, g) && CanIssue(g.state, v) && UnsafeReason(g.state).None?
            && g.proofTagAt != g.updates
  {
    var d' := d;
    d', g := Advance(v, d', h, DemandLoad);
    d', g := Advance(v, d', g, Commit);
  }
}
