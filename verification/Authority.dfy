/** The COPPER authority machine: a source word, a committed proof guarded by a backend
    in-flight tag (CEPF), an address-space token (PASB), an exact target-line witness (CTLW)
    and the terminal-source rule. */
module Authority {
  import opened Options
  import opened Levels
  import Search

  datatype State = State(
    srcClean: bool, srcValue: int, srcEpoch: int, currentToken: int,
    proofValid: bool, proofValue: int, proofEpoch: int, proofToken: int, proofSound: bool,
    inflightValid: bool, inflightValue: int, inflightEpoch: int, inflightToken: int,
    targetSamePage: bool, candidateTarget: int,
    witnessValid: bool, witnessTarget: int, witnessToken: int,
    terminalSource: bool, issuedOnce: bool)

  const INITIAL := State(
    false, 0, 0, 0,
    false, 0, 0, 0, false,
    false, 0, 0, 0,
    true, 0,
    false, 0, 0,
    false, false)

  datatype Variant = Variant(
    requireCepf: bool, clearProofOnSourceUpdate: bool, requireExactSource: bool, requirePasb: bool,
    requireCtlw: bool, requireExactWitness: bool, invalidateWitnessOnRemap: bool, enforceTerminalStop: bool)

  datatype Label =
    | DemandLoad | CaptureTag | Commit | Squash | StoreOrFill | CoherenceOrDma | ContextSwitch
    | SamePage | CrossPage | CandidateChanges | RecordWitness | Remap | EvictWitness | Issue

  datatype Reason =
    | DirtySource | NoProof | UnsoundProof | SourceMismatch | TokenMismatch | TerminalChased | NoExactWitness

  predicate SourceExact(s: State) {
    s.proofValue == s.srcValue && s.proofEpoch == s.srcEpoch
  }

  predicate WitnessExact(s: State) {
    s.witnessValid && s.witnessTarget == s.candidateTarget && s.witnessToken == s.currentToken
  }

  predicate CanIssue(s: State, v: Variant) {
    if !s.srcClean || !s.proofValid then false
    else if v.requireExactSource && !SourceExact(s) then false
    else if v.requirePasb && s.proofToken != s.currentToken then false
    else if v.enforceTerminalStop && s.terminalSource then false
    else if !s.targetSamePage && v.requireCtlw then
      if v.requireExactWitness then WitnessExact(s) else s.witnessValid
    else true
  }

  function UnsafeReason(s: State): Option<Reason> {
    if !s.srcClean then Some(DirtySource)
    else if !s.proofValid then Some(NoProof)
    else if !s.proofSound then Some(UnsoundProof)
    else if !SourceExact(s) then Some(SourceMismatch)
    else if s.proofToken != s.currentToken then Some(TokenMismatch)
    else if s.terminalSource then Some(TerminalChased)
    else if !s.targetSamePage && !WitnessExact(s) then Some(NoExactWitness)
    else None
  }

  predicate UnsafeIssue(s: State, v: Variant) {
    CanIssue(s, v) && UnsafeReason(s).Some?
  }

  function SourceUpdate(s: State, v: Variant): State {
    var updated := s.(
      srcClean := if v.clearProofOnSourceUpdate then false else s.srcClean,
      srcValue := 1 - s.srcValue, srcEpoch := 1 - s.srcEpoch, terminalSource := false);
    if v.clearProofOnSourceUpdate then updated.(proofValid := false, proofSound := false) else updated
  }

  predicate CepfMatch(s: State) {
    && s.srcClean
    && s.inflightValue == s.srcValue && s.inflightEpoch == s.srcEpoch && s.inflightToken == s.currentToken
  }

  /** Whether the step `l` is offered in state `s`. */
  predicate Enabled(s: State, v: Variant, l: Label) {
    match l
    case Commit => s.inflightValid && (CepfMatch(s) || !v.requireCepf)
    case Squash => s.inflightValid
    case Issue => CanIssue(s, v)
    case _ => true
  }

  function Apply(s: State, v: Variant, l: Label): State {
    match l
    case DemandLoad => s.(srcClean := true, terminalSource := false)
    case CaptureTag =>
      s.(inflightValid := s.srcClean, inflightValue := s.srcValue, inflightEpoch := s.srcEpoch,
         inflightToken := s.currentToken)
    case Commit =>
      s.(proofValid := true, proofValue := s.srcValue, proofEpoch := s.srcEpoch, proofToken := s.currentToken,
         proofSound := CepfMatch(s), inflightValid := false)
    case Squash => s.(inflightValid := false)
    case StoreOrFill => SourceUpdate(s, v)
    case CoherenceOrDma => SourceUpdate(s, v)
    case ContextSwitch =>
      s.(currentToken := 1 - s.currentToken,
         witnessValid := if v.invalidateWitnessOnRemap then false else s.witnessValid)
    case SamePage => s.(targetSamePage := true)
    case CrossPage => s.(targetSamePage := false)
    case CandidateChanges => s.(candidateTarget := 1 - s.candidateTarget)
    case RecordWitness =>
      s.(witnessValid := true, witnessTarget := s.candidateTarget, witnessToken := s.currentToken)
    case Remap =>
      s.(candidateTarget := 1 - s.candidateTarget,
         witnessValid := if v.invalidateWitnessOnRemap then false else s.witnessValid)
    case EvictWitness => s.(witnessValid := false)
    case Issue => s.(terminalSource := !s.targetSamePage && s.witnessValid, issuedOnce := true)
  }

  const LABELS: seq<Label> :=
    [DemandLoad, CaptureTag, Commit, Squash, StoreOrFill, CoherenceOrDma, ContextSwitch,
     SamePage, CrossPage, CandidateChanges, RecordWitness, Remap, EvictWitness, Issue]

  function Offered(s: State, v: Variant, labels: seq<Label>): (out: seq<(Label, State)>)
    ensures forall i :: 0 <= i < |out| ==> Enabled(s, v, out[i].0) && out[i].1 == Apply(s, v, out[i].0)
    ensures forall l :: l in labels && Enabled(s, v, l) ==> (l, Apply(s, v, l)) in out
  {
    if labels == [] then []
    else
      var rest := Offered(s, v, labels[1..]);
      if Enabled(s, v, labels[0]) then [(labels[0], Apply(s, v, labels[0]))] + rest else rest
  }

  /** `successors`, as a function of the state. */
  function Successors(v: Variant): State -> seq<(Label, State)> {
    (s: State) => Offered(s, v, LABELS)
  }

  /** The successor list holds exactly the enabled steps. */
  lemma SuccessorsAreEnabledSteps(v: Variant, s: State)
    ensures forall i :: 0 <= i < |Successors(v)(s)| ==>
              Enabled(s, v, Successors(v)(s)[i].0) && Successors(v)(s)[i].1 == Apply(s, v, Successors(v)(s)[i].0)
    ensures forall l :: Enabled(s, v, l) ==> (l, Apply(s, v, l)) in Successors(v)(s)
  {
    forall l | Enabled(s, v, l) ensures (l, Apply(s, v, l)) in Offered(s, v, LABELS) {
      LabelListed(l);
    }
  }

  lemma LabelListed(l: Label)
    ensures l in LABELS
  {
    assert LABELS[0] == DemandLoad && LABELS[1] == CaptureTag && LABELS[2] == Commit && LABELS[3] == Squash;
    assert LABELS[4] == StoreOrFill && LABELS[5] == CoherenceOrDma && LABELS[6] == ContextSwitch;
    assert LABELS[7] == SamePage && LABELS[8] == CrossPage && LABELS[9] == CandidateChanges;
    assert LABELS[10] == RecordWitness && LABELS[11] == Remap && LABELS[12] == EvictWitness && LABELS[13] == Issue;
  }

  // ----- which flags are needed

  /** The combination of rules that keeps every run safe. */
  predicate Sufficient(v: Variant) {
    && v.requireCepf && v.requirePasb && v.requireCtlw && v.requireExactWitness && v.enforceTerminalStop
    && (v.clearProofOnSourceUpdate || v.requireExactSource)
  }

  /** A stored proof is sound and, unless the gate compares it, matches the source word. */
  ghost predicate ProofInvariant(v: Variant, s: State) {
    s.proofValid ==> s.proofSound && (v.clearProofOnSourceUpdate ==> SourceExact(s))
  }

  lemma StepKeepsProof(v: Variant, s: State, l: Label)
    requires Sufficient(v) && ProofInvariant(v, s) && Enabled(s, v, l)
    ensures ProofInvariant(v, Apply(s, v, l))
  {
  }

  lemma SufficientIsSafe(v: Variant, d: nat, s: State)
    requires Sufficient(v) && s in Within(Successors(v), INITIAL, d)
    ensures !UnsafeIssue(s, v)
  {
    var inv := (t: State) => ProofInvariant(v, t);
    var succ := Successors(v);
    forall t, i | inv(t) && 0 <= i < |succ(t)| ensures inv(succ(t)[i].1) {
      SuccessorsAreEnabledSteps(v, t);
      StepKeepsProof(v, t, succ(t)[i].0);
    }
    InvariantWithin(succ, INITIAL, inv, d);
    assert inv(s);
  }

  /** Taking one enabled step. */
  lemma Advance(v: Variant, d: nat, s: State, l: Label) returns (d': nat, t: State)
    requires s in Within(Successors(v), INITIAL, d) && Enabled(s, v, l)
    ensures d' == d + 1 && t == Apply(s, v, l) && t in Within(Successors(v), INITIAL, d')
  {
    d', t := d + 1, Apply(s, v, l);
    SuccessorsAreEnabledSteps(v, s);
    var succ := Successors(v);
    var i :| 0 <= i < |succ(s)| && succ(s)[i] == (l, t);
    StepWithin(succ, INITIAL, d, s, i);
  }

  lemma Begin(v: Variant) returns (d: nat, s: State)
    ensures d == 0 && s == INITIAL && s in Within(Successors(v), INITIAL, d)
  {
    d, s := 0, INITIAL;
  }

  /** The common prefix of the attacks: a sound committed proof for the current word. */
  lemma CommitSoundProof(v: Variant) returns (d: nat, s: State)
    ensures d == 3 && s in Within(Successors(v), INITIAL, d)
    ensures s == INITIAL.(srcClean := true, proofValid := true, proofSound := true)
  {
    d, s := Begin(v);
    d, s := Advance(v, d, s, DemandLoad);
    d, s := Advance(v, d, s, CaptureTag);
    d, s := Advance(v, d, s, Commit);
  }

  /** ... followed by a witness for the candidate, which then lies on another page. */
  lemma WitnessCrossPage(v: Variant) returns (d: nat, s: State)
    ensures d == 5 && s in Within(Successors(v), INITIAL, d)
    ensures s == INITIAL.(srcClean := true, proofValid := true, proofSound := true,
                          witnessValid := true, targetSamePage := false)
  {
    d, s := CommitSoundProof(v);
    d, s := Advance(v, d, s, RecordWitness);
    d, s := Advance(v, d, s, CrossPage);
  }

  lemma UnsafeSource(v: Variant) returns (d: nat, s: State)
    requires !v.requireCepf || !(v.clearProofOnSourceUpdate || v.requireExactSource) || !v.requirePasb
    ensures d <= 6 && s in Within(Successors(v), INITIAL, d) && UnsafeIssue(s, v)
  {
    if !v.requireCepf {
      d, s := Begin(v);
      d, s := Advance(v, d, s, DemandLoad);
      d, s := Advance(v, d, s, CaptureTag);
      d, s := Advance(v, d, s, StoreOrFill);
      d, s := Advance(v, d, s, DemandLoad);
      d, s := Advance(v, d, s, Commit);
    } else {
      d, s := CommitSoundProof(v);
      d, s := Advance(v, d, s, if v.requirePasb then StoreOrFill else ContextSwitch);
    }
  }

  lemma UnsafeWithoutCtlw(v: Variant) returns (d: nat, s: State)
    requires !v.requireCtlw
    ensures d <= 6 && s in Within(Successors(v), INITIAL, d) && UnsafeIssue(s, v)
  {
    d, s := CommitSoundProof(v);
    d, s := Advance(v, d, s, CrossPage);
  }

  lemma UnsafeWithoutExactWitness(v: Variant) returns (d: nat, s: State)
    requires !v.requireExactWitness
    ensures d <= 6 && s in Within(Successors(v), INITIAL, d) && UnsafeIssue(s, v)
  {
    d, s := WitnessCrossPage(v);
    d, s := Advance(v, d, s, CandidateChanges);
  }

  lemma UnsafeWithoutTerminalStop(v: Variant) returns (d: nat, s: State)
    requires !v.enforceTerminalStop
    ensures d <= 6 && s in Within(Successors(v), INITIAL, d) && UnsafeIssue(s, v)
  {
    d, s := WitnessCrossPage(v);
    d, s := Advance(v, d, s, Issue);
  }

  /** Every variant outside `Sufficient` reaches an unsafe issue in at most six steps. */
  lemma UnsafeWithinSix(v: Variant) returns (d: nat, s: State)
    requires !Sufficient(v)
    ensures d <= 6 && s in Within(Successors(v), INITIAL, d) && UnsafeIssue(s, v)
  {
    if !v.requireCtlw {
      d, s := UnsafeWithoutCtlw(v);
    } else if !v.requireExactWitness {
      d, s := UnsafeWithoutExactWitness(v);
    } else if !v.enforceTerminalStop {
      d, s := UnsafeWithoutTerminalStop(v);
    } else {
      d, s := UnsafeSource(v);
    }
  }

  /** Over all 256 flag settings and all runs of any length: safe exactly when `Sufficient`. */
  lemma SafeIff(v: Variant)
    ensures Sufficient(v) <==> forall s :: Reachable(Successors(v), INITIAL, s) ==> !UnsafeIssue(s, v)
  {
    if Sufficient(v) {
      forall s | Reachable(Successors(v), INITIAL, s) ensures !UnsafeIssue(s, v) {
        var d: nat :| s in Within(Successors(v), INITIAL, d);
        SufficientIsSafe(v, d, s);
      }
    } else {
      var d, s := UnsafeWithinSix(v);
      assert Reachable(Successors(v), INITIAL, s);
    }
  }

  /** The bounded verdict: from depth 6 on it is the verdict over all runs. */
  lemma BoundedVerdict(v: Variant, maxDepth: nat)
    ensures Sufficient(v) ==> Search.NoneWithin(Successors(v), INITIAL, (s: State) => UnsafeIssue(s, v), maxDepth)
    ensures !Sufficient(v) && 6 <= maxDepth ==>
              !Search.NoneWithin(Successors(v), INITIAL, (s: State) => UnsafeIssue(s, v), maxDepth)
  {
    var bad := (s: State) => UnsafeIssue(s, v);
    if Sufficient(v) {
      forall s | s in Within(Successors(v), INITIAL, maxDepth) ensures !bad(s) {
        SufficientIsSafe(v, maxDepth, s);
      }
    } else if 6 <= maxDepth {
      var d, s := UnsafeWithinSix(v);
      WithinMonotone(Successors(v), INITIAL, d, maxDepth);
      assert bad(s);
    }
  }

  /** `check_variant`.  A reported trace is a shortest counterexample, and at depth 6 or more (the
      program uses 12) the variant passes exactly when no run of any length is unsafe. */
  method CheckVariant(v: Variant, maxDepth: nat) returns (ok: bool, explored: nat, trace: seq<Label>, culprit: State)
    ensures ok <==> Search.NoneWithin(Successors(v), INITIAL, (s: State) => UnsafeIssue(s, v), maxDepth)
    ensures 6 <= maxDepth ==> (ok <==> Sufficient(v))
    ensures ok ==> explored == |Within(Successors(v), INITIAL, maxDepth)| && trace == []
    ensures !ok ==> |trace| <= maxDepth && Search.ShortestCounterexample(
                        Successors(v), INITIAL, (s: State) => UnsafeIssue(s, v), trace, culprit)
  {
    ok, explored, trace, culprit :=
      Search.CheckBounded(INITIAL, Successors(v), (s: State) => UnsafeIssue(s, v), maxDepth);
    BoundedVerdict(v, maxDepth);
  }
}
