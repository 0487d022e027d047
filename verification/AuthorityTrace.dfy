/** The authority machine read off its trace of steps: where every field of the state comes from. */
module AuthorityTrace {
  import opened Levels
  import opened Histories
  import opened Options
  import opened Authority
  import AuthorityHistory

  ghost function After(v: Variant, trace: seq<Label>): State {
    if trace == [] then INITIAL else Apply(After(v, trace[..|trace| - 1]), v, trace[|trace| - 1])
  }

  /** Every step is offered in the state it starts from. */
  ghost predicate Offers(v: Variant, trace: seq<Label>) {
    trace != [] ==>
      Offers(v, trace[..|trace| - 1]) && Enabled(After(v, trace[..|trace| - 1]), v, trace[|trace| - 1])
  }

  lemma SuccessorIff(v: Variant, s: State, l: Label, t: State)
    ensures (l, t) in Successors(v)(s) <==> Enabled(s, v, l) && t == Apply(s, v, l)
  {
    SuccessorsAreEnabledSteps(v, s);
  }

  /** The machine's runs are exactly the offered traces. */
  lemma {:induction false} TracesAreRuns(v: Variant, trace: seq<Label>, s: State)
    ensures Leads(Successors(v), INITIAL, trace, s) <==> Offers(v, trace) && After(v, trace) == s
    decreases |trace|
  {
    if trace != [] {
      var front, l := trace[..|trace| - 1], trace[|trace| - 1];
      var before := After(v, front);
      TracesAreRuns(v, front, before);
      SuccessorIff(v, before, l, s);
      forall t | Leads(Successors(v), INITIAL, front, t) ensures t == before {
        TracesAreRuns(v, front, t);
      }
    }
  }

  /** ... and a state lies within `d` steps exactly when one of at most that length ends there. */
  lemma WithinIffTrace(v: Variant, d: nat, s: State)
    ensures s in Within(Successors(v), INITIAL, d)
            <==> exists trace :: |trace| <= d && Offers(v, trace) && After(v, trace) == s
  {
    if s in Within(Successors(v), INITIAL, d) {
      var trace := WithinLeads(Successors(v), INITIAL, d, s);
      TracesAreRuns(v, trace, s);
    }
    forall trace | |trace| <= d && Offers(v, trace) && After(v, trace) == s
      ensures s in Within(Successors(v), INITIAL, d) {
      TracesAreRuns(v, trace, s);
      LeadsIsWithin(Successors(v), INITIAL, trace, s);
      WithinMonotone(Successors(v), INITIAL, |trace|, d);
    }
  }

  // ----- flags

  function Is(wanted: Label): Label -> bool {
    (l: Label) => l == wanted
  }

  /** The source word is written. */
  predicate IsUpdate(l: Label) {
    l == StoreOrFill || l == CoherenceOrDma
  }

  function Updates(): Label -> bool {
    (l: Label) => IsUpdate(l)
  }

  function ClearsProof(v: Variant): Label -> bool {
    (l: Label) => v.clearProofOnSourceUpdate && IsUpdate(l)
  }

  function EndsWitness(v: Variant): Label -> bool {
    (l: Label) => l == EvictWitness || (v.invalidateWitnessOnRemap && (l == Remap || l == ContextSwitch))
  }

  lemma CleanStep(s: State, v: Variant, l: Label)
    ensures Apply(s, v, l).srcClean <==> l == DemandLoad || (s.srcClean && !ClearsProof(v)(l))
  {
    match l
    case StoreOrFill =>
    case CoherenceOrDma =>
    case Commit =>
    case _ =>
  }

  lemma ProofStep(s: State, v: Variant, l: Label)
    ensures Apply(s, v, l).proofValid <==> l == Commit || (s.proofValid && !ClearsProof(v)(l))
  {
    match l
    case StoreOrFill =>
    case CoherenceOrDma =>
    case Commit =>
    case _ =>
  }

  lemma WitnessStep(s: State, v: Variant, l: Label)
    ensures Apply(s, v, l).witnessValid <==> l == RecordWitness || (s.witnessValid && !EndsWitness(v)(l))
  {
    match l
    case StoreOrFill =>
    case CoherenceOrDma =>
    case Commit =>
    case _ =>
  }

  lemma PageStep(s: State, v: Variant, l: Label)
    ensures !Apply(s, v, l).targetSamePage <==> l == CrossPage || (!s.targetSamePage && l != SamePage)
  {
    match l
    case StoreOrFill =>
    case CoherenceOrDma =>
    case Commit =>
    case _ =>
  }

  lemma IssuedStep(s: State, v: Variant, l: Label)
    ensures Apply(s, v, l).issuedOnce <==> l == Issue || s.issuedOnce
  {
    match l
    case StoreOrFill =>
    case CoherenceOrDma =>
    case Commit =>
    case _ =>
  }

  /** The line is clean exactly when it was loaded and, where updates clear it, not updated since. */
  lemma {:induction false} CleanIff(v: Variant, trace: seq<Label>)
    ensures After(v, trace).srcClean <==> Raised(trace, Is(DemandLoad), ClearsProof(v))
    decreases |trace|
  {
    if trace != [] {
      var front, l := trace[..|trace| - 1], trace[|trace| - 1];
      assert trace == front + [l];
      CleanStep(After(v, front), v, l);
      CleanIff(v, front);
      RaisedNext(front, Is(DemandLoad), ClearsProof(v), l);
    }
  }

  /** A proof is stored exactly when one was committed and, where updates clear it, no update came since. */
  lemma {:induction false} ProofIff(v: Variant, trace: seq<Label>)
    ensures After(v, trace).proofValid <==> Raised(trace, Is(Commit), ClearsProof(v))
    decreases |trace|
  {
    if trace != [] {
      var front, l := trace[..|trace| - 1], trace[|trace| - 1];
      assert trace == front + [l];
      ProofStep(After(v, front), v, l);
      ProofIff(v, front);
      RaisedNext(front, Is(Commit), ClearsProof(v), l);
    }
  }

  /** A witness is held exactly when one was recorded, not evicted since, and, where that invalidates it,
      neither the mapping nor the address space changed since. */
  lemma {:induction false} WitnessIff(v: Variant, trace: seq<Label>)
    ensures After(v, trace).witnessValid <==> Raised(trace, Is(RecordWitness), EndsWitness(v))
    decreases |trace|
  {
    if trace != [] {
      var front, l := trace[..|trace| - 1], trace[|trace| - 1];
      assert trace == front + [l];
      WitnessStep(After(v, front), v, l);
      WitnessIff(v, front);
      RaisedNext(front, Is(RecordWitness), EndsWitness(v), l);
    }
  }

  /** The candidate lies on another page exactly when it crossed and has not come back since. */
  lemma {:induction false} CrossPageIff(v: Variant, trace: seq<Label>)
    ensures !After(v, trace).targetSamePage <==> Raised(trace, Is(CrossPage), Is(SamePage))
    decreases |trace|
  {
    if trace != [] {
      var front, l := trace[..|trace| - 1], trace[|trace| - 1];
      assert trace == front + [l];
      PageStep(After(v, front), v, l);
      CrossPageIff(v, front);
      RaisedNext(front, Is(CrossPage), Is(SamePage), l);
    }
  }

  lemma {:induction false} IssuedIff(v: Variant, trace: seq<Label>)
    ensures After(v, trace).issuedOnce <==> Issue in trace
    decreases |trace|
  {
    if trace != [] {
      var front, l := trace[..|trace| - 1], trace[|trace| - 1];
      assert trace == front + [l];
      IssuedStep(After(v, front), v, l);
      IssuedIff(v, front);
    }
  }

  // ----- one-bit counters

  function MovesCandidate(): Label -> bool {
    (l: Label) => l == CandidateChanges || l == Remap
  }

  /** Each bit is the parity of the steps that toggle it. */
  lemma {:induction false} BitsAreParities(v: Variant, trace: seq<Label>)
    ensures var s := After(v, trace);
            && s.srcValue == s.srcEpoch == Count(trace, Updates()) % 2
            && s.currentToken == Count(trace, Is(ContextSwitch)) % 2
            && s.candidateTarget == Count(trace, MovesCandidate()) % 2
    decreases |trace|
  {
    if trace != [] {
      var front, l := trace[..|trace| - 1], trace[|trace| - 1];
      BitsAreParities(v, front);
      AuthorityHistory.FieldsStep(v, After(v, front), l);
      TokenBitStep(After(v, front), v, l);
      TargetBitStep(After(v, front), v, l);
      AuthorityHistory.NextParity(Count(front, Updates()));
      AuthorityHistory.NextParity(Count(front, Is(ContextSwitch)));
      AuthorityHistory.NextParity(Count(front, MovesCandidate()));
    }
  }

  lemma TokenBitStep(s: State, v: Variant, l: Label)
    ensures Apply(s, v, l).currentToken == if l == ContextSwitch then 1 - s.currentToken else s.currentToken
  {
    match l
    case StoreOrFill =>
    case CoherenceOrDma =>
    case Commit =>
    case _ =>
  }

  lemma TargetBitStep(s: State, v: Variant, l: Label)
    ensures Apply(s, v, l).candidateTarget
            == if l == CandidateChanges || l == Remap then 1 - s.candidateTarget else s.candidateTarget
  {
    match l
    case StoreOrFill =>
    case CoherenceOrDma =>
    case Commit =>
    case _ =>
  }

  // ----- what was captured

  /** The last occurrence of a step. */
  ghost predicate LastAt(trace: seq<Label>, l: Label, k: nat) {
    k < |trace| && trace[k] == l && forall j :: k < j < |trace| ==> trace[j] != l
  }

  lemma LastFront(trace: seq<Label>, l: Label, k: nat)
    requires LastAt(trace, l, k) && k + 1 < |trace|
    ensures LastAt(trace[..|trace| - 1], l, k) && trace[|trace| - 1] != l
    ensures trace[..|trace| - 1][..k] == trace[..k]
  {
  }

  lemma TagFieldsStep(s: State, v: Variant, l: Label)
    ensures Apply(s, v, l).inflightValue == if l == CaptureTag then s.srcValue else s.inflightValue
    ensures Apply(s, v, l).inflightEpoch == if l == CaptureTag then s.srcEpoch else s.inflightEpoch
    ensures Apply(s, v, l).inflightToken == if l == CaptureTag then s.currentToken else s.inflightToken
  {
    match l
    case StoreOrFill =>
    case CoherenceOrDma =>
    case Commit =>
    case _ =>
  }

  lemma ProofFieldsStep(s: State, v: Variant, l: Label)
    ensures Apply(s, v, l).proofValue == if l == Commit then s.srcValue else s.proofValue
    ensures Apply(s, v, l).proofEpoch == if l == Commit then s.srcEpoch else s.proofEpoch
    ensures Apply(s, v, l).proofToken == if l == Commit then s.currentToken else s.proofToken
  {
    match l
    case StoreOrFill =>
    case CoherenceOrDma =>
    case Commit =>
    case _ =>
  }

  lemma WitnessFieldsStep(s: State, v: Variant, l: Label)
    ensures Apply(s, v, l).witnessTarget == if l == RecordWitness then s.candidateTarget else s.witnessTarget
    ensures Apply(s, v, l).witnessToken == if l == RecordWitness then s.currentToken else s.witnessToken
  {
    match l
    case StoreOrFill =>
    case CoherenceOrDma =>
    case Commit =>
    case _ =>
  }

  /** Whatever was tagged holds the source word and the token of its last capture. */
  lemma {:induction false} TagIsLastCapture(v: Variant, trace: seq<Label>, k: nat)
    requires LastAt(trace, CaptureTag, k)
    ensures var s, t := After(v, trace), After(v, trace[..k]);
            s.inflightValue == t.srcValue && s.inflightEpoch == t.srcEpoch && s.inflightToken == t.currentToken
    decreases |trace|
  {
    TagFieldsStep(After(v, trace[..|trace| - 1]), v, trace[|trace| - 1]);
    if k + 1 < |trace| {
      LastFront(trace, CaptureTag, k);
      TagIsLastCapture(v, trace[..|trace| - 1], k);
    }
  }

  /** A stored proof holds the source word and the token of its commit. */
  lemma {:induction false} ProofIsLastCommit(v: Variant, trace: seq<Label>, k: nat)
    requires LastAt(trace, Commit, k)
    ensures var s, t := After(v, trace), After(v, trace[..k]);
            s.proofValue == t.srcValue && s.proofEpoch == t.srcEpoch && s.proofToken == t.currentToken
    decreases |trace|
  {
    ProofFieldsStep(After(v, trace[..|trace| - 1]), v, trace[|trace| - 1]);
    if k + 1 < |trace| {
      LastFront(trace, Commit, k);
      ProofIsLastCommit(v, trace[..|trace| - 1], k);
    }
  }

  /** A witness holds the candidate and the token of its recording. */
  lemma {:induction false} WitnessIsLastRecord(v: Variant, trace: seq<Label>, k: nat)
    requires LastAt(trace, RecordWitness, k)
    ensures var s, t := After(v, trace), After(v, trace[..k]);
            s.witnessTarget == t.candidateTarget && s.witnessToken == t.currentToken
    decreases |trace|
  {
    WitnessFieldsStep(After(v, trace[..|trace| - 1]), v, trace[|trace| - 1]);
    if k + 1 < |trace| {
      LastFront(trace, RecordWitness, k);
      WitnessIsLastRecord(v, trace[..|trace| - 1], k);
    }
  }

  predicate EndsTag(l: Label) {
    l == CaptureTag || l == Commit || l == Squash
  }

  ghost predicate TagHeld(v: Variant, trace: seq<Label>, k: nat) {
    && k < |trace| && trace[k] == CaptureTag && After(v, trace[..k]).srcClean
    && forall j :: k < j < |trace| ==> !EndsTag(trace[j])
  }

  lemma TagHeldNext(v: Variant, trace: seq<Label>, l: Label, k: nat)
    requires k < |trace|
    ensures TagHeld(v, trace + [l], k) <==> TagHeld(v, trace, k) && !EndsTag(l)
  {
    var longer := trace + [l];
    assert longer[..k] == trace[..k] && longer[|trace|] == l;
    assert forall j :: 0 <= j < |trace| ==> longer[j] == trace[j];
  }

  ghost predicate Tagged(v: Variant, trace: seq<Label>) {
    exists k: nat :: TagHeld(v, trace, k)
  }

  /** A tag is in flight exactly when it was captured from a clean line and neither captured again,
      committed nor squashed since. */
  lemma {:induction false} TagIff(v: Variant, trace: seq<Label>)
    ensures After(v, trace).inflightValid <==> Tagged(v, trace)
    decreases |trace|
  {
    if trace != [] {
      var front, l := trace[..|trace| - 1], trace[|trace| - 1];
      assert trace == front + [l];
      TagIff(v, front);
      TaggedNext(v, front, l);
      TagStep(After(v, front), v, l);
    }
  }

  lemma TagStep(s: State, v: Variant, l: Label)
    ensures Apply(s, v, l).inflightValid == if l == CaptureTag then s.srcClean else s.inflightValid && !EndsTag(l)
  {
    match l
    case StoreOrFill =>
    case CoherenceOrDma =>
    case Commit =>
    case _ =>
  }

  lemma TaggedNext(v: Variant, trace: seq<Label>, l: Label)
    ensures Tagged(v, trace + [l]) <==>
            if l == CaptureTag then After(v, trace).srcClean else Tagged(v, trace) && !EndsTag(l)
  {
    var n, longer := |trace|, trace + [l];
    assert longer[n] == l && longer[..n] == trace;
    forall k: nat | k < n ensures TagHeld(v, longer, k) <==> TagHeld(v, trace, k) && !EndsTag(l) {
      TagHeldNext(v, trace, l, k);
    }
    assert TagHeld(v, longer, n) <==> l == CaptureTag && After(v, trace).srcClean;
    if Tagged(v, trace) && !EndsTag(l) {
      var k: nat :| TagHeld(v, trace, k);
      assert TagHeld(v, longer, k);
    }
  }

  predicate EndsSoundness(v: Variant, l: Label) {
    l == Commit || (v.clearProofOnSourceUpdate && IsUpdate(l))
  }

  /** The commit at `k` matched its tag, and nothing replaced or cleared the proof since. */
  ghost predicate SoundSince(v: Variant, trace: seq<Label>, k: nat) {
    && k < |trace| && trace[k] == Commit && CepfMatch(After(v, trace[..k]))
    && forall j :: k < j < |trace| ==> !EndsSoundness(v, trace[j])
  }

  ghost predicate SoundlyCommitted(v: Variant, trace: seq<Label>) {
    exists k: nat :: SoundSince(v, trace, k)
  }

  /** A proof is marked sound exactly when its commit matched the tag and no update cleared it since. */
  lemma {:induction false} SoundIff(v: Variant, trace: seq<Label>)
    ensures After(v, trace).proofSound <==> SoundlyCommitted(v, trace)
    decreases |trace|
  {
    if trace != [] {
      var front, l := trace[..|trace| - 1], trace[|trace| - 1];
      assert trace == front + [l];
      SoundIff(v, front);
      SoundNext(v, front, l);
      SoundStep(After(v, front), v, l);
    }
  }

  lemma SoundStep(s: State, v: Variant, l: Label)
    ensures Apply(s, v, l).proofSound == if l == Commit then CepfMatch(s) else s.proofSound && !EndsSoundness(v, l)
  {
    match l
    case StoreOrFill =>
    case CoherenceOrDma =>
    case Commit =>
    case _ =>
  }

  lemma SoundNext(v: Variant, trace: seq<Label>, l: Label)
    ensures SoundlyCommitted(v, trace + [l]) <==>
            if l == Commit then CepfMatch(After(v, trace)) else SoundlyCommitted(v, trace) && !EndsSoundness(v, l)
  {
    var n, longer := |trace|, trace + [l];
    assert longer[n] == l && longer[..n] == trace;
    forall k: nat | k < n ensures SoundSince(v, longer, k) <==> SoundSince(v, trace, k) && !EndsSoundness(v, l) {
      assert longer[..k] == trace[..k];
      assert forall j :: 0 <= j < n ==> longer[j] == trace[j];
    }
    assert SoundSince(v, longer, n) <==> l == Commit && CepfMatch(After(v, trace));
    if SoundlyCommitted(v, trace) && !EndsSoundness(v, l) {
      var k: nat :| SoundSince(v, trace, k);
      assert SoundSince(v, longer, k);
    }
  }

  predicate EndsTerminal(l: Label) {
    l == Issue || l == DemandLoad || IsUpdate(l)
  }

  /** The issue at `k` went to another page under a witness, and the line was not refilled since. */
  ghost predicate TerminalSince(v: Variant, trace: seq<Label>, k: nat) {
    && k < |trace| && trace[k] == Issue
    && !After(v, trace[..k]).targetSamePage && After(v, trace[..k]).witnessValid
    && forall j :: k < j < |trace| ==> !EndsTerminal(trace[j])
  }

  ghost predicate Terminal(v: Variant, trace: seq<Label>) {
    exists k: nat :: TerminalSince(v, trace, k)
  }

  /** A source is terminal exactly when the last issue was a witnessed cross-page one and the line was
      neither loaded nor updated since. */
  lemma {:induction false} TerminalIff(v: Variant, trace: seq<Label>)
    ensures After(v, trace).terminalSource <==> Terminal(v, trace)
    decreases |trace|
  {
    if trace != [] {
      var front, l := trace[..|trace| - 1], trace[|trace| - 1];
      assert trace == front + [l];
      TerminalIff(v, front);
      TerminalNext(v, front, l);
      TerminalStep(After(v, front), v, l);
    }
  }

  lemma TerminalStep(s: State, v: Variant, l: Label)
    ensures Apply(s, v, l).terminalSource
            == if l == Issue then !s.targetSamePage && s.witnessValid else s.terminalSource && !EndsTerminal(l)
  {
    match l
    case StoreOrFill =>
    case CoherenceOrDma =>
    case Commit =>
    case _ =>
  }

  lemma TerminalNext(v: Variant, trace: seq<Label>, l: Label)
    ensures Terminal(v, trace + [l]) <==>
            if l == Issue then !After(v, trace).targetSamePage && After(v, trace).witnessValid
            else Terminal(v, trace) && !EndsTerminal(l)
  {
    var n, longer := |trace|, trace + [l];
    assert longer[n] == l && longer[..n] == trace;
    forall k: nat | k < n ensures TerminalSince(v, longer, k) <==> TerminalSince(v, trace, k) && !EndsTerminal(l) {
      assert longer[..k] == trace[..k];
      assert forall j :: 0 <= j < n ==> longer[j] == trace[j];
    }
    assert TerminalSince(v, longer, n) <==>
           l == Issue && !After(v, trace).targetSamePage && After(v, trace).witnessValid;
    if Terminal(v, trace) && !EndsTerminal(l) {
      var k: nat :| TerminalSince(v, trace, k);
      assert TerminalSince(v, longer, k);
    }
  }

  // ----- what the gate reads

  /** The steps since the last `l` toggled `moves` an even number of times. */
  ghost predicate EvenSince(trace: seq<Label>, l: Label, moves: Label -> bool) {
    exists k: nat :: LastAt(trace, l, k) && (Count(trace, moves) - Count(trace[..k], moves)) % 2 == 0
  }

  lemma EvenSinceIff(trace: seq<Label>, l: Label, moves: Label -> bool, k: nat)
    requires LastAt(trace, l, k)
    ensures EvenSince(trace, l, moves) <==> Count(trace, moves) % 2 == Count(trace[..k], moves) % 2
  {
  }

  lemma ProofTokenIff(v: Variant, trace: seq<Label>, k: nat)
    requires LastAt(trace, Commit, k)
    ensures After(v, trace).proofToken == After(v, trace).currentToken <==> EvenSince(trace, Commit, Is(ContextSwitch))
  {
    ProofIsLastCommit(v, trace, k);
    BitsAreParities(v, trace);
    BitsAreParities(v, trace[..k]);
    EvenSinceIff(trace, Commit, Is(ContextSwitch), k);
  }

  lemma WitnessTargetIff(v: Variant, trace: seq<Label>, k: nat)
    requires LastAt(trace, RecordWitness, k)
    ensures After(v, trace).witnessTarget == After(v, trace).candidateTarget
            <==> EvenSince(trace, RecordWitness, MovesCandidate())
  {
    WitnessIsLastRecord(v, trace, k);
    BitsAreParities(v, trace);
    BitsAreParities(v, trace[..k]);
    EvenSinceIff(trace, RecordWitness, MovesCandidate(), k);
  }

  lemma WitnessTokenIff(v: Variant, trace: seq<Label>, k: nat)
    requires LastAt(trace, RecordWitness, k)
    ensures After(v, trace).witnessToken == After(v, trace).currentToken
            <==> EvenSince(trace, RecordWitness, Is(ContextSwitch))
  {
    WitnessIsLastRecord(v, trace, k);
    BitsAreParities(v, trace);
    BitsAreParities(v, trace[..k]);
    EvenSinceIff(trace, RecordWitness, Is(ContextSwitch), k);
  }

  lemma WitnessExactIff(v: Variant, trace: seq<Label>, k: nat)
    requires LastAt(trace, RecordWitness, k)
    ensures WitnessExact(After(v, trace)) <==>
            && Raised(trace, Is(RecordWitness), EndsWitness(v))
            && EvenSince(trace, RecordWitness, MovesCandidate()) && EvenSince(trace, RecordWitness, Is(ContextSwitch))
  {
    WitnessIff(v, trace);
    WitnessTargetIff(v, trace, k);
    WitnessTokenIff(v, trace, k);
  }

  lemma TagWordIff(v: Variant, trace: seq<Label>, k: nat)
    requires LastAt(trace, CaptureTag, k)
    ensures var s := After(v, trace);
            s.inflightValue == s.srcValue && s.inflightEpoch == s.srcEpoch <==> EvenSince(trace, CaptureTag, Updates())
  {
    TagIsLastCapture(v, trace, k);
    BitsAreParities(v, trace);
    BitsAreParities(v, trace[..k]);
    EvenSinceIff(trace, CaptureTag, Updates(), k);
  }

  lemma TagTokenIff(v: Variant, trace: seq<Label>, k: nat)
    requires LastAt(trace, CaptureTag, k)
    ensures After(v, trace).inflightToken == After(v, trace).currentToken
            <==> EvenSince(trace, CaptureTag, Is(ContextSwitch))
  {
    TagIsLastCapture(v, trace, k);
    BitsAreParities(v, trace);
    BitsAreParities(v, trace[..k]);
    EvenSinceIff(trace, CaptureTag, Is(ContextSwitch), k);
  }

  lemma {:induction false} LastOf(trace: seq<Label>, l: Label) returns (k: nat)
    requires l in trace
    ensures LastAt(trace, l, k)
    decreases |trace|
  {
    if trace[|trace| - 1] == l {
      k := |trace| - 1;
    } else {
      k := LastOf(trace[..|trace| - 1], l);
    }
  }

  /** With CEPF a commit is offered exactly when a tag is in flight, the line is clean, and the word and the
      address space were toggled an even number of times since the capture; without it the tag suffices. */
  lemma CommitOfferedIff(v: Variant, trace: seq<Label>)
    ensures Enabled(After(v, trace), v, Commit) <==>
            && Tagged(v, trace)
            && (v.requireCepf ==>
                  && Raised(trace, Is(DemandLoad), ClearsProof(v))
                  && EvenSince(trace, CaptureTag, Updates()) && EvenSince(trace, CaptureTag, Is(ContextSwitch)))
  {
    TagIff(v, trace);
    CleanIff(v, trace);
    if Tagged(v, trace) {
      assert CaptureTag in trace;
      var k := LastOf(trace, CaptureTag);
      TagWordIff(v, trace, k);
      TagTokenIff(v, trace, k);
    }
  }

  /** A squash is offered exactly while a tag is in flight. */
  lemma SquashOfferedIff(v: Variant, trace: seq<Label>)
    ensures Enabled(After(v, trace), v, Squash) <==> Tagged(v, trace)
  {
    TagIff(v, trace);
  }

  /** The steps other than commit, squash and issue are always offered. */
  lemma OthersAlwaysOffered(v: Variant, trace: seq<Label>, l: Label)
    requires l != Commit && l != Squash && l != Issue
    ensures Enabled(After(v, trace), v, l)
  {
  }

  const FULL: Variant := Variant(true, true, true, true, true, true, true, true)

  /** The full gate, read off the trace: it issues exactly when the line was loaded and a proof committed,
      both since the last source update, the address space is the one of the commit, the last issue did not
      make the source terminal, and a cross-page candidate is the one witnessed, under this address space. */
  lemma FullGateIff(trace: seq<Label>)
    ensures CanIssue(After(FULL, trace), FULL) <==>
            && Raised(trace, Is(DemandLoad), ClearsProof(FULL)) && Raised(trace, Is(Commit), ClearsProof(FULL))
            && EvenSince(trace, Commit, Updates()) && EvenSince(trace, Commit, Is(ContextSwitch))
            && !Terminal(FULL, trace)
            && (Raised(trace, Is(CrossPage), Is(SamePage)) ==>
                  && Raised(trace, Is(RecordWitness), EndsWitness(FULL))
                  && EvenSince(trace, RecordWitness, MovesCandidate())
                  && EvenSince(trace, RecordWitness, Is(ContextSwitch)))
  {
    CleanIff(FULL, trace);
    ProofIff(FULL, trace);
    TerminalIff(FULL, trace);
    CrossPageIff(FULL, trace);
    WitnessIff(FULL, trace);
    if Raised(trace, Is(Commit), ClearsProof(FULL)) {
      var k := LastOf(trace, Commit);
      ProofTokenIff(FULL, trace, k);
      SourceExactIff(FULL, trace, k);
    }
    if Raised(trace, Is(RecordWitness), EndsWitness(FULL)) {
      var k := LastOf(trace, RecordWitness);
      WitnessExactIff(FULL, trace, k);
    }
  }

  lemma SourceExactIff(v: Variant, trace: seq<Label>, k: nat)
    requires LastAt(trace, Commit, k)
    ensures SourceExact(After(v, trace)) <==> EvenSince(trace, Commit, Updates())
  {
    ProofIsLastCommit(v, trace, k);
    BitsAreParities(v, trace);
    BitsAreParities(v, trace[..k]);
    EvenSinceIff(trace, Commit, Updates(), k);
  }

  /** Wherever a witness is required, nothing issues across pages between an eviction and the next record. */
  lemma NoIssueAfterEviction(v: Variant, trace: seq<Label>, more: seq<Label>)
    requires v.requireCtlw && RecordWitness !in more
    ensures var s := After(v, trace + [EvictWitness] + more);
            !s.targetSamePage ==> !CanIssue(s, v)
  {
    WitnessIff(v, trace + [EvictWitness] + more);
    EvictionStays(trace, more, v);
  }

  lemma {:induction false} EvictionStays(trace: seq<Label>, more: seq<Label>, v: Variant)
    requires RecordWitness !in more
    ensures !Raised(trace + [EvictWitness] + more, Is(RecordWitness), EndsWitness(v))
    decreases |more|
  {
    if more == [] {
      RaisedNext(trace, Is(RecordWitness), EndsWitness(v), EvictWitness);
      assert trace + [EvictWitness] + more == trace + [EvictWitness];
    } else {
      var front, l := more[..|more| - 1], more[|more| - 1];
      EvictionStays(trace, front, v);
      RaisedNext(trace + [EvictWitness] + front, Is(RecordWitness), EndsWitness(v), l);
      assert trace + [EvictWitness] + more == trace + [EvictWitness] + front + [l];
    }
  }

  // ----- the reported reason

  predicate Present(r: Reason, s: State) {
    match r
    case DirtySource => !s.srcClean
    case NoProof => !s.proofValid
    case UnsoundProof => !s.proofSound
    case SourceMismatch => s.proofValue != s.srcValue || s.proofEpoch != s.srcEpoch
    case TokenMismatch => s.proofToken != s.currentToken
    case TerminalChased => s.terminalSource
    case NoExactWitness =>
      !s.targetSamePage
      && (!s.witnessValid || s.witnessTarget != s.candidateTarget || s.witnessToken != s.currentToken)
  }

  /** A reason is reported exactly when one is present, and it is one of those. */
  lemma ReasonIsPresent(s: State)
    ensures UnsafeReason(s).Some? <==> exists r :: Present(r, s)
    ensures UnsafeReason(s).Some? ==> Present(UnsafeReason(s).value, s)
  {
    if UnsafeReason(s).Some? {
      assert Present(UnsafeReason(s).value, s);
    }
  }
}
