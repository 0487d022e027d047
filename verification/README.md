# Verified models of the COPPER research code

The repository holds protocol checkers, an incremental cycle witness, graph and hash kernels and two
session/cache services. This project models their algorithms in Dafny and proves what the checkers
only search for over small constants, and what the kernels and services rely on but never state.

To verify: `dafny verify dfyconfig.toml`.

## How the modules fit together

- `Levels`, `Frontier`, `Search`: bounded reachability as a level set, the invariant of a first-in
  first-out traversal, and the two search loops of the state-space programs. The breadth-first graph
  kernel reuses the same traversal invariant.
- `Digraph`, `Acow`, `AcowTrial`: reachability and cycles, the incremental witness against the
  three-colour search, and the random executions that compare them.
- `Authority`, `AuthorityHistory`, `AuthorityTrace`: the CEPF/PASB/CTLW machine, the same machine with
  unbounded counters that only watch, and every field of it read off the trace of steps. `Histories` says
  what a history leaves of a flag that some events raise and others lower.
- `Clpd`: the direct-mapped line-provenance directory against its commit trace.
- `RevocationQueue`, `CsSari`, `Composition`, `CompositionPrecision`, `CompositionTrace`, `RevocationEval`,
  `RevocationReplay`, `BfsReplay`, `BfsOrder`: the bounded revocation queue, the programs that run it, the
  composed machine read off its history, and the replay loop and breadth-first trace that feed the evaluation.
- `Gapbs`, `GapbsPasses`, `SsspWalks`, `Pagerank`: the graph kernels over arrays of per-vertex fields, and
  the scheduled walks whose costs edge relaxation computes.
- `PowerOfTwo`, `ExclusiveOr`, `NodeRing`, `ChainedHash`, `HashKernel`: arithmetic modulo powers of
  two, and what the C kernel suite's initialisers and probe loop get from it.
- `IntrusiveList`, `HashChains`, `ListWalk`, `ChainCover`, `Recency`, `CacheShape`, `CacheKeys`, `CacheService`,
  `CacheLog`, `CacheRun`, `MachineWords`: the intrusive LRU and hash links, the cache service as a class over
  arrays, its refinement to a move-to-front list and to a log of changes, and its validator.
- `SessionWords`, `SessionRecords`, `SessionLaws`, `SessionAuth`: the TLS service's sessions and record
  blocks, what a run makes of a session, and what the record authentication code detects.
- `Options`, `Sequences`: an optional value, and shared facts about sequences.

The modelling is uniform: tuples of flags and bit masks are sets; numbers of lines, tokens, entries,
words, vertices, items and queue slots are parameters wherever the programs fix them as constants;
machine addresses are indices with -1 for null; 32-bit and 64-bit wrap-around is written out where a
value can reach it; random draws are arbitrary inputs or nondeterministic choices.

## What the proofs show about the programs

- The authority checker (depth 12), the composition checker (depth 7) and the directory checker
  (depth 8) are conclusive although they are bounded: every unsafe variant fails within 6, 4 and 2
  steps, and every other variant is safe in all runs.
- Authority epochs and values are single bits. Their comparisons only know the parity of the number
  of updates, so comparing bits cannot replace clearing the proof, and a backend tag captured two
  updates ago still commits a proof that the machine calls sound.
- The directory's own ground truth keeps one mask per line, not per token. In every run it says that the
  word was committed since the line's last update under some token and that the line's last commit was
  the token's; this is a commit of the word under the token exactly when lines have one word. The
  directory itself is exact.
- The composed gate is exact at the checker's queue depth only because its one burst overflows the
  queue. With one more slot the same alphabet makes it refuse a candidate that ground truth allows.
- The revocation evaluation computes its source hazard before it appends the line of a mutated slot,
  so a candidate whose own line is revoked in that very cycle can be issued and is not counted unsafe.
  Whether a workload can show this is decided by its trace, lookahead and mutated slots: the edge-scan
  trace never can, a breadth-first replay can.
- `validate_cache` cannot report "lru cycle": the back-link test always fires first. Its bucket count
  accepts tables that miss an entry, exactly those in which two buckets start at one entry.
- The probe kernel's checksum is 0 whether or not the depth cap is ever reached.

## Model

| member | source | states |
|---|---|---|
| `Levels.InvariantWithin` | research/copper_cs_sari_composition_state_space.py:316-330 | a property of the start that every step keeps holds in every state within any depth |
| `Levels.LevelBound` | research/copper_cs_sari_composition_state_space.py:316-330 | once all states below the cut-off are expanded, every state of a level has been met with a depth of at most that level |
| `Levels.LeadsIsWithin` | research/copper_authority_state_space.py:245-267 | a label trace of length n ends in a state of level n |
| `Levels.WithinLeads` | research/copper_authority_state_space.py:245-267 | every state of a level is the end of a label trace of at most that length |
| `Search.CheckBounded` | research/copper_authority_state_space.py:245-267 | the verdict is positive exactly when no bad state lies within the depth; then the explored count is the number of states within it; otherwise the trace is a shortest counterexample |
| `Search.ReachableStates` | research/copper_cs_sari_composition_state_space.py:316-330 | the dictionary's keys are exactly the states within the depth, each with a path that leads to it and than which none is shorter; in insertion order the paths never get shorter |
| `Search.FoundIsShortest` | research/copper_authority_state_space.py:245-267 | the first bad state popped from a first-in first-out queue has the least depth of any bad state |
| `Acow.BaselineChecker.HasCycle` | research/acow_model.py:35-52 | the search returns true exactly when the recorded edges have a cycle, self-loops included |
| `Acow.BaselineChecker.Dfs` | research/acow_model.py:42-50 | from a white node: a hit means a cycle; otherwise the node ends black, black nodes are closed and on no cycle, and the grey nodes are unchanged; the white nodes shrink |
| `Acow.BaselineChecker.BuildGraph` | research/acow_model.py:36-38 | the adjacency lists hold exactly the recorded edges |
| `Acow.NoCycleLeft` | research/acow_model.py:52 | when every node with an outgoing edge is finished, the graph is acyclic |
| `Acow.AcowChecker.constructor` | research/acow_model.py:58-64 | a new witness is the one of the empty history |
| `Acow.AcowChecker.Add` | research/acow_model.py:66-94 | the call returns true exactly when the edge closes a cycle over the edges accepted before; the closure, the log, the counters, the verdict and the peak stay those of the whole history |
| `Acow.AbsorbIsClosure` | research/acow_model.py:79-87 | adding the target and its reachable set to every node that reaches the source yields the transitive closure of the extended edges |
| `Acow.Extend` | research/acow_model.py:79-87 | the two update loops collect the affected nodes and compute exactly that closure step |
| `Acow.CyclicIffRejected` | research/acow_model.py:70-73 | the history has a cycle exactly when some edge of it closed one on arrival, so the witness and the depth-first search agree |
| `Acow.VerdictSnoc` | research/acow_model.py:70-73 | an edge makes the history cyclic exactly when it was cyclic before or the edge closes a cycle over the accepted edges |
| `Acow.LogKeepsReachability` | research/acow_model.py:66-94 | the logged edges have the reachability and the cycle verdict of all edges fed |
| `Acow.OrderDoesNotMatter` | research/acow_model.py:66-94 | histories with the same edges in any order have logs with the same reachability and cycle verdict |
| `Acow.PeakBound` | research/acow_model.py:90-93 | the peak set size is at most the number of nodes less one |
| `AcowTrial.GenerateExecution` | research/acow_model.py:101-170 | without a bug the trace only leads to higher nodes and has no cycle; with one it is cyclic wherever the back edge is inserted, unless the trace was empty |
| `AcowTrial.BackEdgeCloses` | research/acow_model.py:161-168 | inserting, at any position, an edge whose target already reaches its source makes the trace cyclic |
| `AcowTrial.EmitProgramOrder` | research/acow_model.py:112-116 | the triple loop emits the program-order prefix, thread by thread and distance by distance |
| `AcowTrial.ProgramOrderForward` | research/acow_model.py:112-116 | every program-order edge leads to a higher node of its own thread's range |
| `AcowTrial.ProgramOrderIff` | research/acow_model.py:112-116 | program order joins every epoch to every later one of its thread, and nothing else |
| `AcowTrial.ProgramOrderLogs` | research/acow_model.py:112-116 | of the program-order prefix the witness logs exactly threads times (epochs - 1) edges |
| `AcowTrial.PrefixCounts` | research/acow_model.py:112-116 | a trace that starts with program order, an edge for every pair of epochs of a thread, logs at least threads times (epochs - 1) edges and drops at least the rest of that prefix |
| `AcowTrial.AddressEdges` | research/acow_model.py:130-145 | the edges of one address are forward; they are every coherence edge between neighbouring writes, a reads-from edge into every read with an earlier write, and from-reads edges to one of the first two later writes only |
| `AcowTrial.DrawAccesses` | research/acow_model.py:118-128 | every node becomes a write or a read of exactly one address, and nothing else is listed |
| `AcowTrial.LegalExecution` | research/acow_model.py:112-154 | the trace is program order, then edges that some draw of the accesses calls for: all coherence edges, a source for every read that has an earlier write, and otherwise only reads-from, from-reads and observation edges |
| `AcowTrial.InjectBackEdge` | research/acow_model.py:156-168 | a nonempty legal trace gets one edge whose target already reaches its source, at any position, and becomes cyclic |
| `AcowTrial.Candidates` | research/acow_model.py:161-165 | the candidate pairs are exactly the distinct pairs whose second node reaches the first |
| `AcowTrial.Compare` | research/acow_model.py:173-200 | on any trace both checkers give the same verdict, which is whether the trace has a cycle, and logged plus dropped edges make up all edges |
| `AcowTrial.RunTrial` | research/acow_model.py:173-200 | both verdicts equal the bug flag as soon as there are a thread and two epochs; logged and dropped edges make up the trace, the peak is below the number of nodes, and a bug-free trial starts with program order, of which exactly threads times (epochs - 1) edges are logged and the rest are dropped |
| `Authority.SuccessorsAreEnabledSteps` | research/copper_authority_state_space.py:164-242 | the successor list holds exactly the enabled steps with their results |
| `Authority.StepKeepsProof` | research/copper_authority_state_space.py:147-242 | under the sufficient rules every step keeps stored proofs sound, and current if updates clear them |
| `Authority.UnsafeWithinSix` | research/copper_authority_state_space.py:102-242 | every other flag setting reaches an unsafe issue in at most six steps |
| `Authority.SafeIff` | research/copper_authority_state_space.py:102-242 | over all 256 flag settings no run has an unsafe issue exactly when CEPF, PASB, CTLW, exact witness and terminal stop are required and the proof is cleared or compared |
| `Authority.BoundedVerdict` | research/copper_authority_state_space.py:245-271 | from depth 6 on the bounded search decides safety over all runs |
| `Authority.CheckVariant` | research/copper_authority_state_space.py:245-267 | the bounded verdict, the explored count and the shortest counterexample of the search, and from depth 6 on exactly the sufficient rules |
| `AuthorityTrace.TracesAreRuns` | research/copper_authority_state_space.py:164-242 | a label trace leads to a state exactly when every step was offered and the state is what the steps make of the initial one |
| `AuthorityTrace.WithinIffTrace` | research/copper_authority_state_space.py:164-267 | a state lies within d steps exactly when an offered trace of at most d steps ends there |
| `AuthorityTrace.CleanIff` | research/copper_authority_state_space.py:147-171 | after any trace the line is clean exactly when it was loaded and, where updates clear it, not updated since |
| `AuthorityTrace.ProofIff` | research/copper_authority_state_space.py:147-197 | a proof is stored exactly when one was committed and, where updates clear it, no update came since |
| `AuthorityTrace.WitnessIff` | research/copper_authority_state_space.py:206-232 | a witness is held exactly when one was recorded, not evicted since, and, where that invalidates it, neither a remap nor a context switch came since |
| `AuthorityTrace.TagIff` | research/copper_authority_state_space.py:173-201 | a tag is in flight exactly when it was captured from a clean line and neither captured again, committed nor squashed since |
| `AuthorityTrace.SoundIff` | research/copper_authority_state_space.py:147-197 | a proof is marked sound exactly when its commit matched the tag and no update cleared it since |
| `AuthorityTrace.TerminalIff` | research/copper_authority_state_space.py:147-242 | the source is terminal exactly when the last issue was a witnessed cross-page one and the line was neither loaded nor updated since |
| `AuthorityTrace.CrossPageIff` | research/copper_authority_state_space.py:212-213 | the candidate lies on another page exactly when it crossed and has not come back since |
| `AuthorityTrace.BitsAreParities` | research/copper_authority_state_space.py:147-231 | the value, epoch, token and candidate bits are the parities of the steps that toggle them |
| `AuthorityTrace.TagIsLastCapture` | research/copper_authority_state_space.py:173-179 | the tag holds the source word and the token of its last capture |
| `AuthorityTrace.ProofIsLastCommit` | research/copper_authority_state_space.py:189-197 | the proof holds the source word and the token of its last commit |
| `AuthorityTrace.WitnessIsLastRecord` | research/copper_authority_state_space.py:219-224 | the witness holds the candidate and the token of its last recording |
| `AuthorityTrace.CommitOfferedIff` | research/copper_authority_state_space.py:181-197 | a commit is offered exactly when a tag is in flight and, under CEPF, the line is clean and word and address space were toggled an even number of times since the capture |
| `AuthorityTrace.FullGateIff` | research/copper_authority_state_space.py:102-117 | the full gate issues exactly when load and commit came after the last update, the address space is the one of the commit, the source is not terminal, and a cross-page candidate is the one witnessed under this address space with nothing invalidating in between |
| `AuthorityTrace.NoIssueAfterEviction` | research/copper_authority_state_space.py:102-117 | wherever a witness is required, nothing issues across pages between an eviction and the next recording, whatever else happens |
| `AuthorityTrace.ReasonIsPresent` | research/copper_authority_state_space.py:120-135 | a reason is reported exactly when one is present, and it is one of those |
| `AuthorityHistory.HistoryFaithful` | research/copper_authority_state_space.py:147-242 | adding update counters changes no reachable state |
| `AuthorityHistory.ComparisonsAreParity` | research/copper_authority_state_space.py:87-187 | in every run the source comparison and the tag comparison hold exactly when the number of updates in between is even |
| `AuthorityHistory.MatchIsCurrentIff` | research/copper_authority_state_space.py:87-187 | a matching tag or proof stems from the current source word exactly when fewer than two updates happened since |
| `AuthorityHistory.FreshIff` | research/copper_authority_state_space.py:102-242 | no run issues unsafely or with a proof or cross-page witness older than its last invalidation exactly when the sufficient rules hold and both invalidations clear |
| `AuthorityHistory.StaleTagCommits` | research/copper_authority_state_space.py:164-200 | in every variant some run issues, without an unsafe reason, on a proof whose backend tag predates the current source word |
| `Clpd.TableIsTrace` | research/copper_clpd_state_space.py:171-231 | if every update clears the matching entry, an entry holds a word for a line and token exactly when the trace holds a commit of it that nothing killed since |
| `Clpd.AuthorizedIff` | research/copper_clpd_state_space.py:100-120 | the full design authorises a query exactly when the epoch is current, the tokens agree and the trace holds a live commit of the word under that token |
| `Clpd.TruthMixesTokens` | research/copper_clpd_state_space.py:92-97 | with two or more words a line, three events lead to ground truth for a word and a token under which the trace never commits that word, in every variant |
| `Clpd.TruthIsTrace` | research/copper_clpd_state_space.py:92-231 | in every run of every variant, ground truth holds exactly when the epoch is the parity of the line's updates, the word was committed since the last of them under some token, and the line's last commit ran under the token |
| `Clpd.TruthPerTokenIff` | research/copper_clpd_state_space.py:92-97 | ground truth implies a commit of the word under its own token since the line's last update, in every run, exactly when lines have one word |
| `Clpd.SufficientIsSafe` | research/copper_clpd_state_space.py:123-231 | with the needed checks and clears no state of any run authorises a query without ground truth |
| `Clpd.UnsafeWithinTwo` | research/copper_clpd_state_space.py:123-260 | every other flag setting is exposed by one commit and at most one update |
| `Clpd.SafeIff` | research/copper_clpd_state_space.py:100-231 | over all flag settings and table sizes a variant is safe in every run exactly when it has those checks and clears; tags matter only if lines share an entry, word masks only if lines have several words |
| `Clpd.CheckVariant` | research/copper_clpd_state_space.py:263-282 | the bounded search decides safety over all runs from depth 2 on, with the explored count and a shortest counterexample |
| `RevocationQueue.PushAll` | research/copper_cs_sari_composition_state_space.py:286-291 | the push loop appends what fits and sets overflow exactly when something does not fit |
| `RevocationQueue.LengthIsLargestBacklog` | research/copper_cs_sari_composition_state_space.py:265-291 | while nothing was lost the queue length is the largest backlog of any window ending now |
| `RevocationQueue.OverflowIff` | research/copper_cs_sari_composition_state_space.py:265-291 | the queue never overflows exactly when every window of k cycles brings at most depth + k - 1 revocations |
| `RevocationQueue.OverflowIsSticky` | research/copper_cs_sari_composition_state_space.py:265-291 | a lost revocation is never forgotten, whatever follows |
| `RevocationQueue.QueueIsTail` | research/copper_cs_sari_composition_state_space.py:265-291 | while nothing was lost, the queue is a tail of all revocations in arrival order |
| `CsSari.IssuesIff` | research/copper_cs_sari_state_space.py:124-218 | the full gate issues exactly when the query is valid, neither its line nor its target was ever revoked, this cycle included, and no window of the history overflowed the queue |
| `CsSari.SafeIff` | research/copper_cs_sari_state_space.py:132-218 | over all flag settings and every queue depth, no run issues under a hazard exactly when all hazard checks are on; the line and token precision flags do not matter, and the queue check only if the queue has a slot |
| `CsSari.PreciseIff` | research/copper_cs_sari_state_space.py:159-183 | a variant never holds an authorised candidate without a hazard exactly when its remap check compares both line and token |
| `CsSari.SourceTracked` | research/copper_cs_sari_state_space.py:190-218 | a line ever revoked is dead, queued or lost to overflow, and only such lines are dead or queued |
| `CsSari.TargetLiveIff` | research/copper_cs_sari_state_space.py:204-218 | a target is live exactly when no remap or invalidation of the history hit it |
| `Composition.TransitionKeepsCovered` | research/copper_cs_sari_composition_state_space.py:265-313 | a line whose metadata outlives its truth is queued or lost to overflow, and target metadata implies target truth, after every event |
| `Composition.SufficientIsSafe` | research/copper_cs_sari_composition_state_space.py:142-236 | for any lines, tokens, depth, bursts and run, an issued candidate is backed by ground truth and free of hazards |
| `Composition.InsufficientIsUnsafe` | research/copper_cs_sari_composition_state_space.py:84-99 | at every queue depth that one burst can overflow, every other flag setting issues unsafely after at most four events |
| `Composition.SafeIff` | research/copper_cs_sari_composition_state_space.py:142-313 | at every queue depth, over every alphabet with one event of each kind, no run has an unsafe issue exactly for the flag settings with both metadata checks, all clears, and the global hold or all scoped checks; without queue slots the drain clear and the queue check do not matter, and the overflow check matters exactly if some event brings two lines or there is no slot |
| `Composition.InsufficientFails` | research/copper_cs_sari_composition_state_space.py:84-99 | every other flag setting reaches an unsafe issue, however deep the queue |
| `Composition.FillUp` | research/copper_cs_sari_composition_state_space.py:286-291 | repeating an event of two or more lines overflows a queue of any depth |
| `Composition.BoundedVerdict` | research/copper_cs_sari_composition_state_space.py:367-378 | from depth 4 on the bounded search decides safety over all runs, at every such queue depth |
| `Composition.EventsAreRich` | research/copper_cs_sari_composition_state_space.py:102-119 | the checker's alphabet contains every event those counterexamples use |
| `CompositionTrace.TruthSourceIff` | research/copper_cs_sari_composition_state_space.py:265-313 | in every run a source line is truly authorised exactly when it was committed and no DMA, CHI or I/O event and no burst has hit it since |
| `CompositionTrace.TruthTargetIff` | research/copper_cs_sari_composition_state_space.py:265-313 | a target is truly authorised exactly when it was recorded and neither remapped nor invalidated, by token or globally, since |
| `CompositionTrace.MetadataTargetIff` | research/copper_cs_sari_composition_state_space.py:265-313 | target metadata holds a pair exactly when it was recorded and none of the clears that the variant performs hit it since |
| `CompositionTrace.MetadataSourceIff` | research/copper_cs_sari_composition_state_space.py:265-313 | source metadata holds a line exactly when it was committed and no revocation of it was drained since, if the variant clears on drains |
| `CompositionTrace.FullGateIff` | research/copper_cs_sari_composition_state_space.py:142-214 | in every run the full gate issues exactly the valid candidates that were committed and recorded, whose line and target this cycle does not revoke, with nothing lost and no revocation of the line queued |
| `CompositionTrace.HeldInOwnCycle` | research/copper_cs_sari_composition_state_space.py:189-214 | the full gate never issues in a cycle with a DMA, CHI, I/O or burst event on the candidate's line, or an event on its target |
| `CompositionTrace.GlobalHoldIff` | research/copper_cs_sari_composition_state_space.py:180-186 | the global hold is on exactly when some candidate is in danger |
| `CompositionTrace.HazardIff` | research/copper_cs_sari_composition_state_space.py:162-177 | a candidate is in danger exactly when revocations were lost, its line is queued, or this cycle revokes its line or target |
| `CompositionTrace.ReasonIsPresent` | research/copper_cs_sari_composition_state_space.py:217-236 | a reason is reported exactly when one is present for a valid candidate, and it is one of those |
| `CompositionPrecision.OverflowIffDenseWindow` | research/copper_cs_sari_composition_state_space.py:265-291 | a run of the composed machine sets overflow exactly when some window of its events is too dense |
| `CompositionPrecision.OverflowHoldsForever` | research/copper_cs_sari_composition_state_space.py:189-213 | after an overflow every valid query is held in every continuation |
| `CompositionPrecision.PromptIsExact` | research/copper_cs_sari_composition_state_space.py:211-236 | if every event revokes at most one line or more than the queue holds, the gate issues exactly what ground truth allows |
| `CompositionPrecision.ExactIff` | research/copper_cs_sari_composition_state_space.py:211-236 | for any alphabet that can recommit what it revokes, the gate is exact in every run exactly under that condition |
| `CompositionPrecision.CheckedGateIsExact` | research/copper_cs_sari_composition_state_space.py:102-126 | the checker's alphabet shape makes the gate exact at depth 2 and inexact at depth 3 |
| `CompositionPrecision.EventsAreCheckerShaped` | research/copper_cs_sari_composition_state_space.py:102-119 | the checker's event list has that shape |
| `CompositionPrecision.CheckSafety` | research/copper_cs_sari_composition_state_space.py:316-378 | a counterexample is reported exactly when one lies within the bound; it is an unsafe triple of a reached state, an event and a query of the checker, with a path to it and none shorter; from depth 4 on this happens exactly for the insufficient variants |
| `CompositionPrecision.CheckPrecision` | research/copper_cs_sari_composition_state_space.py:316-395 | a precision witness is reported exactly when one lies within the bound, likewise with a shortest path; from depth 2 on exactly for the variants without global hold |
| `CompositionPrecision.FirstIsShortest` | research/copper_cs_sari_composition_state_space.py:367-395 | scanning the dictionary in insertion order, the first finding is the one nearest to the start |
| `RevocationEval.WitnessesExact` | research/copper_cs_sari_gapbs_revocation_eval.py:240-250 | the witness set holds exactly the targets recorded in the history and not revoked since, under the run's token |
| `RevocationEval.ProofsExact` | research/copper_cs_sari_gapbs_revocation_eval.py:226-249 | the proof bits are exactly those recorded in a cycle after which no revocation of their line was taken off the queue |
| `RevocationEval.StaleIsPending` | research/copper_cs_sari_gapbs_revocation_eval.py:229-249 | a proof bit older than a revocation of its line has that revocation still queued, or overflow is set |
| `RevocationEval.IssuesAreFresh` | research/copper_cs_sari_gapbs_revocation_eval.py:205-222 | in every run a candidate issued under scoped hold has a proof and a witness that no earlier cycle and no draw of its own cycle revoked |
| `RevocationReplay.MutationPosition` | research/copper_cs_sari_gapbs_revocation_eval.py:172-200 | a replay cycle that revokes the line it prefetches from, other than by a draw, is in the second pass, at a mutated slot of that line |
| `RevocationReplay.RevokedIsNotFresh` | research/copper_cs_sari_gapbs_revocation_eval.py:171-251 | after a mutation of its line in the second pass, an edge still ahead has no fresh proof |
| `RevocationReplay.ExposedSlips` | research/copper_cs_sari_gapbs_revocation_eval.py:171-251 | at a mutated slot that is the first of its line and lies in the line its own cycle prefetches from, the run without draws issues a candidate revoked in that cycle |
| `RevocationReplay.SlipsIff` | research/copper_cs_sari_gapbs_revocation_eval.py:171-251 | for every trace without repeated edges, lookahead, slots, queue depth and number of passes: some run issues a candidate whose line its own cycle revokes exactly when there is a second pass and such a position |
| `RevocationReplay.EdgeScanNeverSlips` | research/gapbs_copper_trace_eval.py:290-291 | edges in storage order with a lookahead of a line's slots or more never show it |
| `BfsReplay.BfsReplayTrace` | research/gapbs_copper_trace_eval.py:294-326 | the nested loops list the rows of the nodes in breadth-first order, from the eight nodes of highest degree, cut off at the limit, and no edge twice |
| `BfsReplay.TopRoots` | research/gapbs_copper_trace_eval.py:295-296 | the roots are the nodes sorted by falling degree with ties in storage order, at most eight |
| `BfsReplay.TopDegreesUnique` | research/gapbs_copper_trace_eval.py:295-296 | that order leaves no choice |
| `BfsReplay.ReplayListsOnce` | research/gapbs_copper_trace_eval.py:294-326 | for every graph, roots and limit the replay lists no edge twice |
| `BfsReplay.WalkListsOnce` | research/gapbs_copper_trace_eval.py:303-320 | a walk from a frontier lists its nodes once each, all of them visited in the end, and none that was visited before and is not in the frontier |
| `BfsReplay.RootsListAll` | research/gapbs_copper_trace_eval.py:300-320 | before the cut-off the replay lists every root and, with a node, every target of its edges, so all that edges lead to from the roots |
| `BfsOrder.WalkIsDiscovery` | research/gapbs_copper_trace_eval.py:305-320 | beyond its frontier a walk lists the nodes in the order in which the edges it lists first lead to them |
| `BfsOrder.EarlierIsDiscoveredFirst` | research/gapbs_copper_trace_eval.py:305-320 | of two nodes listed after the root, the earlier one is the target of an edge listed before any edge to the later one |
| `BfsOrder.HopsNeverFall` | research/gapbs_copper_trace_eval.py:305-320 | whatever number of hops from the root reaches a listed node, over nodes not visited before, reaches every node listed before it |
| `BfsReplay.BfsSlipsIff` | research/copper_cs_sari_gapbs_revocation_eval.py:171-251 | which breadth-first replays can show the failure |
| `BfsReplay.BfsReplaySlips` | research/copper_cs_sari_gapbs_revocation_eval.py:171-251 | for every lookahead some graph, replayed from its roots of highest degree with one mutated slot, shows it, for every queue depth and from two passes on |
| `RevocationEval.NothingLostIff` | research/copper_cs_sari_gapbs_revocation_eval.py:229-238 | a run loses no revocation exactly when no window of its candidate cycles brings more than the queue depth plus the pops |
| `RevocationEval.RunsBalance` | research/copper_cs_sari_gapbs_revocation_eval.py:139-227 | in every run, for each policy issued, held and blocked make up all candidates; blocked is the same for all; no-hold's unsafe issues are scoped hold's held candidates; and the avoided holds are the issues scoped hold gains over global hold |
| `RevocationEval.CountersCount` | research/copper_cs_sari_gapbs_revocation_eval.py:139-222 | the candidate, authority, hazard and issue counters are the numbers of history cycles in which that condition held in the state they started from |
| `RevocationEval.EventsAreSummed` | research/copper_cs_sari_gapbs_revocation_eval.py:202-203 | the source and target event counters are the sums of the events of the history |
| `RevocationEval.GlobalHoldIff` | research/copper_cs_sari_gapbs_revocation_eval.py:217 | the global hold is on exactly when the cycle could hold some candidate or mutates a slot |
| `RevocationEval.ScopedHoldIff` | research/copper_cs_sari_gapbs_revocation_eval.py:205-218 | the scoped hold is on exactly when the cycle holds its own candidate |
| `RevocationEval.OverflowCycleIsFirst` | research/copper_cs_sari_gapbs_revocation_eval.py:232-238 | the recorded overflow cycle is the first cycle after which overflow is set |
| `RevocationEval.Evaluator.Step` | research/copper_cs_sari_gapbs_revocation_eval.py:173-251 | one iteration turns the state and counters of the history so far into those of the history with the cycle appended |
| `RevocationEval.Evaluator.RevokeTargets` | research/copper_cs_sari_gapbs_revocation_eval.py:240-247 | the remap and invalidation loops leave exactly the witnesses that no target event of the cycle hits |
| `RevocationEval.Evaluator.RememberProof` | research/copper_cs_sari_gapbs_revocation_eval.py:93-95 | exactly one proof is added, the edge's own, and no other edge's proof changes |
| `RevocationEval.MergeStats` | research/copper_cs_sari_gapbs_revocation_eval.py:256-275 | the loop computes the fold of the runs' counters |
| `RevocationEval.TotalBalances` | research/copper_cs_sari_gapbs_revocation_eval.py:256-275 | merging balanced runs keeps every identity |
| `RevocationEval.TotalOverflowIsLeast` | research/copper_cs_sari_gapbs_revocation_eval.py:273-274 | the merged overflow cycle is that of some run and no later than that of any |
| `RevocationEval.TotalSplits` | research/copper_cs_sari_gapbs_revocation_eval.py:256-275 | merging in batches, in either order, gives the totals of merging at once |
| `Gapbs.Suite.Bfs` | research/aarch64_gapbs_mini_suite.c:116-151 | every distance is the exact hop count from vertex 0, or the initial constant exactly if unreachable; the queue holds each met vertex once, so it never exceeds the vertex count and the safety break is never taken |
| `Gapbs.Suite.constructor` | research/aarch64_gapbs_mini_suite.c:81-95 | any graph of the given degree gives the kernels a suite to run on |
| `Gapbs.Suite.VisitNeighbour` | research/aarch64_gapbs_mini_suite.c:136-146 | one edge visit extends the traversal invariant, and a newly met vertex always finds room in the ring |
| `Gapbs.Room` | research/aarch64_gapbs_mini_suite.c:140-144 | an unmet vertex means the queue has met fewer vertices than there are, so the ring never overwrites a live slot |
| `Gapbs.AllMet` | research/aarch64_gapbs_mini_suite.c:131-149 | when the queue runs empty the distances are exact and the queued vertices are exactly the reachable ones, each once |
| `GapbsPasses.SsspRelax` | research/aarch64_gapbs_mini_suite.c:153-176 | after p passes every finite distance is the cost of a walk from the root whose edges are relaxed in schedule order, pass by pass and vertex by vertex, and no such walk is cheaper; hence it is at least the hop count, at most 16 per hop within p hops, and with enough passes finite exactly for the reachable vertices |
| `GapbsPasses.RelaxVertex` | research/aarch64_gapbs_mini_suite.c:161-173 | each out-edge leaves its target at most at the sum of the vertex's distance and the edge's weight, and whatever is lowered equals the sum of an edge that leads to it |
| `SsspWalks.TurnIsExact` | research/aarch64_gapbs_mini_suite.c:161-173 | one vertex's turn carries exact distances to exact distances of the walks that may also use this turn |
| `SsspWalks.PassIsExact` | research/aarch64_gapbs_mini_suite.c:159-174 | the walks of a whole pass are those open to the next pass's first turn |
| `SsspWalks.WalkHops` | research/aarch64_gapbs_mini_suite.c:159-174 | a scheduled walk costs at least one per step and ends within as many hops |
| `SsspWalks.HopWalk` | research/aarch64_gapbs_mini_suite.c:159-174 | whatever lies within k hops is the end of a scheduled walk over k passes of cost at most 16 per hop |
| `GapbsPasses.ConnectedComponents` | research/aarch64_gapbs_mini_suite.c:198-220 | after p in-place passes every label is the number of a vertex reachable from its owner and at most every number within p hops; from one pass less than there are vertices it is the least reachable number |
| `GapbsPasses.MinimumCovers` | research/aarch64_gapbs_mini_suite.c:205-217 | the least label among a vertex and its neighbours covers one hop more than they do |
| `GapbsPasses.EnoughHops` | research/aarch64_gapbs_mini_suite.c:198-220 | what any number of hops reaches, one hop less than there are vertices reaches |
| `Pagerank.PassBound` | research/aarch64_gapbs_mini_suite.c:183-191 | every vertex receives exactly as many contributions in a pass as the average in-degree, which bounds its new rank |
| `Pagerank.PassConserves` | research/aarch64_gapbs_mini_suite.c:183-191 | the new ranks sum to the number of vertices plus, over all edges, an eighth of the source's rank and three bits of its value |
| `Pagerank.PassAtLeast` | research/aarch64_gapbs_mini_suite.c:183-191 | ranks of at least lo give every vertex at least one plus the average in-degree times an eighth of lo |
| `Pagerank.RaiseOneSource` | research/aarch64_gapbs_mini_suite.c:183-191 | raising a source by eight raises each target by exactly its number of edges from that source in that pass |
| `Pagerank.RaiseBeforeLastPass` | research/aarch64_gapbs_mini_suite.c:180-195 | the same within a run of several passes, each with its own edges |
| `Pagerank.LinearGrowth` | research/aarch64_gapbs_mini_suite.c:178-196 | with at most eight contributions per vertex ranks stay below 65535 + 57 p after p passes |
| `Pagerank.NeverWraps` | research/aarch64_gapbs_mini_suite.c:178-196 | with in-degree at most eight no pass below the 32-bit horizon exceeds 32 bits |
| `Pagerank.PagerankGather` | research/aarch64_gapbs_mini_suite.c:178-196 | the wrapping 32-bit sums equal the iterated gather over unbounded integers, within that limit |
| `PowerOfTwo.AffineDistinct` | research/aarch64_cache_service_workload.c:54-58 | an affine map with odd multiplier is one-to-one on the residues of a power of two |
| `PowerOfTwo.HitsExact` | research/aarch64_c_kernel_suite.c:119-122 | over m full periods such a map takes every value exactly m times |
| `NodeRing.NoEarlyReturn` | research/aarch64_c_kernel_suite.c:92-96 | multiplier 1 mod 4 and odd increment: no number of steps below the modulus returns to its start |
| `NodeRing.AffineLinksFormCycle` | research/aarch64_c_kernel_suite.c:92-96 | links by such a map form one single cycle through all nodes |
| `NodeRing.InitNodes` | research/aarch64_c_kernel_suite.c:92-96 | for any power-of-two number of nodes the initialiser's links form one single cycle |
| `HashKernel.KeysDistinct` | research/aarch64_c_kernel_suite.c:111-113 | different item numbers have different keys |
| `HashKernel.WordsUnmask` | research/aarch64_c_kernel_suite.c:111-116 | unmasking a key gives the multiplied item number, and unmasking a value with its key gives 17 times it |
| `HashKernel.ChainLength` | research/aarch64_c_kernel_suite.c:107-118 | every bucket's chain has exactly the average number of items |
| `HashKernel.AllFoundIff` | research/aarch64_c_kernel_suite.c:153-171 | every item is found before the depth cap exactly when a bucket holds at most eight items |
| `HashKernel.QueriesPerItem` | research/aarch64_c_kernel_suite.c:119-122 | in k rounds of queries every item is asked for exactly k times |
| `HashKernel.InitHash` | research/aarch64_c_kernel_suite.c:107-118 | the initialiser builds the chains that prepending the items in order prescribes, with their keys and values |
| `HashKernel.HashProbe` | research/aarch64_c_kernel_suite.c:153-171 | the accumulator is the exclusive or of the values found, and 0 for any even number of rounds, with or without the cap |
| `ChainedHash.Probe` | research/aarch64_c_kernel_suite.c:158-168 | a probe finds its item exactly when fewer than eight younger items share its bucket, and then contributes its value |
| `ChainedHash.Build` | research/aarch64_c_kernel_suite.c:107-118 | prepending yields exactly the specified chains for arbitrary keys and values |
| `ChainedHash.OldestPosition` | research/aarch64_c_kernel_suite.c:158-168 | the oldest item of a bucket is preceded by all its others |
| `ExclusiveOr.EvenPeriodsCancel` | research/aarch64_c_kernel_suite.c:153-171 | the exclusive or over an even number of periods of any periodic sequence is 0 |
| `ExclusiveOr.XorMask` | research/aarch64_c_kernel_suite.c:111-113 | masking commutes with exclusive or |
| `IntrusiveList.Unlink` | research/aarch64_cache_service_workload.c:76-91 | unlinking by the two neighbour updates leaves a well-formed list without the entry |
| `IntrusiveList.UnlinkElsewhere` | research/aarch64_cache_service_workload.c:122-136 | ... and every list it shares no entry with as it was |
| `IntrusiveList.Push` | research/aarch64_cache_service_workload.c:93-104 | pushing an unlinked entry at the head gives the well-formed list with it in front |
| `IntrusiveList.PushElsewhere` | research/aarch64_cache_service_workload.c:138-148 | ... and leaves every other list as it was |
| `HashChains.Remove` | research/aarch64_cache_service_workload.c:122-136 | removing an entry keeps all bucket chains well formed |
| `HashChains.Insert` | research/aarch64_cache_service_workload.c:138-148 | inserting an unfiled entry keeps all bucket chains well formed |
| `MachineWords.SpreadDistinct` | research/aarch64_cache_service_workload.c:54-58 | for every seed, seed factor and power-of-two size, different positions go to different slots, through the 64-bit and 32-bit wraps |
| `MachineWords.SpreadOnto` | research/aarch64_cache_service_workload.c:54-58 | every slot is reached |
| `CacheService.Cache.constructor` | research/aarch64_cache_service_workload.c:176-198 | initialisation links every entry once in the recency list and once in the chain of its own key's bucket, latest key first, with no hits and the value mixed from the key |
| `CacheService.Cache.LruRemove` | research/aarch64_cache_service_workload.c:76-91 | exactly the entry leaves the recency list; head, tail and links match the rest |
| `CacheService.Cache.LruPushFront` | research/aarch64_cache_service_workload.c:93-104 | an unlinked entry becomes the head of the well-formed list |
| `CacheService.Cache.LruTouch` | research/aarch64_cache_service_workload.c:106-114 | the entry moves to the front and the others keep their order |
| `CacheService.Cache.HashRemove` | research/aarch64_cache_service_workload.c:122-136 | exactly the entry leaves the chains; all others stay filed under their keys |
| `CacheService.Cache.HashInsert` | research/aarch64_cache_service_workload.c:138-148 | exactly the entry is added, in the bucket of its present key |
| `CacheService.Cache.Find` | research/aarch64_cache_service_workload.c:150-162 | the walk ends with the first entry of the key's chain that has the key, or with null exactly when no entry of the whole table has it |
| `CacheService.Cache.EntrySet` | research/aarch64_cache_service_workload.c:164-174 | re-keying an entry that is in no chain keeps every filed entry in place |
| `CacheService.Cache.ServeHit` | research/aarch64_cache_service_workload.c:233-241 | a hit counts modulo 2^32, mixes the value and moves the entry to the front, keeping the whole invariant |
| `CacheService.Cache.ServeMiss` | research/aarch64_cache_service_workload.c:242-253 | a miss re-keys the tail entry and moves it to the front, keeping the whole invariant; the missing-victim error is never taken |
| `CacheService.Cache.Request` | research/aarch64_cache_service_workload.c:220-254 | a request keeps the invariant, moves its key to the front or replaces the last key, and changes one entry only |
| `CacheKeys.KeyRange` | research/aarch64_cache_service_workload.c:60-64 | keys are odd, below 2^47, and above the lowest bit the mixed word itself |
| `CacheKeys.IndexIs` | research/aarch64_cache_service_workload.c:54-58 | for any power-of-two table the wrapped and masked index is the plain affine residue |
| `CacheKeys.AskedKey` | research/aarch64_cache_service_workload.c:225-231 | a usual request asks for an initial key of its seed, at a position decided by the mixed word's low half; the others ask for a key of another seed |
| `CacheLog.HitsSinceRekey` | research/aarch64_cache_service_workload.c:164-253 | an entry has the key of its last re-keying, and as many hits as refreshed it since, modulo 2^32 |
| `CacheLog.HitsSinceStart` | research/aarch64_cache_service_workload.c:164-253 | an entry never re-keyed keeps its key and counts all hits on it |
| `CacheLog.RefreshedHere` | research/aarch64_cache_service_workload.c:237-238 | a hit counts one modulo 2^32 and mixes value, operation and new count into the value |
| `CacheService.Cache.BucketHolds` | research/aarch64_cache_service_workload.c:116-120 | the chain of an entry's own bucket, and no other, holds it |
| `CacheShape.ServedIsRequest` | research/aarch64_cache_service_workload.c:220-254 | from duplicate-free keys a request is exactly the move-to-front step, and the keys stay duplicate-free |
| `Recency.RequestsAreMostRecent` | research/aarch64_cache_service_workload.c:220-254 | serving a trace by move-to-front steps gives the most recently used distinct keys of the whole history, in order |
| `Recency.Inclusion` | research/aarch64_cache_service_workload.c:220-254 | a larger cache's keys start with those of a smaller one fed the same requests |
| `CacheService.Cache.ValidateLru` | research/aarch64_cache_service_workload.c:260-282 | on arbitrary links the first half ends and passes exactly when a well-formed list of all entries runs from head to tail; the cycle error is unreachable |
| `CacheService.Cache.ValidateHash` | research/aarch64_cache_service_workload.c:284-305 | on arbitrary links the second half ends and passes exactly when the buckets spell well-formed chains whose lengths sum to the number of entries; those chains hold every entry exactly when no two buckets have one head |
| `CacheService.Cache.Validate` | research/aarch64_cache_service_workload.c:260-306 | validation passes exactly when both hold, and on every state that satisfies the invariant |
| `ListWalk.WalkNeverReturns` | research/aarch64_cache_service_workload.c:263-277 | a walk whose back links all check never meets an entry twice |
| `ListWalk.WalkAgrees` | research/aarch64_cache_service_workload.c:263-277 | a checked walk over a well-formed list is a prefix of it |
| `ChainCover.CoverTotals` | research/aarch64_cache_service_workload.c:284-305 | chains that share nothing and hold each entry have the table size in total, so every state that satisfies the invariant is accepted |
| `ChainCover.CoversIff` | research/aarch64_cache_service_workload.c:284-305 | chains that total the table size hold every entry exactly when no two buckets have the same non-null head |
| `ChainCover.MeetingListsShareHead` | research/aarch64_cache_service_workload.c:284-305 | two well-formed chains that share any entry share their head |
| `ChainCover.SharedHeadIsAccepted` | research/aarch64_cache_service_workload.c:284-305 | without disjointness the count accepts a table in which an entry is in no chain |
| `CacheRun.Run` | research/aarch64_cache_service_workload.c:352-360 | every run passes validation, and from distinct initial keys the cache holds exactly the most recently used keys of initial keys and requests together, in order; the entries are what one change a request leaves of the initial ones, request j being for operation j under a seed that grows by 17 a round, refreshing an entry that has the key or re-keying one when none has |
| `CacheRun.RunIsMostRecent` | research/aarch64_cache_service_workload.c:352-360 | the move-to-front run from the reversed initial keys equals that part of the history |
| `SessionRecords.BlocksDisjoint` | research/aarch64_tls_session_workload.c:217-237 | blocks of different sessions share no record |
| `SessionRecords.Pool.SessionSet` | research/aarch64_tls_session_workload.c:217-237 | setting a session writes its fields, refills its own records, rebuilds its chain as its contiguous block in order and touches no other session's fields, records or chain |
| `SessionRecords.Pool.InitSessions` | research/aarch64_tls_session_workload.c:239-262 | every session gets the fields made for its position in the index permutation, whose seed factor is the service's own, its own block, and the words made for its records |
| `SessionRecords.Pool.ProcessRecords` | research/aarch64_tls_session_workload.c:272-285 | the walk ends after min(limit, block size) records, having updated the authentication words of exactly those once each |
| `SessionRecords.Pool.constructor` | research/aarch64_tls_session_workload.c:239-253 | the tables are allocated for any number of sessions and any positive block size |
| `SessionRecords.Pool.ServeOne` | research/aarch64_tls_session_workload.c:299-331 | a hit counts, renews the session's epoch and authenticates its records under the new fields; a miss gives the slot a new session; all chains are kept |
| `SessionRecords.Pool.Serve` | research/aarch64_tls_session_workload.c:299-337 | any run of hits, misses and scan steps keeps every session's chain and leaves the fields and words the run prescribes |
| `SessionRecords.SessionsAreIsolated` | research/aarch64_tls_session_workload.c:217-337 | after any run a session's fields and records are what its own requests alone make of them |
| `SessionLaws.SessionIsHistory` | research/aarch64_tls_session_workload.c:217-331 | after any run a session is the one made from identifier and seed of its last miss, with the hits since chained onto it: keys and identifier unchanged, each hit's epoch mixed from the previous epoch, the operation and the new count, and folded into the other two words |
| `SessionLaws.HitsSinceMiss` | research/aarch64_tls_session_workload.c:217-331 | a session's hits are the number of its hits since its last miss, modulo 2^32 |
| `SessionLaws.HitsSinceStart` | research/aarch64_tls_session_workload.c:217-331 | a session never given up counts all its hits from where it started |
| `SessionLaws.ContentIsHistory` | research/aarch64_tls_session_workload.c:204-237 | after any run the words of a session's records are those that its last miss wrote |
| `SessionLaws.WalkAuthenticates` | research/aarch64_tls_session_workload.c:272-285 | a hit or scan moves both authentication words of each record it reaches by the authentication code, the renewed epoch and the renewed count, and touches no other record |
| `SessionLaws.MissAuthenticates` | research/aarch64_tls_session_workload.c:204-215 | a miss starts both words from the record's own sequence number and length |
| `SessionLaws.StartIsFresh` | research/aarch64_tls_session_workload.c:255-258 | initialisation makes each position a fresh session under its own identifier |
| `SessionLaws.SlotIs` | research/aarch64_tls_session_workload.c:70-74 | for any power-of-two number of sessions the wrapped and masked index is the plain affine residue |
| `SessionAuth.CodeDetects` | research/aarch64_tls_session_workload.c:92-114 | changing any one of the five words a record's code is computed over changes the code |
| `SessionAuth.RoundKeepsStates` | research/aarch64_tls_session_workload.c:92-100 | one round maps different 64-bit states to different states |
| `SessionAuth.RoundKeepsWords` | research/aarch64_tls_session_workload.c:92-100 | one round maps different words to different states |
| `SessionAuth.SidRange` | research/aarch64_tls_session_workload.c:76-80 | identifiers are odd multiples of eight below 2^48, above that the mixed word itself |
| `SessionAuth.PoisonRange` | research/aarch64_tls_session_workload.c:82-90 | ticket and mask words are multiples of eight made of bits of the mixed word, poisoned and plain ones in separate ranges |

## Left out

- Fields and outputs that steer nothing: the checksum folds (`fold`, `compute_gap`, kernel
  accumulators other than the probe's), the cache's poison words and entry tags, text traces and reports.
- `mix64`: an arbitrary function of 64-bit words; nothing about its values is used, so the initial
  cache keys may collide, and the recency refinement is stated for the case that they do not.
- The C structs are arrays of fields with index links, so pointer aliasing between structs does not
  arise; the arrays of one table are assumed separate, as one allocation each makes them.
- `scan_lru` of the cache and `scan_lru_sessions` of the TLS service: read-only walks that feed the
  checksum or the record update already modelled.
- Allocation failure, command lines and printing in all C programs.
- MachineWords.SpreadDistinct: does not cover sizes that are no power of two, which the programs refuse.
- The TLS service's LRU, hash and validation code, which repeats the cache service's; only its sessions
  and record blocks are modelled.
- SessionRecords.Pool.InitSessions: does not link the hash chains and the recency list, which the cache service's
  constructor covers.
- SessionRecords.Pool.ProcessRecords: does not fold the checksum, which nothing reads back; `Pool.ServeOne` gives it the
  authentication of `SessionWords.NextAuth`.
- RevocationEval.Evaluator.Step: does not draw its events; the draws of a cycle are arbitrary, so rates and
  percentages are not modelled. RevocationReplay restricts the rest of a cycle to what trace, pass and lookahead give.
- The random graph of the GAPBS suite (`init_graph`): the kernels are proved for every graph of the
  given degree, and Pagerank.PagerankGather takes the initial rank bound as a precondition.
- Pagerank.PagerankGather: does not decide for which pass counts the limit fits 32 bits; `NeverWraps` gives it for
  the suite's in-degree of eight.
- AcowTrial.GenerateExecution: does not model edge density or distributions; every draw is an arbitrary choice.
- AcowTrial.RunTrial: does not model timing or memory estimates.
- Clpd.UnsafeWithinTwo: does not name the checker's diagnosis text (`classify_unsafe`).
- The reason strings of the composed checker's hazard cover and over-hold searches, which select
  examples for its report.
- The other kernels of the C suites (pointer chase, tree lookup, hex parsing, fake-pointer scans), the
  storage and area models, the sensitivity sweep and all workloads driven by foreign libraries.
