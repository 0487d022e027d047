/** The Compressed Line-Provenance Directory: a direct-mapped table of per-line proof masks.

    The numbers of source lines, directory entries and words per line are parameters; tokens and
    line epochs are single bits, as in the checker.  Bit masks are sets of word numbers. */
module Clpd {
  import opened Levels
  import Search

  datatype Config = Config(lines: nat, entries: nat, words: nat)

  /** Every table is nonempty. */
  predicate Sensible(c: Config) {
    c.lines > 0 && c.entries > 0 && c.words > 0
  }

  datatype Entry = Entry(valid: bool, tag: nat, token: int, epoch: int, mask: set<nat>)
  const EMPTY := Entry(false, 0, 0, 0, {})

  datatype State = State(
    currentToken: int, lineEpoch: seq<int>, truthToken: seq<int>, truthMask: seq<set<nat>>, entries: seq<Entry>)

  datatype Kind = Write | Fill | Invalidate
  datatype Event = CommitWord(line: nat, word: nat) | UpdateLine(line: nat, kind: Kind) | ContextSwitch

  datatype Variant = Variant(
    checkTag: bool, checkToken: bool, checkEpoch: bool, checkWordMask: bool,
    clearOnWrite: bool, clearOnFill: bool, clearOnInvalidate: bool)

  const FULL := Variant(true, true, true, true, true, true, true)

  function Initial(c: Config): State {
    State(0, seq(c.lines, _ => 0), seq(c.lines, _ => 0), seq(c.lines, _ => {}), seq(c.entries, _ => EMPTY))
  }

  predicate Shaped(c: Config, s: State) {
    |s.lineEpoch| == |s.truthToken| == |s.truthMask| == c.lines && |s.entries| == c.entries
  }

  predicate InRange(c: Config, e: Event) {
    match e
    case CommitWord(line, word) => line < c.lines && word < c.words
    case UpdateLine(line, _) => line < c.lines
    case ContextSwitch => true
  }

  function Index(c: Config, line: nat): nat
    requires Sensible(c)
  {
    line % c.entries
  }

  predicate TruthAuthorized(c: Config, s: State, line: nat, word: nat, token: int, epoch: int)
    requires Shaped(c, s) && line < c.lines
  {
    s.truthToken[line] == token && s.lineEpoch[line] == epoch && word in s.truthMask[line]
  }

  predicate ClpdAuthorized(
      c: Config, s: State, v: Variant, line: nat, word: nat, srcToken: int, targetToken: int, epoch: int)
    requires Sensible(c) && Shaped(c, s)
  {
    var entry := s.entries[Index(c, line)];
    if !entry.valid then false
    else if v.checkTag && entry.tag != line then false
    else if v.checkEpoch && entry.epoch != epoch then false
    else if v.checkToken && (entry.token != srcToken || srcToken != targetToken) then false
    else if v.checkWordMask && word !in entry.mask then false
    else true
  }

  function Commit(c: Config, s: State, line: nat, word: nat): State
    requires Sensible(c) && Shaped(c, s) && line < c.lines
  {
    var i := Index(c, line);
    var entry := s.entries[i];
    var updated :=
      if entry.valid && entry.tag == line && entry.token == s.currentToken && entry.epoch == s.lineEpoch[line]
      then entry.(mask := entry.mask + {word})
      else Entry(true, line, s.currentToken, s.lineEpoch[line], {word});
    s.(truthMask := s.truthMask[line := s.truthMask[line] + {word}],
       truthToken := s.truthToken[line := s.currentToken],
       entries := s.entries[i := updated])
  }

  predicate ShouldClear(v: Variant, kind: Kind) {
    match kind
    case Write => v.clearOnWrite
    case Fill => v.clearOnFill
    case Invalidate => v.clearOnInvalidate
  }

  function ClearIfMatch(c: Config, s: State, line: nat, shouldClear: bool): seq<Entry>
    requires Sensible(c) && Shaped(c, s)
  {
    var i := Index(c, line);
    if shouldClear && s.entries[i].valid && s.entries[i].tag == line then s.entries[i := EMPTY] else s.entries
  }

  function Update(c: Config, s: State, v: Variant, line: nat, kind: Kind): State
    requires Sensible(c) && Shaped(c, s) && line < c.lines
  {
    s.(lineEpoch := s.lineEpoch[line := 1 - s.lineEpoch[line]],
       truthMask := s.truthMask[line := {}],
       entries := ClearIfMatch(c, s, line, ShouldClear(v, kind)))
  }

  function Apply(c: Config, s: State, v: Variant, e: Event): (s': State)
    requires Sensible(c) && Shaped(c, s) && InRange(c, e)
    ensures Shaped(c, s')
  {
    match e
    case CommitWord(line, word) => Commit(c, s, line, word)
    case UpdateLine(line, kind) => Update(c, s, v, line, kind)
    case ContextSwitch => s.(currentToken := 1 - s.currentToken)
  }

  // ----- the directory against the trace

  ghost predicate Trace(c: Config, trace: seq<Event>) {
    forall e :: e in trace ==> InRange(c, e)
  }

  ghost function Run(c: Config, v: Variant, trace: seq<Event>): (s: State)
    requires Sensible(c) && Trace(c, trace)
    ensures Shaped(c, s)
  {
    if trace == [] then Initial(c) else Apply(c, Run(c, v, Front(trace)), v, trace[|trace| - 1])
  }

  ghost function Front(trace: seq<Event>): seq<Event>
    requires trace != []
  {
    trace[..|trace| - 1]
  }

  /** The address space running when event `k` of the trace happens. */
  ghost function TokenAt(trace: seq<Event>, k: nat): int
    requires k <= |trace|
  {
    if k == 0 then 0
    else if trace[k - 1] == ContextSwitch then 1 - TokenAt(trace, k - 1)
    else TokenAt(trace, k - 1)
  }

  /** Event `e`, under token `running`, ends the life of proofs for `line` committed under `token`:
      it updates the line or takes over its directory entry. */
  ghost predicate Kills(c: Config, e: Event, running: int, line: nat, token: int)
    requires Sensible(c)
  {
    match e
    case CommitWord(other, _) => Index(c, other) == Index(c, line) && (other != line || running != token)
    case UpdateLine(other, _) => other == line
    case ContextSwitch => false
  }

  ghost predicate LiveAt(c: Config, trace: seq<Event>, k: nat, line: nat, word: nat, token: int)
    requires Sensible(c) && k < |trace|
  {
    && trace[k] == CommitWord(line, word) && TokenAt(trace, k) == token
    && forall j :: k < j < |trace| ==> !Kills(c, trace[j], TokenAt(trace, j), line, token)
  }

  /** The trace commits the word under the token, and nothing kills that proof afterwards. */
  ghost predicate LiveCommit(c: Config, trace: seq<Event>, line: nat, word: nat, token: int)
    requires Sensible(c)
  {
    exists k: nat :: k < |trace| && LiveAt(c, trace, k, line, word, token)
  }

  lemma {:induction false} TokenAtPrefix(trace: seq<Event>, k: nat, n: nat)
    requires k <= n <= |trace|
    ensures TokenAt(trace[..n], k) == TokenAt(trace, k)
    decreases k
  {
    if k > 0 {
      TokenAtPrefix(trace, k - 1, n);
    }
  }

  lemma LiveAtSnoc(c: Config, trace: seq<Event>, k: nat, line: nat, word: nat, token: int)
    requires Sensible(c) && k + 1 < |trace|
    ensures LiveAt(c, trace, k, line, word, token) <==>
            LiveAt(c, Front(trace), k, line, word, token)
            && !Kills(c, trace[|trace| - 1], TokenAt(trace, |trace| - 1), line, token)
  {
    var n := |trace| - 1;
    forall j | 0 <= j <= n ensures TokenAt(Front(trace), j) == TokenAt(trace, j) {
      TokenAtPrefix(trace, j, n);
    }
    if LiveAt(c, Front(trace), k, line, word, token) && !Kills(c, trace[n], TokenAt(trace, n), line, token) {
      forall j | k < j < |trace| ensures !Kills(c, trace[j], TokenAt(trace, j), line, token) {
        if j < n {
          assert Front(trace)[j] == trace[j];
        }
      }
    }
  }

  lemma LiveCommitSnoc(c: Config, trace: seq<Event>, line: nat, word: nat, token: int)
    requires Sensible(c) && trace != []
    ensures LiveCommit(c, trace, line, word, token) <==>
            (trace[|trace| - 1] == CommitWord(line, word) && TokenAt(trace, |trace| - 1) == token)
            || (LiveCommit(c, Front(trace), line, word, token)
                && !Kills(c, trace[|trace| - 1], TokenAt(trace, |trace| - 1), line, token))
  {
    var n := |trace| - 1;
    forall k: nat | k < n
      ensures LiveAt(c, trace, k, line, word, token) <==>
              LiveAt(c, Front(trace), k, line, word, token) && !Kills(c, trace[n], TokenAt(trace, n), line, token)
    {
      LiveAtSnoc(c, trace, k, line, word, token);
    }
    assert LiveAt(c, trace, n, line, word, token) <==>
           trace[n] == CommitWord(line, word) && TokenAt(trace, n) == token;
  }

  /** What the table keeps as long as every update clears the matching entry. */
  ghost predicate TableInvariant(c: Config, s: State)
    requires Sensible(c) && Shaped(c, s)
  {
    forall i :: 0 <= i < c.entries && s.entries[i].valid ==>
      var e := s.entries[i];
      && e.tag < c.lines && Index(c, e.tag) == i
      && e.epoch == s.lineEpoch[e.tag] && e.token == s.truthToken[e.tag]
      && e.mask != {} && e.mask <= s.truthMask[e.tag] && (forall w :: w in e.mask ==> w < c.words)
  }

  ghost predicate ClearsAlways(v: Variant) {
    v.clearOnWrite && v.clearOnFill && v.clearOnInvalidate
  }

  lemma ApplyKeepsTable(c: Config, s: State, v: Variant, e: Event)
    requires Sensible(c) && Shaped(c, s) && InRange(c, e) && ClearsAlways(v) && TableInvariant(c, s)
    ensures TableInvariant(c, Apply(c, s, v, e))
  {
    var t := Apply(c, s, v, e);
    forall i | 0 <= i < c.entries && t.entries[i].valid
      ensures var f := t.entries[i];
              && f.tag < c.lines && Index(c, f.tag) == i
              && f.epoch == t.lineEpoch[f.tag] && f.token == t.truthToken[f.tag]
              && f.mask != {} && f.mask <= t.truthMask[f.tag] && (forall w :: w in f.mask ==> w < c.words)
    {
      if s.entries[i].valid {
        assert Index(c, s.entries[i].tag) == i;
      }
      if e.CommitWord? && i == Index(c, e.line) {
        assert e.word in t.entries[i].mask;
      }
    }
  }

  ghost predicate Holds(entry: Entry, line: nat, word: nat, token: int) {
    entry.valid && entry.tag == line && entry.token == token && word in entry.mask
  }

  /** The directory holds exactly the live commits of the trace. */
  lemma {:induction false} TableIsTrace(c: Config, v: Variant, trace: seq<Event>, line: nat, word: nat, token: int)
    requires Sensible(c) && Trace(c, trace) && ClearsAlways(v) && line < c.lines
    ensures TableInvariant(c, Run(c, v, trace)) && Run(c, v, trace).currentToken == TokenAt(trace, |trace|)
    ensures Holds(Run(c, v, trace).entries[Index(c, line)], line, word, token)
            <==> LiveCommit(c, trace, line, word, token)
    decreases |trace|
  {
    if trace != [] {
      var n := |trace| - 1;
      var s, e := Run(c, v, Front(trace)), trace[n];
      TableIsTrace(c, v, Front(trace), line, word, token);
      TokenAtPrefix(trace, n, n);
      ApplyKeepsTable(c, s, v, e);
      LiveCommitSnoc(c, trace, line, word, token);
    }
  }

  /** The full design authorises a query exactly when the epoch is the line's own, the tokens agree
      and the trace holds a live commit of the word under that token. */
  lemma AuthorizedIff(
      c: Config, trace: seq<Event>, line: nat, word: nat, srcToken: int, targetToken: int, epoch: int)
    requires Sensible(c) && Trace(c, trace) && line < c.lines
    ensures ClpdAuthorized(c, Run(c, FULL, trace), FULL, line, word, srcToken, targetToken, epoch) <==>
            epoch == Run(c, FULL, trace).lineEpoch[line] && srcToken == targetToken
            && LiveCommit(c, trace, line, word, srcToken)
  {
    TableIsTrace(c, FULL, trace, line, word, srcToken);
  }

  // ----- the checker's ground truth against the trace

  ghost predicate NoUpdateAfter(trace: seq<Event>, k: nat, line: nat) {
    forall j :: k < j < |trace| ==> !(trace[j].UpdateLine? && trace[j].line == line)
  }

  ghost predicate NoCommitAfter(trace: seq<Event>, k: nat, line: nat) {
    forall j :: k < j < |trace| ==> !(trace[j].CommitWord? && trace[j].line == line)
  }

  /** The word was committed to the line, under whatever token, since the line's last update. */
  ghost predicate WordCommitted(trace: seq<Event>, line: nat, word: nat) {
    exists k: nat :: k < |trace| && trace[k] == CommitWord(line, word) && NoUpdateAfter(trace, k, line)
  }

  /** The same, under that token. */
  ghost predicate WordCommittedBy(trace: seq<Event>, line: nat, word: nat, token: int) {
    exists k: nat :: k < |trace| && trace[k] == CommitWord(line, word) && TokenAt(trace, k) == token
                     && NoUpdateAfter(trace, k, line)
  }

  /** The last commit to the line, of whatever word, ran under the token. */
  ghost predicate LastCommitBy(trace: seq<Event>, line: nat, token: int) {
    exists k: nat :: LastCommitAt(trace, k, line, token)
  }

  ghost predicate LastCommitAt(trace: seq<Event>, k: nat, line: nat, token: int) {
    && k < |trace| && trace[k].CommitWord? && trace[k].line == line && TokenAt(trace, k) == token
    && NoCommitAfter(trace, k, line)
  }

  /** A step in the life of `WordCommitted`: a commit of the word starts it, an update of the line ends it. */
  lemma WordCommittedSnoc(trace: seq<Event>, line: nat, word: nat)
    requires trace != []
    ensures var e := trace[|trace| - 1];
            WordCommitted(trace, line, word) <==>
            e == CommitWord(line, word)
            || (WordCommitted(Front(trace), line, word) && !(e.UpdateLine? && e.line == line))
  {
    var n, front := |trace| - 1, Front(trace);
    var e := trace[n];
    if e == CommitWord(line, word) {
      assert NoUpdateAfter(trace, n, line);
    }
    if WordCommitted(front, line, word) && !(e.UpdateLine? && e.line == line) {
      var k: nat :| k < |front| && front[k] == CommitWord(line, word) && NoUpdateAfter(front, k, line);
      forall j | k < j < |trace| ensures !(trace[j].UpdateLine? && trace[j].line == line) {
        assert j < n ==> trace[j] == front[j];
      }
      assert trace[k] == CommitWord(line, word) && NoUpdateAfter(trace, k, line);
    }
    if WordCommitted(trace, line, word) && e != CommitWord(line, word) {
      var k: nat :| k < |trace| && trace[k] == CommitWord(line, word) && NoUpdateAfter(trace, k, line);
      assert front[k] == CommitWord(line, word);
      forall j | k < j < |front| ensures !(front[j].UpdateLine? && front[j].line == line) {
        assert front[j] == trace[j];
      }
      assert NoUpdateAfter(front, k, line);
    }
  }

  lemma LastCommitBySnoc(trace: seq<Event>, line: nat, token: int)
    requires trace != []
    ensures var e := trace[|trace| - 1];
            LastCommitBy(trace, line, token) <==>
            if e.CommitWord? && e.line == line then TokenAt(trace, |trace| - 1) == token
            else LastCommitBy(Front(trace), line, token)
  {
    var n, front := |trace| - 1, Front(trace);
    if LastCommitBy(trace, line, token) {
      var k: nat :| LastCommitAt(trace, k, line, token);
      if k < n {
        LastCommitAtSnoc(trace, k, line, token);
      }
    }
    if trace[n].CommitWord? && trace[n].line == line {
      assert TokenAt(trace, n) == token ==> LastCommitAt(trace, n, line, token);
    } else if LastCommitBy(front, line, token) {
      var k: nat :| LastCommitAt(front, k, line, token);
      LastCommitAtSnoc(trace, k, line, token);
    }
  }

  lemma LastCommitAtSnoc(trace: seq<Event>, k: nat, line: nat, token: int)
    requires k + 1 < |trace|
    ensures var e := trace[|trace| - 1];
            LastCommitAt(trace, k, line, token) <==>
            LastCommitAt(Front(trace), k, line, token) && !(e.CommitWord? && e.line == line)
  {
    var n, front := |trace| - 1, Front(trace);
    TokenAtPrefix(trace, k, n);
    assert front[k] == trace[k];
    if NoCommitAfter(front, k, line) && !(trace[n].CommitWord? && trace[n].line == line) {
      forall j | k < j < |trace| ensures !(trace[j].CommitWord? && trace[j].line == line) {
        assert j < n ==> trace[j] == front[j];
      }
    }
    if NoCommitAfter(trace, k, line) {
      forall j | k < j < |front| ensures !(front[j].CommitWord? && front[j].line == line) {
        assert front[j] == trace[j];
      }
      assert !(trace[n].CommitWord? && trace[n].line == line);
    }
  }

  function Updates(trace: seq<Event>, line: nat): nat {
    if trace == [] then 0
    else
      var e := trace[|trace| - 1];
      Updates(trace[..|trace| - 1], line) + if e.UpdateLine? && e.line == line then 1 else 0
  }

  lemma TruthStep(c: Config, s: State, v: Variant, e: Event, line: nat, word: nat, token: int)
    requires Sensible(c) && Shaped(c, s) && InRange(c, e) && line < c.lines
    ensures var t := Apply(c, s, v, e);
            var here := e.CommitWord? && e.line == line;
            var updated := e.UpdateLine? && e.line == line;
            && t.currentToken == (if e == ContextSwitch then 1 - s.currentToken else s.currentToken)
            && t.lineEpoch[line] == (if updated then 1 - s.lineEpoch[line] else s.lineEpoch[line])
            && (word in t.truthMask[line] <==> e == CommitWord(line, word) || (word in s.truthMask[line] && !updated))
            && t.truthToken[line] == (if here then s.currentToken else s.truthToken[line])
            && (t.truthMask[line] != {} && !here ==> s.truthMask[line] != {})
  {
  }

  /** What the three fields of the ground truth remember of a trace, in every variant. */
  lemma {:induction false} TruthFields(c: Config, v: Variant, trace: seq<Event>, line: nat, word: nat, token: int)
    requires Sensible(c) && Trace(c, trace) && line < c.lines
    ensures var s := Run(c, v, trace);
            && s.currentToken == TokenAt(trace, |trace|) && s.lineEpoch[line] == Updates(trace, line) % 2
            && (word in s.truthMask[line] <==> WordCommitted(trace, line, word))
            && (s.truthMask[line] != {} ==> (s.truthToken[line] == token <==> LastCommitBy(trace, line, token)))
    decreases |trace|
  {
    if trace != [] {
      var n := |trace| - 1;
      var s := Run(c, v, Front(trace));
      TruthFields(c, v, Front(trace), line, word, token);
      TokenAtPrefix(trace, n, n);
      WordCommittedSnoc(trace, line, word);
      LastCommitBySnoc(trace, line, token);
      assert Run(c, v, trace) == Apply(c, s, v, trace[n]);
      TruthStep(c, s, v, trace[n], line, word, token);
    }
  }

  /** Ground truth, read off the trace: the epoch is the parity of the line's updates, the word was
      committed since the last of them under some token, and the line's last commit was the token's. */
  lemma TruthIsTrace(
      c: Config, v: Variant, trace: seq<Event>, line: nat, word: nat, token: int, epoch: int)
    requires Sensible(c) && Trace(c, trace) && line < c.lines
    ensures TruthAuthorized(c, Run(c, v, trace), line, word, token, epoch) <==>
            epoch == Updates(trace, line) % 2
            && WordCommitted(trace, line, word) && LastCommitBy(trace, line, token)
  {
    TruthFields(c, v, trace, line, word, token);
  }

  /** In no run does ground truth vouch for a word that its token has not committed since the line's
      last update. */
  ghost predicate TruthPerToken(c: Config, v: Variant)
    requires Sensible(c)
  {
    forall trace, line: nat, word: nat, token, epoch ::
      Trace(c, trace) && line < c.lines && TruthAuthorized(c, Run(c, v, trace), line, word, token, epoch)
      ==> WordCommittedBy(trace, line, word, token)
  }

  lemma OneWordIsPerToken(
      c: Config, v: Variant, trace: seq<Event>, line: nat, word: nat, token: int, epoch: int)
    requires Sensible(c) && c.words == 1 && Trace(c, trace) && line < c.lines
    requires TruthAuthorized(c, Run(c, v, trace), line, word, token, epoch)
    ensures WordCommittedBy(trace, line, word, token)
  {
    TruthIsTrace(c, v, trace, line, word, token, epoch);
    var k: nat :| k < |trace| && trace[k] == CommitWord(line, word) && NoUpdateAfter(trace, k, line);
    var l: nat :| LastCommitAt(trace, l, line, token);
    assert k <= l && trace[l] in trace && trace[k] in trace;
    assert trace[l] == CommitWord(line, word) && NoUpdateAfter(trace, l, line);
  }

  /** With two words in a line, the mask of one token vouches for another: the trace commits word 0
      under token 0 only, and ground truth holds for it under token 1. */
  lemma TruthMixesTokens(c: Config, v: Variant)
    requires Sensible(c) && c.words > 1
    ensures var trace := [CommitWord(0, 0), ContextSwitch, CommitWord(0, 1)];
            && Trace(c, trace) && TruthAuthorized(c, Run(c, v, trace), 0, 0, 1, 0)
            && forall k: nat :: k < |trace| && trace[k] == CommitWord(0, 0) ==> TokenAt(trace, k) != 1
  {
    var trace := [CommitWord(0, 0), ContextSwitch, CommitWord(0, 1)];
    assert TokenAt(trace, 0) == 0 && TokenAt(trace, 1) == 0 && TokenAt(trace, 2) == 1;
    assert NoUpdateAfter(trace, 0, 0) && trace[0] == CommitWord(0, 0);
    assert LastCommitAt(trace, 2, 0, 1);
    assert Updates(trace[..1], 0) == 0 && trace[..2][..1] == trace[..1];
    assert Updates(trace[..2], 0) == 0;
    TruthIsTrace(c, v, trace, 0, 0, 1, 0);
  }

  /** The ground truth is a statement about its own token in every run exactly when lines have one word. */
  lemma TruthPerTokenIff(c: Config, v: Variant)
    requires Sensible(c)
    ensures TruthPerToken(c, v) <==> c.words == 1
  {
    if c.words == 1 {
      forall trace, line: nat, word: nat, token, epoch
        | Trace(c, trace) && line < c.lines && TruthAuthorized(c, Run(c, v, trace), line, word, token, epoch)
        ensures WordCommittedBy(trace, line, word, token)
      {
        OneWordIsPerToken(c, v, trace, line, word, token, epoch);
      }
    } else {
      TruthMixesTokens(c, v);
      var trace := [CommitWord(0, 0), ContextSwitch, CommitWord(0, 1)];
      assert !WordCommittedBy(trace, 0, 0, 1);
    }
  }

  // ----- the checker and its variants

  /** `unsafe_query`: some query is authorised without ground truth. */
  predicate UnsafeQuery(c: Config, s: State, v: Variant)
    requires Sensible(c) && Shaped(c, s)
  {
    exists line: nat, word: nat, srcToken: int, targetToken: int, epoch: int ::
      line < c.lines && word < c.words && 0 <= srcToken < 2 && 0 <= targetToken < 2 && 0 <= epoch < 2
      && UnsafeAt(c, s, v, line, word, srcToken, targetToken, epoch)
  }

  predicate UnsafeAt(
      c: Config, s: State, v: Variant, line: nat, word: nat, srcToken: int, targetToken: int, epoch: int)
    requires Sensible(c) && Shaped(c, s) && line < c.lines
  {
    && ClpdAuthorized(c, s, v, line, word, srcToken, targetToken, epoch)
    && !TruthAuthorized(c, s, line, word, srcToken, epoch)
  }

  function ForEachLine(lines: nat, f: nat -> seq<Event>): seq<Event> {
    if lines == 0 then [] else ForEachLine(lines - 1, f) + f(lines - 1)
  }

  function CommitsOf(c: Config): nat -> seq<Event> {
    (line: nat) => seq(c.words, (word: nat) => CommitWord(line, word))
  }

  function UpdatesOf(): nat -> seq<Event> {
    (line: nat) => [UpdateLine(line, Write), UpdateLine(line, Fill), UpdateLine(line, Invalidate)]
  }

  /** The steps of `successors`, in its order. */
  function Events(c: Config): seq<Event> {
    ForEachLine(c.lines, CommitsOf(c)) + ForEachLine(c.lines, UpdatesOf()) + [ContextSwitch]
  }

  lemma {:induction false} ForEachLineHas(lines: nat, f: nat -> seq<Event>, e: Event)
    ensures e in ForEachLine(lines, f) <==> exists line: nat :: line < lines && e in f(line)
  {
    if lines > 0 {
      ForEachLineHas(lines - 1, f, e);
    }
  }

  lemma EventsAreInRange(c: Config, e: Event)
    ensures e in Events(c) <==> InRange(c, e)
  {
    ForEachLineHas(c.lines, CommitsOf(c), e);
    ForEachLineHas(c.lines, UpdatesOf(), e);
    match e {
      case CommitWord(line, word) =>
        if InRange(c, e) {
          assert CommitsOf(c)(line)[word] == e;
          assert e in CommitsOf(c)(line);
        }
      case UpdateLine(line, kind) =>
        assert UpdatesOf()(line)[match kind case Write => 0 case Fill => 1 case Invalidate => 2] == e;
      case ContextSwitch =>
    }
  }

  /** One step of the checker.  Events outside `Events` and states of another shape never occur. */
  function Step(c: Config, v: Variant): (State, Event) -> State
    requires Sensible(c)
  {
    (s: State, e: Event) => if Shaped(c, s) && InRange(c, e) then Apply(c, s, v, e) else s
  }

  function Successors(c: Config, v: Variant): State -> seq<(Event, State)>
    requires Sensible(c)
  {
    Search.EventSuccessors(Events(c), Step(c, v))
  }

  function Bad(c: Config, v: Variant): State -> bool
    requires Sensible(c)
  {
    (s: State) => Shaped(c, s) && UnsafeQuery(c, s, v)
  }

  /** Which checks a configuration needs: tags matter only if two lines share an entry, word masks
      only if lines have several words. */
  predicate Sufficient(c: Config, v: Variant) {
    && (v.checkTag || c.lines <= c.entries) && v.checkToken && v.checkEpoch
    && (v.checkWordMask || c.words <= 1)
    && v.clearOnWrite && v.clearOnFill && v.clearOnInvalidate
  }

  lemma SufficientIsSafe(c: Config, v: Variant, d: nat, s: State)
    requires Sensible(c) && Sufficient(c, v) && s in Within(Successors(c, v), Initial(c), d)
    ensures Shaped(c, s) && !UnsafeQuery(c, s, v)
  {
    var inv := (t: State) => Shaped(c, t) && TableInvariant(c, t);
    var succ := Successors(c, v);
    forall t, i | inv(t) && 0 <= i < |succ(t)| ensures inv(succ(t)[i].1) {
      if InRange(c, Events(c)[i]) {
        ApplyKeepsTable(c, t, v, Events(c)[i]);
      }
    }
    InvariantWithin(succ, Initial(c), inv, d);
    assert inv(s);
    forall line: nat, word: nat, srcToken, targetToken, epoch | line < c.lines && word < c.words
      ensures !UnsafeAt(c, s, v, line, word, srcToken, targetToken, epoch)
    {
      TableIsSafe(c, s, v, line, word, srcToken, targetToken, epoch);
    }
  }

  lemma TableIsSafe(
      c: Config, s: State, v: Variant, line: nat, word: nat, srcToken: int, targetToken: int, epoch: int)
    requires Sensible(c) && Sufficient(c, v) && Shaped(c, s) && TableInvariant(c, s)
    requires line < c.lines && word < c.words
    ensures !UnsafeAt(c, s, v, line, word, srcToken, targetToken, epoch)
  {
    var entry := s.entries[Index(c, line)];
    if entry.valid {
      assert Index(c, entry.tag) == Index(c, line);
      assert c.lines <= c.entries ==> entry.tag == line;
      var w :| w in entry.mask;
      assert c.words == 1 ==> w == word;
    }
  }

  lemma Reaches(c: Config, v: Variant, d: nat, s: State, e: Event) returns (d': nat, t: State)
    requires Sensible(c) && Shaped(c, s) && InRange(c, e) && s in Within(Successors(c, v), Initial(c), d)
    ensures d' == d + 1 && t == Apply(c, s, v, e) && t in Within(Successors(c, v), Initial(c), d')
  {
    d', t := d + 1, Apply(c, s, v, e);
    var i := SuccessorAt(c, v, s, e);
    StepWithin(Successors(c, v), Initial(c), d, s, i);
  }

  lemma SuccessorAt(c: Config, v: Variant, s: State, e: Event) returns (i: nat)
    requires Sensible(c) && Shaped(c, s) && InRange(c, e)
    ensures i < |Successors(c, v)(s)| && Successors(c, v)(s)[i].1 == Apply(c, s, v, e)
  {
    EventsAreInRange(c, e);
    var events := Events(c);
    i :| 0 <= i < |events| && events[i] == e;
    assert Step(c, v)(s, e) == Apply(c, s, v, e);
  }

  /** A missing check or clear is exposed by one commit and at most one update. */
  lemma UnsafeWithinTwo(c: Config, v: Variant) returns (d: nat, s: State)
    requires Sensible(c) && !Sufficient(c, v)
    ensures d <= 2 && s in Within(Successors(c, v), Initial(c), d) && Shaped(c, s) && UnsafeQuery(c, s, v)
  {
    d, s := 0, Initial(c);
    d, s := Reaches(c, v, d, s, CommitWord(0, 0));
    assert s.entries[0] == Entry(true, 0, 0, 0, {0});
    if !v.checkTag && c.entries < c.lines {
      assert Index(c, c.entries) == 0;
      assert UnsafeAt(c, s, v, c.entries, 0, 0, 0, 0);
    } else if !v.checkToken {
      assert UnsafeAt(c, s, v, 0, 0, 1, 1, 0);
    } else if !v.checkEpoch {
      assert UnsafeAt(c, s, v, 0, 0, 0, 0, 1);
    } else if !v.checkWordMask && c.words > 1 {
      assert UnsafeAt(c, s, v, 0, 1, 0, 0, 0);
    } else {
      var kind := if !v.clearOnWrite then Write else if !v.clearOnFill then Fill else Invalidate;
      d, s := Reaches(c, v, d, s, UpdateLine(0, kind));
      assert UnsafeAt(c, s, v, 0, 0, 0, 0, 0);
    }
  }

  /** Over all 128 flag settings, all table sizes and all runs: safe exactly when `Sufficient`. */
  lemma SafeIff(c: Config, v: Variant)
    requires Sensible(c)
    ensures Sufficient(c, v) <==>
            forall s :: Reachable(Successors(c, v), Initial(c), s) ==> Shaped(c, s) && !UnsafeQuery(c, s, v)
  {
    if Sufficient(c, v) {
      forall s | Reachable(Successors(c, v), Initial(c), s) ensures Shaped(c, s) && !UnsafeQuery(c, s, v) {
        var d: nat :| s in Within(Successors(c, v), Initial(c), d);
        SufficientIsSafe(c, v, d, s);
      }
    } else {
      var d, s := UnsafeWithinTwo(c, v);
      assert Reachable(Successors(c, v), Initial(c), s);
    }
  }

  /** `check_variant`.  At depth 2 or more (the program uses 8) the bounded verdict is final. */
  method CheckVariant(c: Config, v: Variant, maxDepth: nat)
      returns (ok: bool, explored: nat, trace: seq<Event>, culprit: State)
    requires Sensible(c)
    ensures ok <==> Search.NoneWithin(Successors(c, v), Initial(c), Bad(c, v), maxDepth)
    ensures 2 <= maxDepth ==> (ok <==> Sufficient(c, v))
    ensures ok ==> explored == |Within(Successors(c, v), Initial(c), maxDepth)| && trace == []
    ensures !ok ==> |trace| <= maxDepth
                    && Search.ShortestCounterexample(Successors(c, v), Initial(c), Bad(c, v), trace, culprit)
  {
    ok, explored, trace, culprit := Search.CheckBounded(Initial(c), Successors(c, v), Bad(c, v), maxDepth);
    if Sufficient(c, v) {
      forall s | s in Within(Successors(c, v), Initial(c), maxDepth) ensures !Bad(c, v)(s) {
        SufficientIsSafe(c, v, maxDepth, s);
      }
    } else if 2 <= maxDepth {
      ghost var d, s := UnsafeWithinTwo(c, v);
      WithinMonotone(Successors(c, v), Initial(c), d, maxDepth);
      assert Bad(c, v)(s);
    }
  }
}
