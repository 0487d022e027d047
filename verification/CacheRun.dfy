/** A whole run of the cache service: initialise, serve every round, validate. */
module CacheRun {

  import opened Sequences
  import opened MachineWords
  import opened CacheKeys
  import opened CacheShape
  import opened CacheService
  import opened CacheLog
  import PowerOfTwo
  import Recency

  /** The key asked for by operation `op` of round `r`. */
  ghost function Asked(mix: nat -> nat, items: nat, requests: nat, seed: nat, r: nat, op: nat): nat
    requires items > 0
  {
    RequestKey(mix, items, (op + r * requests) % POW32, (seed + r * 17) % POW32)
  }

  /** The keys asked for before operation `op` of round `r`, in order. */
  ghost function AskedBefore(mix: nat -> nat, items: nat, requests: nat, seed: nat, r: nat, op: nat): seq<nat>
    requires items > 0
    decreases r, op
  {
    if op > 0 then
      AskedBefore(mix, items, requests, seed, r, op - 1) + [Asked(mix, items, requests, seed, r, op - 1)]
    else if r > 0 then
      AskedBefore(mix, items, requests, seed, r - 1, requests)
    else []
  }

  lemma RequestsExtend(keys: seq<nat>, trace: seq<nat>, key: nat)
    requires keys != []
    ensures Recency.Requests(keys, trace + [key]) == Recency.Request(Recency.Requests(keys, trace), key)
  {
    assert (trace + [key])[..|trace|] == trace;
  }

  /** From distinct initial keys, the keys after a trace are the most recent ones of the whole history. */
  lemma RunIsMostRecent(initial: seq<nat>, trace: seq<nat>)
    requires Distinct(initial) && initial != []
    ensures |Recency.MostRecent(initial + trace)| >= |initial|
    ensures Recency.Reversed(initial) != [] && Distinct(Recency.Reversed(initial))
    ensures Recency.Requests(Recency.Reversed(initial), trace)
            == Recency.MostRecent(initial + trace)[..|initial|]
  {
    var n := |initial|;
    Recency.DistinctHistory(initial);
    Recency.MostRecentDistinct(initial);
    Recency.ReversedLength(initial);
    Recency.RequestsAreMostRecent(initial, n, trace);
    assert Recency.MostRecent(initial)[..n] == Recency.Reversed(initial);
  }

  /** The cache refines the move-to-front list of keys, provided it started without duplicates. */
  ghost predicate Tracks(keys: seq<nat>, initial: seq<nat>, trace: seq<nat>) {
    initial != [] && Distinct(initial) ==>
      Distinct(keys) && keys == Recency.Requests(initial, trace)
  }

  lemma TracksNext(before: seq<nat>, after: seq<nat>, initial: seq<nat>, trace: seq<nat>, key: nat)
    requires Tracks(before, initial, trace) && Served(before, after, key)
    ensures Tracks(after, initial, trace + [key])
  {
    if initial != [] && Distinct(initial) {
      ServedIsRequest(before, after, key);
      RequestsExtend(initial, trace, key);
    }
  }

  /** The entries are those that the changes leave, one for each request so far. */
  ghost predicate Logged(t: Table, start: Table, mix: nat -> nat, changes: seq<Change>, requests: nat, seed: nat) {
    && Holds(start, |start.key|) && start.key != [] && Explained(start, mix, changes, requests, seed)
    && t == TableAfter(start, mix, changes)
  }

  /** Request number `n` is operation `op` of round `r`. */
  lemma NumberOf(requests: nat, seed: nat, r: nat, op: nat, n: nat)
    requires op < requests && n == op + r * requests
    ensures SeedAt(requests, seed, n) == (seed + r * 17) % POW32
  {
    PowerOfTwo.QuotientIs(op + r * requests, requests, r, op);
  }

  /** What request number `|changes|` did, as a change. */
  ghost function ChangeOf(t: Table, mix: nat -> nat, e: int, op: nat, seed: nat): Change
    requires t.key != []
  {
    var k := RequestKey(mix, |t.key|, op, seed);
    if k in t.key then Refresh(e, op) else Rekey(e, k, MissValue(mix, op, seed))
  }

  lemma ChangeAnswers(t: Table, u: Table, mix: nat -> nat, e: int, op: nat, seed: nat)
    requires Holds(t, |t.key|) && 0 <= e < |t.key|
    requires var k := RequestKey(mix, |t.key|, op, seed);
             if k in t.key then t.key[e] == k && u == Refreshed(t, e, mix, op)
             else u == Rekeyed(t, e, k, MissValue(mix, op, seed))
    ensures var c := ChangeOf(t, mix, e, op, seed); Answers(t, mix, c, op, seed) && u == Changed(t, mix, c)
  {
  }

  lemma LoggedNext(t: Table, u: Table, start: Table, mix: nat -> nat, changes: seq<Change>, requests: nat, seed: nat,
                   c: Change, op: nat, s: nat)
    requires Logged(t, start, mix, changes, requests, seed)
    requires op == |changes| % POW32 && s == SeedAt(requests, seed, |changes|)
    requires Holds(t, |t.key|) && |t.key| == |start.key| && Answers(t, mix, c, op, s) && u == Changed(t, mix, c)
    ensures Logged(u, start, mix, changes + [c], requests, seed)
  {
    ExplainedNext(start, mix, changes, requests, seed, c);
    TableNext(start, mix, changes, c);
  }

  method ServeOne(c: Cache, requests: nat, seed: nat, r: nat, op: nat, ghost initial: seq<nat>,
                  ghost start: Table, ghost log: seq<Change>)
      returns (ghost changes: seq<Change>)
    requires c.Valid() && c.KeysReady() && op < requests
    requires Tracks(c.Keys(), initial, AskedBefore(c.mix, c.items, requests, seed, r, op))
    requires Logged(c.Entries(), start, c.mix, log, requests, seed) && |log| == op + r * requests
    modifies c`lruHead, c`lruTail, c`lru, c`chains
    modifies c.key, c.value, c.hits, c.hashNext, c.hashPrev, c.lruNext, c.lruPrev, c.buckets
    ensures c.Valid() && c.KeysReady()
    ensures Tracks(c.Keys(), initial, AskedBefore(c.mix, c.items, requests, seed, r, op + 1))
    ensures Logged(c.Entries(), start, c.mix, changes, requests, seed) && |changes| == |log| + 1
  {
    ghost var before, asked := c.Keys(), AskedBefore(c.mix, c.items, requests, seed, r, op);
    ghost var k, t := Asked(c.mix, c.items, requests, seed, r, op), c.Entries();
    assert AskedBefore(c.mix, c.items, requests, seed, r, op + 1) == asked + [k];
    NumberOf(requests, seed, r, op, |log|);
    var o, s := (op + r * requests) % POW32, (seed + r * 17) % POW32;
    assert o == |log| % POW32;
    var ok := c.Request(o, s);
    ghost var after, change := c.Keys(), ChangeOf(t, c.mix, c.lru[0], o, s);
    assert Served(before, after, k);
    TracksNext(before, after, initial, asked, k);
    ChangeAnswers(t, c.Entries(), c.mix, c.lru[0], o, s);
    LoggedNext(t, c.Entries(), start, c.mix, log, requests, seed, change, o, s);
    changes := log + [change];
  }

  method ServeRound(c: Cache, requests: nat, seed: nat, r: nat, ghost initial: seq<nat>,
                    ghost start: Table, ghost log: seq<Change>)
      returns (ghost changes: seq<Change>)
    requires c.Valid() && c.KeysReady()
    requires Tracks(c.Keys(), initial, AskedBefore(c.mix, c.items, requests, seed, r, 0))
    requires Logged(c.Entries(), start, c.mix, log, requests, seed) && |log| == r * requests
    modifies c`lruHead, c`lruTail, c`lru, c`chains
    modifies c.key, c.value, c.hits, c.hashNext, c.hashPrev, c.lruNext, c.lruPrev, c.buckets
    ensures c.Valid() && c.KeysReady()
    ensures Tracks(c.Keys(), initial, AskedBefore(c.mix, c.items, requests, seed, r, requests))
    ensures Logged(c.Entries(), start, c.mix, changes, requests, seed) && |changes| == |log| + requests
  {
    var op := 0;
    ghost var served: nat := r * requests;
    changes := log;
    while op < requests
      invariant op <= requests && c.Valid() && c.KeysReady()
      invariant Tracks(c.Keys(), initial, AskedBefore(c.mix, c.items, requests, seed, r, op))
      invariant Logged(c.Entries(), start, c.mix, changes, requests, seed) && |changes| == op + served
    {
      changes := ServeOne(c, requests, seed, r, op, initial, start, changes);
      op := op + 1;
    }
  }

  method ServeRounds(c: Cache, requests: nat, rounds: nat, seed: nat, ghost initial: seq<nat>)
      returns (ghost changes: seq<Change>)
    requires c.Valid() && c.KeysReady()
    requires Tracks(c.Keys(), initial, AskedBefore(c.mix, c.items, requests, seed, 0, 0))
    modifies c`lruHead, c`lruTail, c`lru, c`chains
    modifies c.key, c.value, c.hits, c.hashNext, c.hashPrev, c.lruNext, c.lruPrev, c.buckets
    ensures c.Valid() && c.KeysReady()
    ensures Tracks(c.Keys(), initial, AskedBefore(c.mix, c.items, requests, seed, rounds, 0))
    ensures Logged(c.Entries(), old(c.Entries()), c.mix, changes, requests, seed) && |changes| == rounds * requests
  {
    var r := 0;
    changes := [];
    while r < rounds
      invariant r <= rounds && c.Valid() && c.KeysReady()
      invariant Tracks(c.Keys(), initial, AskedBefore(c.mix, c.items, requests, seed, r, 0))
      invariant Logged(c.Entries(), old(c.Entries()), c.mix, changes, requests, seed) && |changes| == r * requests
    {
      changes := ServeRound(c, requests, seed, r, initial, old(c.Entries()), changes);
      assert r * requests + requests == (r + 1) * requests;
      r := r + 1;
    }
  }

  lemma TrackedIsMostRecent(keys: seq<nat>, initial: seq<nat>, trace: seq<nat>)
    requires initial != [] && Distinct(initial) && Tracks(keys, Recency.Reversed(initial), trace)
    ensures |initial| <= |Recency.MostRecent(initial + trace)|
    ensures keys == Recency.MostRecent(initial + trace)[..|initial|]
  {
    RunIsMostRecent(initial, trace);
  }

  /** Initialisation and all rounds: from distinct initial keys the cache ends up holding exactly the most
      recently used keys of the whole history, in order, and every entry is what the requests' changes left. */
  method InitAndServe(bits: nat, requests: nat, rounds: nat, seed: nat, mix: nat -> nat)
      returns (c: Cache, ghost start: Table, ghost changes: seq<Change>)
    requires bits <= 30 && seed < POW32
    ensures c.Valid() && c.KeysReady() && c.items == PowerOfTwo.Pow2(bits)
    ensures var initial, trace := InitialKeys(mix, c.items, seed),
                                  AskedBefore(mix, c.items, requests, seed, rounds, 0);
            Distinct(initial) ==>
              && c.items <= |Recency.MostRecent(initial + trace)|
              && c.Keys() == Recency.MostRecent(initial + trace)[..c.items]
    ensures IsStart(start, mix) && |changes| == rounds * requests
    ensures Logged(c.Entries(), start, mix, changes, requests, seed)
  {
    c := new Cache(bits, seed, mix);
    start := c.Entries();
    c.AllPrimed();
    ghost var initial := InitialKeys(mix, c.items, seed);
    changes := ServeRounds(c, requests, rounds, seed, c.Keys());
    if Distinct(initial) {
      TrackedIsMostRecent(c.Keys(), initial, AskedBefore(mix, c.items, requests, seed, rounds, 0));
    }
  }

  /** Every run passes validation; if the initial keys are distinct, the cache ends up holding exactly
      the most recently used keys of the whole history, in order.  The entries are those that one change
      a request leaves of the initial ones. */
  method Run(bits: nat, requests: nat, rounds: nat, seed: nat, mix: nat -> nat)
      returns (c: Cache, v: Verdict, ghost start: Table, ghost changes: seq<Change>)
    requires bits <= 30 && seed < POW32
    ensures v == Passed && c.Valid() && c.KeysReady() && c.items == PowerOfTwo.Pow2(bits)
    ensures var initial, trace := InitialKeys(mix, c.items, seed),
                                  AskedBefore(mix, c.items, requests, seed, rounds, 0);
            Distinct(initial) ==>
              && c.items <= |Recency.MostRecent(initial + trace)|
              && c.Keys() == Recency.MostRecent(initial + trace)[..c.items]
    ensures IsStart(start, mix) && |changes| == rounds * requests
    ensures Logged(c.Entries(), start, mix, changes, requests, seed)
  {
    c, start, changes := InitAndServe(bits, requests, rounds, seed, mix);
    c.LinksArePointers();
    v := c.Validate();
  }
}
