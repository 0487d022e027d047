/** The entry table of the cache read off the changes that requests make to it. */
module CacheLog {
  import opened MachineWords
  import opened Histories
  import opened CacheKeys
  import opened CacheService
  import opened ExclusiveOr
  import PowerOfTwo

  /** A hit refreshes one entry; a miss gives one entry a new key and value. */
  datatype Change =
    | Refresh(entry: int, op: nat)
    | Rekey(entry: int, key: nat, value: nat)

  ghost predicate InTable(changes: seq<Change>, n: nat) {
    forall j :: 0 <= j < |changes| ==> 0 <= changes[j].entry < n
  }

  ghost function Changed(t: Table, mix: nat -> nat, c: Change): (u: Table)
    requires Holds(t, |t.key|) && 0 <= c.entry < |t.key|
    ensures Holds(u, |t.key|)
  {
    match c
    case Refresh(e, op) => Refreshed(t, e, mix, op)
    case Rekey(e, k, v) => Rekeyed(t, e, k, v)
  }

  ghost function TableAfter(t: Table, mix: nat -> nat, changes: seq<Change>): (u: Table)
    requires Holds(t, |t.key|) && InTable(changes, |t.key|)
    ensures Holds(u, |t.key|)
    decreases |changes|
  {
    if changes == [] then t
    else Changed(TableAfter(t, mix, changes[..|changes| - 1]), mix, changes[|changes| - 1])
  }

  lemma TableNext(t: Table, mix: nat -> nat, changes: seq<Change>, c: Change)
    requires Holds(t, |t.key|) && InTable(changes, |t.key|) && 0 <= c.entry < |t.key|
    ensures InTable(changes + [c], |t.key|)
    ensures TableAfter(t, mix, changes + [c]) == Changed(TableAfter(t, mix, changes), mix, c)
  {
    assert (changes + [c])[..|changes|] == changes;
  }

  // ----- what an entry holds

  function HitOn(e: int): Change -> bool {
    (c: Change) => c.Refresh? && c.entry == e
  }

  ghost predicate NeverRekeyed(changes: seq<Change>, e: int) {
    forall j :: 0 <= j < |changes| && changes[j].entry == e ==> changes[j].Refresh?
  }

  /** Change `k` is the last that gave entry `e` a new key. */
  ghost predicate LastRekey(changes: seq<Change>, e: int, k: nat) {
    && k < |changes| && changes[k].Rekey? && changes[k].entry == e
    && forall j :: k < j < |changes| && changes[j].entry == e ==> changes[j].Refresh?
  }

  lemma ChangedElsewhere(t: Table, mix: nat -> nat, c: Change, e: int)
    requires Holds(t, |t.key|) && 0 <= c.entry < |t.key| && 0 <= e < |t.key| && c.entry != e
    ensures var u := Changed(t, mix, c); u.key[e] == t.key[e] && u.value[e] == t.value[e] && u.hits[e] == t.hits[e]
  {
  }

  lemma RefreshedHere(t: Table, mix: nat -> nat, c: Change)
    requires Holds(t, |t.key|) && 0 <= c.entry < |t.key| && c.Refresh?
    ensures var u, e := Changed(t, mix, c), c.entry;
            && u.key[e] == t.key[e] && u.hits[e] == (t.hits[e] + 1) % POW32
            && u.value[e] == mix((t.value[e] + c.op + u.hits[e]) % POW64) % POW64
  {
  }

  /** An entry has the key of its last re-keying, and as many hits as refreshed it since, modulo 2^32. */
  lemma {:induction false} HitsSinceRekey(t: Table, mix: nat -> nat, changes: seq<Change>, e: int, k: nat)
    requires Holds(t, |t.key|) && InTable(changes, |t.key|) && 0 <= e < |t.key| && LastRekey(changes, e, k)
    ensures TableAfter(t, mix, changes).key[e] == changes[k].key
    ensures TableAfter(t, mix, changes).hits[e] == Count(changes[k + 1..], HitOn(e)) % POW32
    decreases |changes|
  {
    var n := |changes| - 1;
    var front, c := changes[..n], changes[n];
    if k == n {
      RekeyedNow(t, mix, changes, e);
    } else {
      HitsSinceRekey(t, mix, front, e, k);
      assert changes[k + 1..] == front[k + 1..] + [c];
      CountNext(front[k + 1..], HitOn(e), c);
      HitsStep(TableAfter(t, mix, front), mix, c, e, Count(front[k + 1..], HitOn(e)),
               Count(changes[k + 1..], HitOn(e)));
    }
  }

  lemma RekeyedNow(t: Table, mix: nat -> nat, changes: seq<Change>, e: int)
    requires Holds(t, |t.key|) && InTable(changes, |t.key|) && 0 <= e < |t.key| && changes != []
    requires LastRekey(changes, e, |changes| - 1)
    ensures TableAfter(t, mix, changes).key[e] == changes[|changes| - 1].key
    ensures TableAfter(t, mix, changes).hits[e] == Count(changes[|changes|..], HitOn(e)) % POW32
  {
    assert changes[|changes|..] == [];
    PowerOfTwo.SmallResidue(0, POW32);
  }

  lemma HitsStep(t: Table, mix: nat -> nat, c: Change, e: int, n: nat, m: nat)
    requires Holds(t, |t.key|) && 0 <= c.entry < |t.key| && 0 <= e < |t.key| && t.hits[e] == n % POW32
    requires (c.entry == e ==> c.Refresh?) && m == n + if HitOn(e)(c) then 1 else 0
    ensures Changed(t, mix, c).key[e] == t.key[e] && Changed(t, mix, c).hits[e] == m % POW32
  {
    if c.entry == e {
      RefreshedHere(t, mix, c);
      PowerOfTwo.NextResidue(n, POW32);
    } else {
      ChangedElsewhere(t, mix, c, e);
    }
  }

  /** ... and an entry never re-keyed counts from the start. */
  lemma {:induction false} HitsSinceStart(t: Table, mix: nat -> nat, changes: seq<Change>, e: int)
    requires Holds(t, |t.key|) && InTable(changes, |t.key|) && 0 <= e < |t.key| && NeverRekeyed(changes, e)
    requires t.hits[e] == 0
    ensures TableAfter(t, mix, changes).key[e] == t.key[e]
    ensures TableAfter(t, mix, changes).hits[e] == Count(changes, HitOn(e)) % POW32
    decreases |changes|
  {
    if changes == [] {
      PowerOfTwo.SmallResidue(0, POW32);
    } else {
      var n := |changes| - 1;
      var front, c := changes[..n], changes[n];
      HitsSinceStart(t, mix, front, e);
      assert changes == front + [c];
      CountNext(front, HitOn(e), c);
      HitsStep(TableAfter(t, mix, front), mix, c, e, Count(front, HitOn(e)), Count(changes, HitOn(e)));
    }
  }

  // ----- which request makes which change

  /** The change that a request for operation `op` under `seed` makes: it refreshes an entry that has its
      key, and re-keys one exactly when no entry has. */
  ghost predicate Answers(t: Table, mix: nat -> nat, c: Change, op: nat, seed: nat)
    requires Holds(t, |t.key|) && t.key != []
  {
    var k := RequestKey(mix, |t.key|, op, seed);
    0 <= c.entry < |t.key| &&
    match c
    case Refresh(e, o) => t.key[e] == k && o == op
    case Rekey(_, key, value) =>
      && k !in t.key && key == k
      && value == mix(Xor(mix((op * POW32 + seed) % POW64) % POW64, 0x1234_5678_9abc_def0) % POW64) % POW64
  }

  ghost function SeedAt(requests: nat, seed: nat, j: nat): nat {
    if requests == 0 then seed else (seed + j / requests * 17) % POW32
  }

  /** The changes answer the requests of a run with that many requests a round: request number `j` is for
      operation `j`, under a seed that grows by 17 a round. */
  ghost predicate Explained(t: Table, mix: nat -> nat, changes: seq<Change>, requests: nat, seed: nat)
    requires Holds(t, |t.key|) && t.key != []
  {
    && InTable(changes, |t.key|)
    && forall j: nat :: j < |changes| ==> ExplainedAt(t, mix, changes, requests, seed, j)
  }

  ghost predicate ExplainedAt(t: Table, mix: nat -> nat, changes: seq<Change>, requests: nat, seed: nat, j: nat)
    requires Holds(t, |t.key|) && t.key != [] && InTable(changes, |t.key|) && j < |changes|
  {
    Answers(TableAfter(t, mix, changes[..j]), mix, changes[j], j % POW32, SeedAt(requests, seed, j))
  }

  lemma ExplainedNext(t: Table, mix: nat -> nat, changes: seq<Change>, requests: nat, seed: nat, c: Change)
    requires Holds(t, |t.key|) && t.key != [] && Explained(t, mix, changes, requests, seed)
    requires var j := |changes|;
             Answers(TableAfter(t, mix, changes), mix, c, j % POW32, SeedAt(requests, seed, j))
    ensures Explained(t, mix, changes + [c], requests, seed)
  {
    var longer := changes + [c];
    assert InTable(longer, |t.key|);
    ExplainedLast(t, mix, changes, requests, seed, c);
    forall j: nat | j < |changes| ensures ExplainedAt(t, mix, longer, requests, seed, j) {
      ExplainedBefore(t, mix, changes, requests, seed, c, j);
    }
  }

  lemma ExplainedLast(t: Table, mix: nat -> nat, changes: seq<Change>, requests: nat, seed: nat, c: Change)
    requires Holds(t, |t.key|) && t.key != []
    requires InTable(changes, |t.key|) && InTable(changes + [c], |t.key|)
    requires var j := |changes|;
             Answers(TableAfter(t, mix, changes), mix, c, j % POW32, SeedAt(requests, seed, j))
    ensures ExplainedAt(t, mix, changes + [c], requests, seed, |changes|)
  {
    assert (changes + [c])[..|changes|] == changes;
  }

  lemma ExplainedBefore(
      t: Table, mix: nat -> nat, changes: seq<Change>, requests: nat, seed: nat, c: Change, j: nat)
    requires Holds(t, |t.key|) && t.key != [] && Explained(t, mix, changes, requests, seed)
    requires j < |changes| && InTable(changes + [c], |t.key|)
    ensures ExplainedAt(t, mix, changes + [c], requests, seed, j)
  {
    assert (changes + [c])[..j] == changes[..j];
    assert ExplainedAt(t, mix, changes, requests, seed, j);
  }
}
