/** The hash-indexed LRU cache: one table of entries carries a recency list over all entries and a
    chain per bucket, and eviction re-keys an entry in place. */
module CacheService {

  import opened Sequences
  import opened MachineWords
  import opened IntrusiveList
  import opened HashChains
  import opened CacheShape
  import opened ListWalk
  import opened ChainCover
  import opened CacheKeys
  import PowerOfTwo
  import ExclusiveOr
  import Recency

  datatype Verdict = Passed | BrokenLruPrev | LruCycle | LruCount | BrokenHashPrev | HashCycle | HashCount

  /** The payload columns of the entry table. */
  datatype Table = Table(key: seq<nat>, value: seq<nat>, hits: seq<nat>)

  ghost predicate Holds(t: Table, n: nat) {
    |t.key| == |t.value| == |t.hits| == n
  }

  ghost function Counted(t: Table, e: int): nat
    requires 0 <= e < |t.hits|
  {
    (t.hits[e] + 1) % POW32
  }

  /** The entries after a hit on `e`. */
  ghost function Refreshed(t: Table, e: int, mix: nat -> nat, op: nat): Table
    requires Holds(t, |t.key|) && 0 <= e < |t.key|
  {
    Table(t.key, t.value[e := HitValue(mix, t.value[e], op, Counted(t, e))], t.hits[e := Counted(t, e)])
  }

  /** The entries after `e` is given a new key and value. */
  ghost function Rekeyed(t: Table, e: int, k: nat, v: nat): Table
    requires Holds(t, |t.key|) && 0 <= e < |t.key|
  {
    Table(t.key[e := k], t.value[e := v], t.hits[e := 0])
  }

  /** A slot as initialisation leaves it: the value is mixed from the key, and there are no hits. */
  ghost predicate PrimedAt(t: Table, e: int, mix: nat -> nat)
    requires Holds(t, |t.key|) && 0 <= e < |t.key|
  {
    t.value[e] == mix(ExclusiveOr.Xor(t.key[e], 0xfeed_face_cafe_beef) % POW64) % POW64
  }

  ghost predicate PrimedIn(t: Table, lru: seq<int>, mix: nat -> nat)
    requires Holds(t, |t.key|)
  {
    && (forall e :: 0 <= e < |t.key| ==> t.hits[e] == 0)
    && (forall e :: 0 <= e < |t.key| && e in lru ==> PrimedAt(t, e, mix))
  }

  ghost predicate IsStart(t: Table, mix: nat -> nat) {
    Holds(t, |t.key|) && forall e :: 0 <= e < |t.key| ==> t.hits[e] == 0 && PrimedAt(t, e, mix)
  }

  lemma PrimedNext(t: Table, lru: seq<int>, e: int, k: nat, mix: nat -> nat)
    requires Holds(t, |t.key|) && 0 <= e < |t.key| && e !in lru && PrimedIn(t, lru, mix)
    ensures PrimedIn(Rekeyed(t, e, k, InitialValue(mix, k)), [e] + lru, mix)
  {
    var u := Rekeyed(t, e, k, InitialValue(mix, k));
    InitialIsPrimed(mix, k, u, e);
    forall x | 0 <= x < |t.key| && x in lru ensures PrimedAt(u, x, mix) {
      assert PrimedAt(t, x, mix);
    }
  }

  lemma InitialIsPrimed(mix: nat -> nat, k: nat, u: Table, e: int)
    requires Holds(u, |u.key|) && 0 <= e < |u.key| && u.key[e] == k && u.value[e] == InitialValue(mix, k)
    ensures PrimedAt(u, e, mix)
  {
  }

  class Cache {
    const items: nat
    const mix: nat -> nat
    const key: array<nat>
    const value: array<nat>
    const hits: array<nat>
    const hashNext: array<int>
    const hashPrev: array<int>
    const lruNext: array<int>
    const lruPrev: array<int>
    const buckets: array<int>
    var lruHead: int
    var lruTail: int
    ghost var lru: seq<int>
    ghost var chains: seq<seq<int>>

    /** The columns of the entry table are separate and of one length, and there are two buckets an entry. */
    ghost predicate Shape() {
      && items > 0
      && key.Length == value.Length == hits.Length == items
      && hashNext.Length == hashPrev.Length == lruNext.Length == lruPrev.Length == items
      && buckets.Length == 2 * items
      && key != value && key != hits && value != hits
      && hashNext != hashPrev && hashNext != lruNext && hashNext != lruPrev
      && hashPrev != lruNext && hashPrev != lruPrev && lruNext != lruPrev
      && buckets != hashNext && buckets != hashPrev && buckets != lruNext && buckets != lruPrev
    }

    function BucketOf(k: nat): (b: int)
      requires items > 0
      ensures 0 <= b < 2 * items
    {
      Mix64(mix, k) % POW32 % (2 * items)
    }

    ghost function Homes(keys: seq<nat>): (r: seq<int>)
      requires items > 0
      ensures |r| == |keys| && forall e :: 0 <= e < |keys| ==> r[e] == BucketOf(keys[e])
    {
      seq(|keys|, e requires 0 <= e < |keys| => BucketOf(keys[e]))
    }

    ghost predicate LruOk()
      reads this, lruNext, lruPrev
    {
      Links(lru, lruNext[..], lruPrev[..]) && lruHead == At(lru, 0) && lruTail == At(lru, |lru| - 1)
    }

    /** The entries of `linked` are filed under their own keys. */
    ghost predicate HashOk(linked: set<int>)
      requires items > 0
      reads this, buckets, hashNext, hashPrev, key
    {
      && ChainsOk(chains, buckets[..], hashNext[..], hashPrev[..])
      && Filed(chains, Homes(key[..]), linked)
    }

    /** Every entry is once in the recency list, and once in the chain of its own bucket. */
    ghost predicate Valid()
      reads this, buckets, hashNext, hashPrev, lruNext, lruPrev, key
    {
      Shape() && LruOk() && |lru| == items && HashOk(Members(lru))
    }

    /** An empty table is allocated and every slot is linked once, in the order of the index permutation. */
    constructor (bits: nat, seed: nat, mix: nat -> nat)
      requires bits <= 30 && seed < POW32
      ensures Valid() && KeysReady() && items == PowerOfTwo.Pow2(bits) && this.mix == mix
      ensures Keys() == Recency.Reversed(InitialKeys(mix, items, seed)) && Primed()
      ensures fresh(key) && fresh(value) && fresh(hits) && fresh(hashNext) && fresh(hashPrev)
      ensures fresh(lruNext) && fresh(lruPrev) && fresh(buckets)
    {
      var n := PowerOfTwo.Pow2(bits);
      items := n;
      this.mix := mix;
      key := new nat[n](_ => 0);
      value := new nat[n](_ => 0);
      hits := new nat[n](_ => 0);
      hashNext := new int[n](_ => NULL);
      hashPrev := new int[n](_ => NULL);
      lruNext := new int[n](_ => NULL);
      lruPrev := new int[n](_ => NULL);
      buckets := new int[2 * n](_ => NULL);
      lruHead, lruTail := NULL, NULL;
      lru, chains := [], seq(2 * n, _ => []);
      new;
      NothingLinked(seed);
      InitSlots(seed, bits);
    }

    ghost function Entries(): (t: Table)
      requires Shape()
      reads key, value, hits
      ensures Holds(t, items)
    {
      Table(key[..], value[..], hits[..])
    }

    ghost predicate KeysReady()
      reads this, key
    {
      Bound(lru, key[..])
    }

    /** The cached keys, most recently used first. */
    ghost function Keys(): seq<nat>
      requires KeysReady()
      reads this, key
    {
      KeysOf(lru, key[..])
    }

    /** The first `n` slots of the initial permutation are linked, the latest in front. */
    ghost predicate Started(n: nat, seed: nat)
      requires Shape()
      reads this, buckets, hashNext, hashPrev, lruNext, lruPrev, key
    {
      LruOk() && HashOk(Members(lru)) && InOrder(lru, key[..], mix, n, seed)
    }

    ghost predicate Primed()
      requires Shape()
      reads this, key, value, hits
    {
      PrimedIn(Entries(), lru, mix)
    }

    /** In a valid table that is every entry. */
    lemma AllPrimed()
      requires Valid() && Primed()
      ensures IsStart(Entries(), mix)
    {
      forall e | 0 <= e < items ensures e in lru {
        InOwnChain(e);
      }
    }

    lemma StartedIsValid(seed: nat)
      requires Shape() && Started(items, seed)
      ensures Valid() && KeysReady() && Keys() == Recency.Reversed(InitialKeys(mix, items, seed))
    {
      InitialOrder(lru, key[..], mix, items, seed);
    }

    lemma NothingLinked(seed: nat)
      requires Shape() && lru == [] && lruHead == lruTail == NULL
      requires |chains| == 2 * items && forall b :: 0 <= b < |chains| ==> chains[b] == []
      requires forall b :: 0 <= b < buckets.Length ==> buckets[b] == NULL
      requires forall e :: 0 <= e < items ==> hits[e] == 0
      ensures Started(0, seed) && Primed()
    {
    }

    method InitSlot(i: nat, seed: nat, ghost bits: nat)
      requires Shape() && Started(i, seed) && Primed() && i < items == PowerOfTwo.Pow2(bits) && bits <= 30
      modifies this`lruHead, this`lruTail, this`lru, this`chains
      modifies key, value, hits, hashNext, hashPrev, lruNext, lruPrev, buckets
      ensures Started(i + 1, seed) && Primed()
    {
      var e := PermuteIndex(i, items, seed);
      var k := MakeKey(mix, i, seed);
      ghost var s, linked, keys, t := lru, Members(lru), key[..], Entries();
      NextIsNew(s, keys, mix, i, seed, bits);
      NextInOrder(s, keys, mix, i, seed);
      EntrySet(e, k, InitialValue(mix, k), linked);
      PrimedNext(t, s, e, k, mix);
      HashInsert(e, linked);
      LruPushFront(e);
      assert Members(lru) == linked + {e};
    }

    method InitSlots(seed: nat, ghost bits: nat)
      requires Shape() && Started(0, seed) && Primed() && items == PowerOfTwo.Pow2(bits) && bits <= 30
      modifies this`lruHead, this`lruTail, this`lru, this`chains
      modifies key, value, hits, hashNext, hashPrev, lruNext, lruPrev, buckets
      ensures Valid() && KeysReady() && Keys() == Recency.Reversed(InitialKeys(mix, items, seed)) && Primed()
    {
      var i := 0;
      while i < items
        invariant i <= items && Started(i, seed) && Primed()
      {
        InitSlot(i, seed, bits);
        i := i + 1;
      }
      StartedIsValid(seed);
    }

    method LruRemove(e: int, ghost k: int)
      requires Shape() && LruOk() && 0 <= k < |lru| && lru[k] == e
      modifies this`lruHead, this`lruTail, this`lru, lruNext, lruPrev
      ensures LruOk() && lru == Dropped(old(lru), k)
    {
      ghost var s, next, prev := lru, lruNext[..], lruPrev[..];
      var n, p := lruNext[e], lruPrev[e];
      assert NULL <= n < items && NULL <= p < items by {
        Neighbours(s, next, prev, k);
      }
      if p != NULL {
        lruNext[p] := n;
      } else {
        lruHead := n;
      }
      if n != NULL {
        lruPrev[n] := p;
      } else {
        lruTail := p;
      }
      lruNext[e] := NULL;
      lruPrev[e] := NULL;
      lru := Dropped(s, k);
      ghost var next', prev' := lruNext[..], lruPrev[..];
      assert next' == UnlinkedNext(next, prev, e);
      assert prev' == UnlinkedPrev(next, prev, e);
      assert Links(lru, next', prev') by {
        Unlink(s, next, prev, k);
      }
      HeadAfterUnlink(s, next, prev, k);
    }

    method LruPushFront(e: int)
      requires Shape() && LruOk() && 0 <= e < items && e !in lru
      modifies this`lruHead, this`lruTail, this`lru, lruNext, lruPrev
      ensures LruOk() && lru == [e] + old(lru)
    {
      ghost var s, next, prev := lru, lruNext[..], lruPrev[..];
      Push(s, next, prev, e);
      lruPrev[e] := NULL;
      lruNext[e] := lruHead;
      if lruHead != NULL {
        lruPrev[lruHead] := e;
      } else {
        lruTail := e;
      }
      lruHead := e;
      lru := [e] + s;
      assert lruNext[..] == PushedNext(next, e, At(s, 0));
      assert lruPrev[..] == PushedPrev(prev, e, At(s, 0));
    }

    method LruTouch(e: int, ghost k: int)
      requires Shape() && LruOk() && 0 <= k < |lru| && lru[k] == e
      modifies this`lruHead, this`lruTail, this`lru, lruNext, lruPrev
      ensures LruOk() && lru == [e] + Dropped(old(lru), k)
    {
      if lruHead == e {
        assert k == 0 && lru == [e] + Dropped(lru, k);
        return;
      }
      DroppedHas(lru, k);
      LruRemove(e, k);
      LruPushFront(e);
    }

    method HashRemove(e: int, ghost linked: set<int>)
      requires Shape() && HashOk(linked) && e in linked
      modifies this`chains, buckets, hashNext, hashPrev
      ensures HashOk(linked - {e})
    {
      var b := BucketOf(key[e]);
      ghost var next, prev, heads, homes := hashNext[..], hashPrev[..], buckets[..], Homes(key[..]);
      assert e in chains[b];
      ghost var k :| 0 <= k < |chains[b]| && chains[b][k] == e;
      assert NULL <= prev[e] < items && NULL <= next[e] < items by {
        Neighbours(chains[b], next, prev, k);
      }
      ghost var chains' := chains[b := Dropped(chains[b], k)];
      assert ChainsOk(chains', UnlinkedHeads(heads, next, prev, b, e),
                      UnlinkedNext(next, prev, e), UnlinkedPrev(next, prev, e)) by {
        Remove(chains, heads, next, prev, homes, linked, b, k);
      }
      assert Filed(chains', homes, linked - {e}) by {
        RemoveFiled(chains, homes, linked, b, k);
      }
      var n, p := hashNext[e], hashPrev[e];
      if p != NULL {
        hashNext[p] := n;
      } else {
        buckets[b] := n;
      }
      if n != NULL {
        hashPrev[n] := p;
      }
      hashNext[e] := NULL;
      hashPrev[e] := NULL;
      chains := chains';
      assert hashNext[..] == UnlinkedNext(next, prev, e);
      assert hashPrev[..] == UnlinkedPrev(next, prev, e);
      assert buckets[..] == UnlinkedHeads(heads, next, prev, b, e);
    }

    method HashInsert(e: int, ghost linked: set<int>)
      requires Shape() && HashOk(linked) && 0 <= e < items && e !in linked
      modifies this`chains, buckets, hashNext, hashPrev
      ensures HashOk(linked + {e})
    {
      var b := BucketOf(key[e]);
      ghost var next, prev, heads, homes := hashNext[..], hashPrev[..], buckets[..], Homes(key[..]);
      Insert(chains, heads, next, prev, homes, linked, b, e);
      InsertFiled(chains, homes, linked, e);
      hashPrev[e] := NULL;
      hashNext[e] := buckets[b];
      if buckets[b] != NULL {
        hashPrev[buckets[b]] := e;
      }
      buckets[b] := e;
      chains := chains[b := [e] + chains[b]];
      assert hashNext[..] == PushedNext(next, e, heads[b]);
      assert hashPrev[..] == PushedPrev(prev, e, heads[b]);
      assert buckets[..] == heads[b := e];
    }

    lemma InOwnChain(x: int)
      requires Valid() && 0 <= x < items
      ensures x in lru && x in chains[BucketOf(key[x])]
    {
      PowerOfTwo.DistinctIsAll(lru, x);
      assert Homes(key[..])[x] == BucketOf(key[x]);
    }

    /** The bucket of an entry, spelled out: its chain, and no other, holds the entry. */
    lemma BucketHolds(x: int, b: int)
      requires Valid() && 0 <= x < items && 0 <= b < |chains|
      ensures x in chains[b] <==> b == mix(key[x] % POW64) % POW64 % POW32 % (2 * items)
    {
      InOwnChain(x);
      assert Homes(key[..])[x] == BucketOf(key[x]);
    }

    lemma NotCached(k: nat)
      requires Valid() && forall x :: x in chains[BucketOf(k)] ==> 0 <= x < items && key[x] != k
      ensures k !in key[..]
    {
      forall x | 0 <= x < items ensures key[x] != k {
        InOwnChain(x);
      }
    }

    /** The first entry of the key's chain that carries the key; null exactly when no entry does. */
    method Find(k: nat) returns (e: int)
      requires Valid()
      ensures e == NULL <==> k !in key[..]
      ensures e != NULL ==> 0 <= e < items && key[e] == k && FirstWith(chains[BucketOf(k)], key[..], k, e)
    {
      var b := BucketOf(k);
      var cur := buckets[b];
      ghost var chain, next, prev, keys := chains[b], hashNext[..], hashPrev[..], key[..];
      ghost var i := 0;
      while cur != NULL
        invariant 0 <= i <= |chain| && cur == At(chain, i)
        invariant forall x :: x in chain[..i] ==> 0 <= x < |keys| && keys[x] != k
        decreases |chain| - i
      {
        Neighbours(chain, next, prev, i);
        assert chain[i] == cur && 0 <= cur < items;
        if key[cur] == k {
          assert FirstWith(chain, keys, k, cur) by {
            assert forall x :: x in chain[..i] ==> keys[x] != k;
          }
          return cur;
        }
        assert chain[..i + 1] == chain[..i] + [cur];
        cur := hashNext[cur];
        i := i + 1;
      }
      assert i == |chain| && chain[..i] == chain;
      NotCached(k);
      return NULL;
    }

    /** Re-keying an entry that is in no chain. */
    method EntrySet(e: int, k: nat, v: nat, ghost linked: set<int>)
      requires Shape() && HashOk(linked) && 0 <= e < items && e !in linked
      modifies key, value, hits
      ensures HashOk(linked)
      ensures Entries() == Rekeyed(old(Entries()), e, k, v)
    {
      RekeyFiled(chains, Homes(key[..]), linked, e, BucketOf(k));
      key[e] := k;
      value[e] := v;
      hits[e] := 0;
      assert Homes(key[..]) == Homes(old(key[..]))[e := BucketOf(k)];
    }

    /** A hit counts, mixes the value and moves the entry to the front. */
    method ServeHit(e: int, op: nat, ghost i: int)
      requires Valid() && 0 <= i < |lru| && lru[i] == e
      modifies this`lruHead, this`lruTail, this`lru, value, hits, lruNext, lruPrev
      ensures Valid() && lru == [e] + Dropped(old(lru), i)
      ensures Entries() == Refreshed(old(Entries()), e, mix, op)
    {
      SameMembers(lru, i);
      hits[e] := (hits[e] + 1) % POW32;
      value[e] := HitValue(mix, value[e], op, hits[e]);
      LruTouch(e, i);
    }

    /** A miss evicts the least recently used entry and re-keys it. */
    method ServeMiss(k: nat, v: nat) returns (ok: bool)
      requires Valid()
      modifies this`lruHead, this`lruTail, this`lru, this`chains
      modifies key, value, hits, hashNext, hashPrev, lruNext, lruPrev, buckets
      ensures ok && Valid() && lru == [old(lru[|lru| - 1])] + Dropped(old(lru), old(|lru| - 1))
      ensures Entries() == Rekeyed(old(Entries()), old(lru[|lru| - 1]), k, v)
    {
      var victim := lruTail;
      if victim == NULL {
        return false;
      }
      ghost var s, linked := lru, Members(lru);
      DroppedHas(s, |s| - 1);
      SameMembers(s, |s| - 1);
      LruRemove(victim, |s| - 1);
      HashRemove(victim, linked);
      EntrySet(victim, k, v, linked - {victim});
      HashInsert(victim, linked - {victim});
      assert linked - {victim} + {victim} == linked;
      LruPushFront(victim);
      return true;
    }

    /** One request moves its key to the front, on a miss in place of the last key.  A victim is always there. */
    method Request(op: nat, seed: nat) returns (ok: bool)
      requires Valid() && KeysReady() && op < POW32 && seed < POW32
      modifies this`lruHead, this`lruTail, this`lru, this`chains
      modifies key, value, hits, hashNext, hashPrev, lruNext, lruPrev, buckets
      ensures ok && Valid() && KeysReady()
      ensures Served(old(Keys()), Keys(), RequestKey(mix, items, op, seed))
      ensures RequestKey(mix, items, op, seed) in old(Keys()) <==> RequestKey(mix, items, op, seed) in old(key[..])
      ensures var k, e := RequestKey(mix, items, op, seed), lru[0];
              if k in old(Keys())
              then old(key[e]) == k && Entries() == Refreshed(old(Entries()), e, mix, op)
              else old(lru[|lru| - 1]) == e
                   && Entries() == Rekeyed(old(Entries()), e, k, MissValue(mix, op, seed))
    {
      var k := RequestKey(mix, items, op, seed);
      var e := Find(k);
      if e != NULL {
        RequestHit(e, k, op);
        ok := true;
      } else {
        ok := RequestMiss(k, MissValue(mix, op, seed));
      }
    }

    method RequestHit(e: int, k: nat, op: nat)
      requires Valid() && KeysReady() && 0 <= e < items && key[e] == k
      modifies this`lruHead, this`lruTail, this`lru, value, hits, lruNext, lruPrev
      ensures Valid() && KeysReady() && lru != [] && lru[0] == e
      ensures k in old(Keys()) && Served(old(Keys()), Keys(), k)
      ensures Entries() == Refreshed(old(Entries()), e, mix, op)
    {
      ghost var s, keys := lru, key[..];
      InOwnChain(e);
      ghost var i :| 0 <= i < |s| && s[i] == e;
      assert KeysOf(s, keys)[i] == k;
      ServedHit(s, keys, i);
      ServeHit(e, op, i);
    }

    method RequestMiss(k: nat, v: nat) returns (ok: bool)
      requires Valid() && KeysReady() && k !in key[..]
      modifies this`lruHead, this`lruTail, this`lru, this`chains
      modifies key, value, hits, hashNext, hashPrev, lruNext, lruPrev, buckets
      ensures ok && Valid() && KeysReady() && lru != [] && lru[0] == old(lru[|lru| - 1])
      ensures k !in old(Keys()) && Served(old(Keys()), Keys(), k)
      ensures Entries() == Rekeyed(old(Entries()), old(lru[|lru| - 1]), k, v)
    {
      ServedMiss(lru, key[..], k);
      ok := ServeMiss(k, v);
    }

    /** `s` spells the whole table, from head to tail. */
    ghost predicate Listed(s: seq<int>)
      reads this, lruNext, lruPrev
    {
      && Links(s, lruNext[..], lruPrev[..]) && |s| == items
      && lruHead == At(s, 0) && lruTail == At(s, |s| - 1)
    }

    /** `c` spells a chain per bucket, as many links in all as there are entries. */
    ghost predicate Chained(c: seq<seq<int>>)
      reads buckets, hashNext, hashPrev
    {
      ChainsOk(c, buckets[..], hashNext[..], hashPrev[..]) && Total(c, |c|) == items
    }

    /** The recency half of `validate_cache`, on arbitrary links: the cycle error is unreachable. */
    method ValidateLru() returns (v: Verdict)
      requires Shape() && Pointers(lruNext[..], items) && NULL <= lruHead < items
      ensures v == Passed <==> exists s :: Listed(s)
      ensures v == Passed || v == BrokenLruPrev || v == LruCount
    {
      ghost var next, prev, s: seq<int> := lruNext[..], lruPrev[..], [];
      var count, last, cur := 0, NULL, lruHead;
      while cur != NULL
        invariant Walked(s, lruHead, cur, next, prev) && NULL <= cur < items
        invariant last == At(s, |s| - 1) && count == |s| <= items
        decreases items - count
      {
        if lruPrev[cur] != last {
          forall t | Links(t, next, prev) ensures lruHead != At(t, 0) {
            if lruHead == At(t, 0) {
              WalkConfirmed(s, t, lruHead, cur, next, prev);
            }
          }
          return BrokenLruPrev;
        }
        WalkStep(s, lruHead, cur, next, prev);
        s := s + [cur];
        WalkFits(s, lruHead, next[cur], next, prev);
        last, count := cur, count + 1;
        if count > items {
          return LruCycle;
        }
        cur := lruNext[cur];
      }
      WalkFinished(s, lruHead, next, prev);
      forall t | Links(t, next, prev) && lruHead == At(t, 0) ensures t == s {
        ListUnique(s, t, next, prev);
      }
      if last != lruTail || count != items {
        return LruCount;
      }
      assert Listed(s);
      return Passed;
    }

    lemma AcceptedCoversIff(c: seq<seq<int>>)
      requires Shape() && Chained(c)
      ensures CoversAll(c, items) <==> NoSharedHead(buckets[..])
    {
      CoversIff(c, buckets[..], hashNext[..], hashPrev[..]);
    }

    /** The bucket half of `validate_cache`, on arbitrary links.  What it accepts holds every entry exactly
        when no two buckets have one head. */
    method ValidateHash() returns (v: Verdict)
      requires Shape() && Pointers(hashNext[..], items) && Pointers(buckets[..], items)
      ensures v == Passed <==> exists c :: Chained(c)
      ensures v == Passed || v == BrokenHashPrev || v == HashCycle || v == HashCount
      ensures forall c :: Chained(c) ==> (CoversAll(c, items) <==> NoSharedHead(buckets[..]))
    {
      ghost var next, prev, heads := hashNext[..], hashPrev[..], buckets[..];
      forall c | Chained(c) ensures CoversAll(c, items) <==> NoSharedHead(buckets[..]) {
        AcceptedCoversIff(c);
      }
      ghost var done: seq<seq<int>> := [];
      var count, b := 0, 0;
      while b < buckets.Length
        invariant 0 <= b == |done| <= |heads| && Parsed(done, heads, next, prev)
        invariant count == Total(done, |done|) <= items
      {
        ghost var s: seq<int> := [];
        var last, cur := NULL, buckets[b];
        while cur != NULL
          invariant Walked(s, heads[b], cur, next, prev) && NULL <= cur < items
          invariant last == At(s, |s| - 1) && count == Total(done, |done|) + |s| <= items
          decreases items - count
        {
          if hashPrev[cur] != last {
            forall c ensures !ChainsOk(c, heads, next, prev) {
              if ChainsOk(c, heads, next, prev) {
                ChainConfirmed(c, s, b, cur, heads, next, prev);
              }
            }
            return BrokenHashPrev;
          }
          WalkStep(s, heads[b], cur, next, prev);
          s := s + [cur];
          last, count := cur, count + 1;
          if count > items {
            forall c | ChainsOk(c, heads, next, prev) ensures Total(c, |c|) != items {
              CountedSoFar(c, done, s, next[cur], heads, next, prev);
            }
            return HashCycle;
          }
          cur := hashNext[cur];
        }
        ParsedNext(done, s, heads, next, prev);
        done := done + [s];
        b := b + 1;
      }
      ParsedAll(done, heads, next, prev);
      forall c | ChainsOk(c, heads, next, prev) ensures c == done {
        ChainsUnique(c, done, heads, next, prev);
      }
      if count != items {
        return HashCount;
      }
      assert Chained(done);
      return Passed;
    }

    /** `validate_cache` accepts exactly the tables whose recency list spells all entries and whose
        buckets spell chains of that total length. */
    method Validate() returns (v: Verdict)
      requires Shape() && Pointers(lruNext[..], items) && NULL <= lruHead < items
      requires Pointers(hashNext[..], items) && Pointers(buckets[..], items)
      ensures v == Passed <==> (exists s :: Listed(s)) && exists c :: Chained(c)
      ensures v != LruCycle
      ensures Valid() ==> v == Passed
    {
      ghost var whole, buckets' := lru, chains;
      if Valid() {
        ValidIsAccepted();
      }
      v := ValidateLru();
      if v == Passed {
        ghost var s :| Listed(s);
        v := ValidateHash();
        assert Listed(s);
      }
      assert Valid() ==> Listed(whole) && Chained(buckets');
    }

    lemma LinksArePointers()
      requires Valid()
      ensures Pointers(lruNext[..], items) && NULL <= lruHead < items
      ensures Pointers(hashNext[..], items) && Pointers(buckets[..], items)
    {
      forall e | 0 <= e < items ensures NULL <= lruNext[..][e] < items && NULL <= hashNext[..][e] < items {
        InOwnChain(e);
        var b := BucketOf(key[e]);
        var i, k :| 0 <= i < |lru| && lru[i] == e && 0 <= k < |chains[b]| && chains[b][k] == e;
        Neighbours(lru, lruNext[..], lruPrev[..], i);
        Neighbours(chains[b], hashNext[..], hashPrev[..], k);
      }
      forall b | 0 <= b < buckets.Length ensures NULL <= buckets[..][b] < items {
        assert Links(chains[b], hashNext[..], hashPrev[..]);
      }
    }

    /** A cache that satisfies the invariant is always accepted. */
    lemma ValidIsAccepted()
      requires Valid()
      ensures Listed(lru) && Chained(chains)
    {
      forall b | 0 <= b < |chains| ensures Distinct(chains[b]) && Within(chains[b], items) {
        assert Links(chains[b], hashNext[..], hashPrev[..]);
      }
      forall b, c | 0 <= b < c < |chains| ensures Disjoint(chains[b], chains[c]) {
        FiledApart(chains, Homes(key[..]), Members(lru), b, c);
      }
      forall e | 0 <= e < items ensures InSome(chains, e) {
        InOwnChain(e);
      }
      CoverTotals(chains, items);
    }
  }

  /** `e` is the first entry of the chain whose key is `k`. */
  ghost predicate FirstWith(chain: seq<int>, keys: seq<nat>, k: nat, e: int) {
    exists i :: 0 <= i < |chain| && chain[i] == e && forall x :: x in chain[..i] ==> 0 <= x < |keys| && keys[x] != k
  }

  ghost predicate Pointers(column: seq<int>, n: int) {
    forall i :: 0 <= i < |column| ==> NULL <= column[i] < n
  }

  lemma SameMembers(s: seq<int>, k: int)
    requires Distinct(s) && 0 <= k < |s|
    ensures Members([s[k]] + Dropped(s, k)) == Members(s) && |Dropped(s, k)| == |s| - 1
  {
    DroppedHas(s, k);
  }
}
