/** The recency list of the cache as a pure list, and what serving one request does to it. */
module CacheShape {

  import opened Sequences
  import opened IntrusiveList
  import Recency

  ghost predicate Bound(lru: seq<int>, keys: seq<nat>) {
    forall i :: 0 <= i < |lru| ==> 0 <= lru[i] < |keys|
  }

  /** The keys in recency order. */
  ghost function KeysOf(lru: seq<int>, keys: seq<nat>): (r: seq<nat>)
    requires Bound(lru, keys)
    ensures |r| == |lru| && forall i :: 0 <= i < |r| ==> r[i] == keys[lru[i]]
  {
    seq(|lru|, i requires 0 <= i < |lru| => keys[lru[i]])
  }

  /** What one request may do: a hit moves one occurrence of the key to the front; a miss drops the
      last key and prepends the new one. */
  ghost predicate Served(before: seq<nat>, after: seq<nat>, key: nat) {
    && before != []
    && if key in before
       then exists k :: 0 <= k < |before| && before[k] == key && after == [key] + (before[..k] + before[k + 1..])
       else after == [key] + before[..|before| - 1]
  }

  lemma ServedHit(lru: seq<int>, keys: seq<nat>, k: int)
    requires Bound(lru, keys) && 0 <= k < |lru|
    ensures Bound([lru[k]] + Dropped(lru, k), keys)
    ensures Served(KeysOf(lru, keys), KeysOf([lru[k]] + Dropped(lru, k), keys), keys[lru[k]])
  {
    var before, lru' := KeysOf(lru, keys), [lru[k]] + Dropped(lru, k);
    var after := KeysOf(lru', keys);
    assert before[k] == keys[lru[k]];
    assert after == [keys[lru[k]]] + (before[..k] + before[k + 1..]);
  }

  lemma EvictedKeys(lru: seq<int>, keys: seq<nat>, key: nat, k: int)
    requires Bound(lru, keys) && Distinct(lru) && 0 <= k == |lru| - 1
    ensures Bound([lru[k]] + lru[..k], keys[lru[k] := key])
    ensures KeysOf([lru[k]] + lru[..k], keys[lru[k] := key]) == [key] + KeysOf(lru, keys)[..k]
  {
    var lru', keys' := [lru[k]] + lru[..k], keys[lru[k] := key];
    forall i | 0 <= i < |lru'| ensures 0 <= lru'[i] < |keys'| && (i > 0 ==> lru'[i] == lru[i - 1] != lru[k]) {
    }
  }

  lemma ServedMiss(lru: seq<int>, keys: seq<nat>, key: nat)
    requires Bound(lru, keys) && Distinct(lru) && lru != [] && key !in keys
    ensures var k := |lru| - 1;
            Bound([lru[k]] + Dropped(lru, k), keys[lru[k] := key])
            && Served(KeysOf(lru, keys), KeysOf([lru[k]] + Dropped(lru, k), keys[lru[k] := key]), key)
  {
    var k := |lru| - 1;
    assert Dropped(lru, k) == lru[..k];
    EvictedKeys(lru, keys, key, k);
    assert key !in KeysOf(lru, keys);
  }

  /** From duplicate-free keys a request is exactly the move-to-front step, and keys stay duplicate-free. */
  lemma ServedIsRequest(before: seq<nat>, after: seq<nat>, key: nat)
    requires Served(before, after, key) && Distinct(before)
    ensures after == Recency.Request(before, key) && Distinct(after) && |after| == |before|
  {
    if key in before {
      var k :| 0 <= k < |before| && before[k] == key && after == [key] + (before[..k] + before[k + 1..]);
      Recency.WithoutAt(before, k);
      Recency.WithoutHas(before, key);
      Recency.PrependDistinct(key, Recency.Without(before, key));
    } else {
      Recency.PrependDistinct(key, before[..|before| - 1]);
    }
  }
}
