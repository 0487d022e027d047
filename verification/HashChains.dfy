/** Bucket chains of a hash table, all threaded through one pair of link columns. */
module HashChains {

  import opened Sequences
  import opened IntrusiveList

  /** Chain `b` starts at `heads[b]` and is spelled by the links. */
  ghost predicate ChainsOk(chains: seq<seq<int>>, heads: seq<int>, next: seq<int>, prev: seq<int>) {
    && |chains| == |heads|
    && forall b :: 0 <= b < |chains| ==> Links(chains[b], next, prev) && heads[b] == At(chains[b], 0)
  }

  /** The entries of `linked`, and no others, are in the chain of their own bucket, and in no other. */
  ghost predicate Filed(chains: seq<seq<int>>, bucketOf: seq<int>, linked: set<int>) {
    && (forall e :: e in linked ==> 0 <= e < |bucketOf|)
    && forall b, e :: 0 <= b < |chains| ==> (e in chains[b] <==> e in linked && bucketOf[e] == b)
  }

  lemma FiledApart(chains: seq<seq<int>>, bucketOf: seq<int>, linked: set<int>, b: int, c: int)
    requires Filed(chains, bucketOf, linked) && 0 <= b < |chains| && 0 <= c < |chains| && b != c
    ensures Disjoint(chains[b], chains[c])
  {
    forall e | e in chains[b] ensures e !in chains[c] {
      assert e in linked && bucketOf[e] == b;
    }
  }

  lemma NotFiled(chains: seq<seq<int>>, bucketOf: seq<int>, linked: set<int>, b: int, e: int)
    requires Filed(chains, bucketOf, linked) && 0 <= b < |chains| && e !in linked
    ensures e !in chains[b]
  {
  }

  /** The bucket heads after unlinking `e` from the chain of bucket `b`. */
  ghost function UnlinkedHeads(heads: seq<int>, next: seq<int>, prev: seq<int>, b: int, e: int): seq<int>
    requires 0 <= b < |heads| && 0 <= e < |next| == |prev|
  {
    if prev[e] != NULL then heads else heads[b := next[e]]
  }

  lemma HeadAfterUnlink(s: seq<int>, next: seq<int>, prev: seq<int>, k: int)
    requires Links(s, next, prev) && 0 <= k < |s|
    ensures At(Dropped(s, k), 0) == if prev[s[k]] != NULL then At(s, 0) else next[s[k]]
    ensures At(Dropped(s, k), |s| - 2) == if next[s[k]] != NULL then At(s, |s| - 1) else prev[s[k]]
  {
    Neighbours(s, next, prev, k);
  }

  lemma Remove(
      chains: seq<seq<int>>, heads: seq<int>, next: seq<int>, prev: seq<int>, bucketOf: seq<int>,
      linked: set<int>, b: int, k: int)
    requires ChainsOk(chains, heads, next, prev) && Filed(chains, bucketOf, linked)
    requires 0 <= b < |chains| && 0 <= k < |chains[b]|
    ensures var e := chains[b][k];
            0 <= e < |next| == |prev| && NULL <= prev[e] < |next| && NULL <= next[e] < |next|
    ensures var e := chains[b][k];
            ChainsOk(chains[b := Dropped(chains[b], k)], UnlinkedHeads(heads, next, prev, b, e),
                     UnlinkedNext(next, prev, e), UnlinkedPrev(next, prev, e))
  {
    var s := chains[b];
    assert Links(s, next, prev);
    Unlink(s, next, prev, k);
    HeadAfterUnlink(s, next, prev, k);
    var chains', heads' := chains[b := Dropped(s, k)], UnlinkedHeads(heads, next, prev, b, s[k]);
    var next', prev' := UnlinkedNext(next, prev, s[k]), UnlinkedPrev(next, prev, s[k]);
    forall c | 0 <= c < |chains'|
      ensures Links(chains'[c], next', prev') && heads'[c] == At(chains'[c], 0)
    {
      if c != b {
        FiledApart(chains, bucketOf, linked, c, b);
        UnlinkElsewhere(s, chains[c], next, prev, k);
      }
    }
  }

  lemma RemoveFiled(
      chains: seq<seq<int>>, bucketOf: seq<int>, linked: set<int>, b: int, k: int)
    requires Filed(chains, bucketOf, linked) && 0 <= b < |chains| && 0 <= k < |chains[b]| && Distinct(chains[b])
    ensures Filed(chains[b := Dropped(chains[b], k)], bucketOf, linked - {chains[b][k]})
  {
    var e := chains[b][k];
    DroppedHas(chains[b], k);
    assert e in chains[b];
    var chains' := chains[b := Dropped(chains[b], k)];
    forall c, x | 0 <= c < |chains'|
      ensures x in chains'[c] <==> x in linked - {e} && bucketOf[x] == c
    {
      assert x in chains[c] <==> x in linked && bucketOf[x] == c;
    }
  }

  lemma Insert(
      chains: seq<seq<int>>, heads: seq<int>, next: seq<int>, prev: seq<int>, bucketOf: seq<int>,
      linked: set<int>, b: int, e: int)
    requires ChainsOk(chains, heads, next, prev) && Filed(chains, bucketOf, linked)
    requires 0 <= b < |chains| && 0 <= e < |next| == |prev| && e !in linked
    ensures NULL <= heads[b] < |next|
    ensures ChainsOk(chains[b := [e] + chains[b]], heads[b := e],
                     PushedNext(next, e, heads[b]), PushedPrev(prev, e, heads[b]))
  {
    assert Links(chains[b], next, prev);
    var chains', heads' := chains[b := [e] + chains[b]], heads[b := e];
    var next', prev' := PushedNext(next, e, heads[b]), PushedPrev(prev, e, heads[b]);
    forall c | 0 <= c < |chains'|
      ensures Links(chains'[c], next', prev') && heads'[c] == At(chains'[c], 0)
    {
      NotFiled(chains, bucketOf, linked, c, e);
      if c == b {
        Push(chains[b], next, prev, e);
      } else {
        FiledApart(chains, bucketOf, linked, c, b);
        PushElsewhere(chains[b], chains[c], next, prev, e);
      }
    }
  }

  lemma InsertFiled(chains: seq<seq<int>>, bucketOf: seq<int>, linked: set<int>, e: int)
    requires Filed(chains, bucketOf, linked) && 0 <= e < |bucketOf| && 0 <= bucketOf[e] < |chains|
    ensures Filed(chains[bucketOf[e] := [e] + chains[bucketOf[e]]], bucketOf, linked + {e})
  {
    var chains' := chains[bucketOf[e] := [e] + chains[bucketOf[e]]];
    forall c, x | 0 <= c < |chains'|
      ensures x in chains'[c] <==> x in linked + {e} && bucketOf[x] == c
    {
      assert x in chains[c] <==> x in linked && bucketOf[x] == c;
    }
  }

  /** An entry that is in no chain may change its bucket. */
  lemma RekeyFiled(chains: seq<seq<int>>, bucketOf: seq<int>, linked: set<int>, e: int, b: int)
    requires Filed(chains, bucketOf, linked) && 0 <= e < |bucketOf| && e !in linked
    ensures Filed(chains, bucketOf[e := b], linked)
  {
    forall c, x | 0 <= c < |chains|
      ensures x in chains[c] <==> x in linked && bucketOf[e := b][x] == c
    {
      assert x in chains[c] <==> x in linked && bucketOf[x] == c;
    }
  }
}
