/** When bucket chains whose lengths total the table size hold every entry: exactly when no two
    buckets start at one entry. */
module ChainCover {

  import opened Sequences
  import opened IntrusiveList
  import opened HashChains
  import opened ListWalk
  import PowerOfTwo

  ghost predicate InSome(chains: seq<seq<int>>, e: int) {
    exists b :: 0 <= b < |chains| && e in chains[b]
  }

  ghost predicate CoversAll(chains: seq<seq<int>>, n: int) {
    forall e :: 0 <= e < n ==> InSome(chains, e)
  }

  ghost predicate NoSharedHead(heads: seq<int>) {
    forall b, c :: 0 <= b < c < |heads| ==> heads[b] == NULL || heads[b] != heads[c]
  }

  /** The first `n` chains, one after the other. */
  ghost function Joined(chains: seq<seq<int>>, n: nat): seq<int>
    requires n <= |chains|
  {
    if n == 0 then [] else Joined(chains, n - 1) + chains[n - 1]
  }

  lemma {:induction false} JoinedHas(chains: seq<seq<int>>, n: nat)
    requires n <= |chains|
    ensures |Joined(chains, n)| == Total(chains, n)
    ensures forall x :: x in Joined(chains, n) <==> exists b :: 0 <= b < n && x in chains[b]
    decreases n
  {
    if n > 0 {
      JoinedHas(chains, n - 1);
    }
  }

  lemma {:induction false} JoinedDistinct(chains: seq<seq<int>>, n: nat)
    requires n <= |chains| && forall b :: 0 <= b < |chains| ==> Distinct(chains[b])
    requires forall b, c :: 0 <= b < c < |chains| ==> Disjoint(chains[b], chains[c])
    ensures Distinct(Joined(chains, n))
    decreases n
  {
    if n > 0 {
      JoinedHas(chains, n - 1);
      JoinedDistinct(chains, n - 1);
      var front := Joined(chains, n - 1);
      forall x | x in front ensures x !in chains[n - 1] {
        var b :| 0 <= b < n - 1 && x in chains[b];
        assert Disjoint(chains[b], chains[n - 1]);
      }
      AppendDistinct(front, chains[n - 1]);
    }
  }

  /** Chains that share nothing and hold each of `n` entries total `n`. */
  lemma CoverTotals(chains: seq<seq<int>>, n: nat)
    requires forall b :: 0 <= b < |chains| ==> Distinct(chains[b]) && Within(chains[b], n)
    requires forall b, c :: 0 <= b < c < |chains| ==> Disjoint(chains[b], chains[c])
    requires CoversAll(chains, n)
    ensures Total(chains, |chains|) == n
  {
    var all := Joined(chains, |chains|);
    JoinedHas(chains, |chains|);
    JoinedDistinct(chains, |chains|);
    forall e | 0 <= e < n ensures e in all {
      assert InSome(chains, e);
    }
    ContainsAllIsLong(all, n);
    forall x | x in all ensures 0 <= x < n {
      var b :| 0 <= b < |chains| && x in chains[b];
    }
    PowerOfTwo.DistinctBelow(all, n);
  }

  /** Two lists over the same columns that meet in one entry start at the same one. */
  lemma {:induction false} MeetingListsShareHead(
      s: seq<int>, t: seq<int>, next: seq<int>, prev: seq<int>, i: nat, j: nat)
    requires Links(s, next, prev) && Links(t, next, prev) && i < |s| && j < |t| && s[i] == t[j]
    ensures s[0] == t[0]
    decreases i
  {
    assert prev[s[i]] == At(s, i - 1) && prev[t[j]] == At(t, j - 1);
    if i > 0 {
      MeetingListsShareHead(s, t, next, prev, i - 1, j - 1);
    }
  }

  lemma ChainsApart(chains: seq<seq<int>>, heads: seq<int>, next: seq<int>, prev: seq<int>, b: int, c: int)
    requires ChainsOk(chains, heads, next, prev) && NoSharedHead(heads) && 0 <= b < c < |chains|
    ensures Disjoint(chains[b], chains[c])
  {
    assert Links(chains[b], next, prev) && heads[b] == At(chains[b], 0);
    assert Links(chains[c], next, prev) && heads[c] == At(chains[c], 0);
    forall x | x in chains[b] ensures x !in chains[c] {
      if x in chains[c] {
        var i: nat :| i < |chains[b]| && chains[b][i] == x;
        var j: nat :| j < |chains[c]| && chains[c][j] == x;
        MeetingListsShareHead(chains[b], chains[c], next, prev, i, j);
      }
    }
  }

  lemma ApartCovers(chains: seq<seq<int>>, heads: seq<int>, next: seq<int>, prev: seq<int>)
    requires ChainsOk(chains, heads, next, prev) && NoSharedHead(heads) && Total(chains, |chains|) == |next|
    ensures CoversAll(chains, |next|)
  {
    forall b | 0 <= b < |chains| ensures Distinct(chains[b]) && Within(chains[b], |next|) {
      assert Links(chains[b], next, prev);
    }
    forall b, c | 0 <= b < c < |chains| ensures Disjoint(chains[b], chains[c]) {
      ChainsApart(chains, heads, next, prev, b, c);
    }
    JoinedHas(chains, |chains|);
    JoinedDistinct(chains, |chains|);
    forall e | 0 <= e < |next| ensures InSome(chains, e) {
      PowerOfTwo.DistinctIsAll(Joined(chains, |chains|), e);
    }
  }

  /** Emptying one chain shortens the total by its length. */
  lemma {:induction false} TotalWithout(chains: seq<seq<int>>, c: nat, n: nat)
    requires c < n <= |chains|
    ensures Total(chains[c := []], n) == Total(chains, n) - |chains[c]|
    decreases n
  {
    if n - 1 == c {
      assert chains[c := []][..c] == chains[..c];
      TotalPrefix(chains[c := []], chains, c);
    } else {
      TotalWithout(chains, c, n - 1);
    }
  }

  lemma SharedIsNoCover(chains: seq<seq<int>>, heads: seq<int>, next: seq<int>, prev: seq<int>, b: nat, c: nat)
    requires ChainsOk(chains, heads, next, prev) && Total(chains, |chains|) == |next|
    requires b < c < |heads| && heads[b] == heads[c] != NULL
    ensures !CoversAll(chains, |next|)
  {
    assert Links(chains[b], next, prev) && heads[b] == At(chains[b], 0);
    assert Links(chains[c], next, prev) && heads[c] == At(chains[c], 0);
    ListUnique(chains[b], chains[c], next, prev);
    var rest := chains[c := []];
    if CoversAll(chains, |next|) {
      JoinedHas(rest, |rest|);
      forall e | 0 <= e < |next| ensures e in Joined(rest, |rest|) {
        assert InSome(chains, e);
        var a :| 0 <= a < |chains| && e in chains[a];
        assert e in rest[if a == c then b else a];
      }
      ContainsAllIsLong(Joined(rest, |rest|), |next|);
      TotalWithout(chains, c, |chains|);
    }
  }

  /** Chains that total the table size hold every entry exactly when no two buckets have one head. */
  lemma CoversIff(chains: seq<seq<int>>, heads: seq<int>, next: seq<int>, prev: seq<int>)
    requires ChainsOk(chains, heads, next, prev) && Total(chains, |chains|) == |next|
    ensures CoversAll(chains, |next|) <==> NoSharedHead(heads)
  {
    if NoSharedHead(heads) {
      ApartCovers(chains, heads, next, prev);
    } else {
      var b, c :| 0 <= b < c < |heads| && heads[b] != NULL && heads[b] == heads[c];
      SharedIsNoCover(chains, heads, next, prev, b, c);
    }
  }

  /** Two buckets with one head pass the same count although the other entry is in no chain. */
  lemma SharedHeadIsAccepted()
    ensures exists chains, heads, next, prev ::
      ChainsOk(chains, heads, next, prev) && Total(chains, |chains|) == |next| == 2
      && forall b :: 0 <= b < |chains| ==> 1 !in chains[b]
  {
    var chains: seq<seq<int>> := [[0], [0], [], []];
    var heads, next, prev := [0, 0, NULL, NULL], [NULL, NULL], [NULL, NULL];
    forall b | 0 <= b < |chains| ensures Links(chains[b], next, prev) && heads[b] == At(chains[b], 0) {
    }
    assert Total(chains, 2) == 2 && Total(chains, 4) == 2;
    assert ChainsOk(chains, heads, next, prev);
  }
}
