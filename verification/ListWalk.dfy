/** Walking a linked list while checking its back links, as a validator does: what an accepted walk
    proves about arbitrary columns, and that a well-formed list is never refused. */
module ListWalk {

  import opened Sequences
  import opened IntrusiveList
  import opened HashChains
  import PowerOfTwo

  /** A start slot and a walk along `next`, each hop confirmed by `prev`. */
  ghost predicate Walked(s: seq<int>, head: int, cur: int, next: seq<int>, prev: seq<int>) {
    && |next| == |prev| && Within(s, |next|)
    && cur == (if s == [] then head else next[s[|s| - 1]])
    && (s != [] ==> s[0] == head)
    && (forall i :: 0 <= i < |s| - 1 ==> next[s[i]] == s[i + 1])
    && (forall i {:trigger prev[s[i]]} :: 0 <= i < |s| ==> prev[s[i]] == At(s, i - 1))
  }

  /** Confirmed hops never return to an entry: a cycle breaks a back link first. */
  lemma {:induction false} WalkNeverReturns(
      s: seq<int>, head: int, cur: int, next: seq<int>, prev: seq<int>, i: int, j: int)
    requires Walked(s, head, cur, next, prev) && 0 <= i < j < |s|
    ensures s[i] != s[j]
    decreases i
  {
    if s[i] == s[j] {
      assert prev[s[i]] == At(s, i - 1) && prev[s[j]] == At(s, j - 1) == s[j - 1];
      if i > 0 {
        WalkNeverReturns(s, head, cur, next, prev, i - 1, j - 1);
      }
    }
  }

  lemma WalkDistinct(s: seq<int>, head: int, cur: int, next: seq<int>, prev: seq<int>)
    requires Walked(s, head, cur, next, prev)
    ensures Distinct(s)
  {
    forall i, j | 0 <= i < j < |s| ensures s[i] != s[j] {
      WalkNeverReturns(s, head, cur, next, prev, i, j);
    }
  }

  lemma WalkFinished(s: seq<int>, head: int, next: seq<int>, prev: seq<int>)
    requires Walked(s, head, NULL, next, prev)
    ensures Links(s, next, prev) && head == At(s, 0)
  {
    WalkDistinct(s, head, NULL, next, prev);
  }

  lemma WalkStep(s: seq<int>, head: int, cur: int, next: seq<int>, prev: seq<int>)
    requires Walked(s, head, cur, next, prev) && 0 <= cur < |next| && prev[cur] == At(s, |s| - 1)
    ensures Walked(s + [cur], head, next[cur], next, prev)
  {
    var t := s + [cur];
    forall i | 0 <= i < |t| ensures prev[t[i]] == At(t, i - 1) {
    }
  }

  /** A walk over a well-formed list is a prefix of it. */
  lemma {:induction false} WalkFollows(
      s: seq<int>, t: seq<int>, head: int, cur: int, next: seq<int>, prev: seq<int>, n: nat)
    requires Walked(s, head, cur, next, prev) && Links(t, next, prev) && head == At(t, 0) && n <= |s|
    ensures n <= |t| && s[..n] == t[..n]
    decreases n
  {
    if n > 0 {
      WalkFollows(s, t, head, cur, next, prev, n - 1);
      if n == 1 {
        assert s[0] == head;
      } else {
        assert s[..n - 1][n - 2] == t[..n - 1][n - 2];
        assert next[s[n - 2]] == s[n - 1] && next[t[n - 2]] == At(t, n - 1);
      }
      assert s[n - 1] == At(t, n - 1);
      assert s[..n] == s[..n - 1] + [s[n - 1]] && t[..n] == t[..n - 1] + [t[n - 1]];
    }
  }

  lemma WalkAgrees(s: seq<int>, t: seq<int>, head: int, cur: int, next: seq<int>, prev: seq<int>)
    requires Walked(s, head, cur, next, prev) && Links(t, next, prev) && head == At(t, 0)
    ensures |s| <= |t| && s == t[..|s|] && cur == At(t, |s|)
  {
    WalkFollows(s, t, head, cur, next, prev, |s|);
    assert s[..|s|] == s;
    if s != [] {
      assert s[|s| - 1] == t[|s| - 1];
    }
  }

  /** On a well-formed list the back link always confirms the hop. */
  lemma WalkConfirmed(s: seq<int>, t: seq<int>, head: int, cur: int, next: seq<int>, prev: seq<int>)
    requires Walked(s, head, cur, next, prev) && Links(t, next, prev) && head == At(t, 0) && cur != NULL
    ensures 0 <= cur < |next| && prev[cur] == At(s, |s| - 1)
  {
    WalkAgrees(s, t, head, cur, next, prev);
    assert prev[t[|s|]] == At(t, |s| - 1);
  }

  /** Columns and head determine the list. */
  lemma ListUnique(s: seq<int>, t: seq<int>, next: seq<int>, prev: seq<int>)
    requires Links(s, next, prev) && Links(t, next, prev) && At(s, 0) == At(t, 0)
    ensures s == t
  {
    LinksWalked(s, next, prev);
    WalkAgrees(s, t, At(s, 0), NULL, next, prev);
  }

  lemma LinksWalked(s: seq<int>, next: seq<int>, prev: seq<int>)
    requires Links(s, next, prev)
    ensures Walked(s, At(s, 0), NULL, next, prev)
  {
    forall i | 0 <= i < |s| - 1 ensures next[s[i]] == s[i + 1] {
      assert next[s[i]] == At(s, i + 1);
    }
    if s != [] {
      assert next[s[|s| - 1]] == At(s, |s|);
    }
  }

  /** A walk is never longer than the table: a cycle counter above it cannot fire. */
  lemma WalkFits(s: seq<int>, head: int, cur: int, next: seq<int>, prev: seq<int>)
    requires Walked(s, head, cur, next, prev)
    ensures |s| <= |next|
  {
    WalkDistinct(s, head, cur, next, prev);
    PowerOfTwo.DistinctBelow(s, |next|);
  }

  /** The total length of the first `n` chains. */
  ghost function Total(chains: seq<seq<int>>, n: nat): nat
    requires n <= |chains|
  {
    if n == 0 then 0 else Total(chains, n - 1) + |chains[n - 1]|
  }

  lemma {:induction false} TotalPrefix(c: seq<seq<int>>, d: seq<seq<int>>, n: nat)
    requires n <= |c| && n <= |d| && c[..n] == d[..n]
    ensures Total(c, n) == Total(d, n)
    decreases n
  {
    if n > 0 {
      assert c[..n][n - 1] == d[..n][n - 1];
      assert c[..n - 1] == c[..n][..n - 1] == d[..n][..n - 1] == d[..n - 1];
      TotalPrefix(c, d, n - 1);
    }
  }

  lemma {:induction false} TotalGrows(c: seq<seq<int>>, m: nat, n: nat)
    requires m <= n <= |c|
    ensures Total(c, m) <= Total(c, n)
    decreases n
  {
    if m < n {
      TotalGrows(c, m, n - 1);
    }
  }

  /** The chains of the first `|d|` buckets. */
  ghost predicate Parsed(d: seq<seq<int>>, heads: seq<int>, next: seq<int>, prev: seq<int>) {
    |d| <= |heads| && forall b :: 0 <= b < |d| ==> Links(d[b], next, prev) && heads[b] == At(d[b], 0)
  }

  lemma ParsedAll(d: seq<seq<int>>, heads: seq<int>, next: seq<int>, prev: seq<int>)
    requires Parsed(d, heads, next, prev) && |d| == |heads|
    ensures ChainsOk(d, heads, next, prev)
  {
  }

  lemma ParsedNext(d: seq<seq<int>>, s: seq<int>, heads: seq<int>, next: seq<int>, prev: seq<int>)
    requires Parsed(d, heads, next, prev) && |d| < |heads| && Walked(s, heads[|d|], NULL, next, prev)
    ensures Parsed(d + [s], heads, next, prev)
    ensures Total(d + [s], |d| + 1) == Total(d, |d|) + |s|
  {
    var d' := d + [s];
    TotalPrefix(d, d', |d|);
    assert Parsed(d', heads, next, prev) by {
      WalkFinished(s, heads[|d|], next, prev);
    }
  }

  lemma TotalWithNext(c: seq<seq<int>>, d: seq<seq<int>>, n: nat)
    requires |d| < |c| && d == c[..|d|] && n <= |c[|d|]|
    ensures Total(d, |d|) + n <= Total(c, |c|)
  {
    assert d[..|d|] == d;
    TotalPrefix(c, d, |d|);
    TotalGrows(c, |d| + 1, |c|);
  }

  lemma WalkInChain(
      c: seq<seq<int>>, s: seq<int>, b: int, cur: int, heads: seq<int>, next: seq<int>, prev: seq<int>)
    requires ChainsOk(c, heads, next, prev) && 0 <= b < |heads| && Walked(s, heads[b], cur, next, prev)
    ensures |s| <= |c[b]|
  {
    assert Links(c[b], next, prev) && heads[b] == At(c[b], 0);
    WalkAgrees(s, c[b], heads[b], cur, next, prev);
  }

  /** Every well-formed reading is at least as long as what the walk has counted. */
  lemma CountedSoFar(
      c: seq<seq<int>>, d: seq<seq<int>>, s: seq<int>, cur: int, heads: seq<int>, next: seq<int>, prev: seq<int>)
    requires ChainsOk(c, heads, next, prev) && Parsed(d, heads, next, prev) && |d| < |heads|
    requires Walked(s, heads[|d|], cur, next, prev)
    ensures Total(d, |d|) + |s| <= Total(c, |c|)
  {
    ChainsUnique(c, d, heads, next, prev);
    WalkInChain(c, s, |d|, cur, heads, next, prev);
    TotalWithNext(c, d, |s|);
  }

  lemma ChainConfirmed(
      c: seq<seq<int>>, s: seq<int>, b: int, cur: int, heads: seq<int>, next: seq<int>, prev: seq<int>)
    requires ChainsOk(c, heads, next, prev) && 0 <= b < |heads|
    requires Walked(s, heads[b], cur, next, prev) && cur != NULL
    ensures 0 <= cur < |next| && prev[cur] == At(s, |s| - 1)
  {
    assert Links(c[b], next, prev) && heads[b] == At(c[b], 0);
    WalkConfirmed(s, c[b], heads[b], cur, next, prev);
  }

  /** Chains found bucket by bucket are the chains of any well-formed reading of the table. */
  lemma ChainsUnique(c: seq<seq<int>>, d: seq<seq<int>>, heads: seq<int>, next: seq<int>, prev: seq<int>)
    requires ChainsOk(c, heads, next, prev) && Parsed(d, heads, next, prev)
    ensures d == c[..|d|]
  {
    forall b | 0 <= b < |d| ensures d[b] == c[b] {
      assert Links(c[b], next, prev) && heads[b] == At(c[b], 0);
      ListUnique(d[b], c[b], next, prev);
    }
  }
}
