/** What a first-in first-out traversal keeps, whether it searches a state space or a graph.

    `depth` records the depth given to every vertex when it was first met, `work` is the queue,
    `done` the vertices already popped and `level` the depth of the vertex popped last. */
module Frontier {
  import opened Levels

  ghost predicate Partition<S(!new)>(seen: set<S>, work: seq<S>, done: set<S>) {
    && (forall s :: s in seen <==> s in done || s in work)
    && (forall s :: s in work ==> s !in done)
    && (forall i, j :: 0 <= i < j < |work| ==> work[i] != work[j])
  }

  ghost predicate Levelled<S(!new), L(!new)>(succ: S -> seq<(L, S)>, init: S, maxDepth: nat, depth: map<S, nat>) {
    && init in depth && depth[init] == 0
    && (forall s :: s in depth ==> depth[s] <= maxDepth && s in Within(succ, init, depth[s]))
  }

  ghost predicate Ordered<S(!new)>(depth: map<S, nat>, work: seq<S>, done: set<S>, level: nat) {
    && (forall s :: s in done ==> s in depth && depth[s] <= level)
    && (forall s :: s in work ==> s in depth && level <= depth[s] <= level + 1)
    && (forall i, j :: 0 <= i < j < |work| ==> depth[work[i]] <= depth[work[j]])
  }

  /** The first `k` successors of `s` have been met, unless `s` lies at the depth bound. */
  ghost predicate Expanded<S(!new), L(!new)>(
      succ: S -> seq<(L, S)>, maxDepth: nat, depth: map<S, nat>, s: S, k: int)
  {
    s in depth && depth[s] < maxDepth ==>
      forall i :: 0 <= i < k && i < |succ(s)| ==>
        succ(s)[i].1 in depth && depth[succ(s)[i].1] <= depth[s] + 1
  }

  ghost predicate AllExpanded<S(!new), L(!new)>(
      succ: S -> seq<(L, S)>, maxDepth: nat, depth: map<S, nat>, done: set<S>)
  {
    forall s :: s in done ==> Expanded(succ, maxDepth, depth, s, |succ(s)|)
  }

  ghost predicate Between<S(!new), L(!new)>(
      succ: S -> seq<(L, S)>, init: S, maxDepth: nat, depth: map<S, nat>, work: seq<S>, done: set<S>, level: nat)
  {
    && Partition(depth.Keys, work, done)
    && Levelled(succ, init, maxDepth, depth)
    && Ordered(depth, work, done, level)
    && AllExpanded(succ, maxDepth, depth, done)
  }

  /** The same while the vertex `cur` is being expanded and its first `k` successors have been met. */
  ghost predicate Expanding<S(!new), L(!new)>(
      succ: S -> seq<(L, S)>, init: S, maxDepth: nat, depth: map<S, nat>, work: seq<S>, done: set<S>,
      cur: S, k: nat)
  {
    && cur in depth && cur in done
    && Partition(depth.Keys, work, done)
    && Levelled(succ, init, maxDepth, depth)
    && Ordered(depth, work, done, depth[cur])
    && AllExpanded(succ, maxDepth, depth, done - {cur})
    && Expanded(succ, maxDepth, depth, cur, k)
  }

  lemma Start<S(!new), L(!new)>(succ: S -> seq<(L, S)>, init: S, maxDepth: nat)
    ensures Between(succ, init, maxDepth, map[init := 0], [init], {}, 0)
  {
  }

  lemma Pop<S(!new), L(!new)>(
      succ: S -> seq<(L, S)>, init: S, maxDepth: nat, depth: map<S, nat>, work: seq<S>, done: set<S>, level: nat)
    requires work != [] && Between(succ, init, maxDepth, depth, work, done, level)
    ensures work[0] in depth && work[0] !in done
    ensures Expanding(succ, init, maxDepth, depth, work[1..], done + {work[0]}, work[0], 0)
  {
    var cur := work[0];
    assert cur in work;
    assert forall s :: s in work <==> s == cur || s in work[1..];
    assert forall i :: 0 <= i < |work[1..]| ==> work[1..][i] == work[i + 1];
    assert done + {cur} - {cur} == done;
  }

  lemma ExpandedGrows<S(!new), L(!new)>(
      succ: S -> seq<(L, S)>, maxDepth: nat, small: map<S, nat>, large: map<S, nat>, s: S, k: int)
    requires s in small && Expanded(succ, maxDepth, small, s, k)
    requires forall t :: t in small ==> t in large && large[t] == small[t]
    ensures Expanded(succ, maxDepth, large, s, k)
  {
  }

  lemma PushPartition<S(!new)>(seen: set<S>, work: seq<S>, done: set<S>, nxt: S)
    requires Partition(seen, work, done) && nxt !in seen
    ensures Partition(seen + {nxt}, work + [nxt], done)
  {
  }

  lemma PushOrdered<S(!new)>(depth: map<S, nat>, work: seq<S>, done: set<S>, level: nat, nxt: S)
    requires Partition(depth.Keys, work, done) && Ordered(depth, work, done, level) && nxt !in depth
    ensures Ordered(depth[nxt := level + 1], work + [nxt], done, level)
  {
    var deeper := depth[nxt := level + 1];
    assert forall i :: 0 <= i < |work| ==> work[i] in work && deeper[work[i]] == depth[work[i]];
  }

  lemma PushExpanded<S(!new), L(!new)>(
      succ: S -> seq<(L, S)>, maxDepth: nat, depth: map<S, nat>, deeper: map<S, nat>, done: set<S>)
    requires AllExpanded(succ, maxDepth, depth, done) && done <= depth.Keys
    requires forall t :: t in depth ==> t in deeper && deeper[t] == depth[t]
    ensures AllExpanded(succ, maxDepth, deeper, done)
  {
    forall s | s in done ensures Expanded(succ, maxDepth, deeper, s, |succ(s)|) {
      ExpandedGrows(succ, maxDepth, depth, deeper, s, |succ(s)|);
    }
  }

  lemma PushLevelled<S(!new), L(!new)>(
      succ: S -> seq<(L, S)>, init: S, maxDepth: nat, depth: map<S, nat>, cur: S, k: nat)
    requires Levelled(succ, init, maxDepth, depth) && cur in depth && depth[cur] < maxDepth && k < |succ(cur)|
    requires succ(cur)[k].1 !in depth
    ensures Levelled(succ, init, maxDepth, depth[succ(cur)[k].1 := depth[cur] + 1])
  {
    StepWithin(succ, init, depth[cur], cur, k);
  }

  /** Meeting a new vertex as the `k`-th successor: it goes to the back of the queue. */
  lemma Push<S(!new), L(!new)>(
      succ: S -> seq<(L, S)>, init: S, maxDepth: nat, depth: map<S, nat>, work: seq<S>, done: set<S>,
      cur: S, k: nat, deeper: map<S, nat>)
    requires Expanding(succ, init, maxDepth, depth, work, done, cur, k)
    requires k < |succ(cur)| && depth[cur] < maxDepth && succ(cur)[k].1 !in depth
    requires deeper == depth[succ(cur)[k].1 := depth[cur] + 1]
    ensures Expanding(succ, init, maxDepth, deeper, work + [succ(cur)[k].1], done, cur, k + 1)
  {
    var nxt := succ(cur)[k].1;
    PushLevelled(succ, init, maxDepth, depth, cur, k);
    PushPartition(depth.Keys, work, done, nxt);
    assert deeper.Keys == depth.Keys + {nxt};
    PushOrdered(depth, work, done, depth[cur], nxt);
    PushExpanded(succ, maxDepth, depth, deeper, done - {cur});
    ExpandedGrows(succ, maxDepth, depth, deeper, cur, k);
  }

  /** Meeting a known vertex. */
  lemma Skip<S(!new), L(!new)>(
      succ: S -> seq<(L, S)>, init: S, maxDepth: nat, depth: map<S, nat>, work: seq<S>, done: set<S>,
      cur: S, k: nat)
    requires Expanding(succ, init, maxDepth, depth, work, done, cur, k)
    requires k < |succ(cur)| && succ(cur)[k].1 in depth
    ensures Expanding(succ, init, maxDepth, depth, work, done, cur, k + 1)
  {
    var nxt := succ(cur)[k].1;
    assert nxt in done || nxt in work;
    assert depth[nxt] <= depth[cur] + 1;
  }

  lemma Finish<S(!new), L(!new)>(
      succ: S -> seq<(L, S)>, init: S, maxDepth: nat, depth: map<S, nat>, work: seq<S>, done: set<S>,
      cur: S, k: nat)
    requires Expanding(succ, init, maxDepth, depth, work, done, cur, k)
    requires k == |succ(cur)| || maxDepth <= depth[cur]
    ensures Between(succ, init, maxDepth, depth, work, done, depth[cur])
  {
    assert Expanded(succ, maxDepth, depth, cur, |succ(cur)|);
  }

  lemma HeadIsNearest<S(!new)>(depth: map<S, nat>, work: seq<S>, done: set<S>, level: nat)
    requires Partition(depth.Keys, work, done) && Ordered(depth, work, done, level)
    ensures work != [] ==> work[0] in depth
    ensures forall s :: s in depth && (work == [] || depth[s] < depth[work[0]]) ==> s in done
  {
    forall s | s in work ensures depth[work[0]] <= depth[s] {
      var i :| 0 <= i < |work| && work[i] == s;
      assert i > 0 ==> depth[work[0]] <= depth[work[i]];
    }
  }

  /** Everything at most `d` steps away has been met, once every nearer vertex has been popped. */
  lemma NearerIsMet<S(!new), L(!new)>(
      succ: S -> seq<(L, S)>, init: S, maxDepth: nat, depth: map<S, nat>, work: seq<S>, done: set<S>, level: nat,
      d: nat, k: nat)
    requires Between(succ, init, maxDepth, depth, work, done, level)
    requires k <= d <= maxDepth && (work != [] ==> work[0] in depth && d <= depth[work[0]])
    ensures forall s :: s in Within(succ, init, k) ==> s in depth && depth[s] <= k
  {
    HeadIsNearest(depth, work, done, level);
    forall s, i | s in done && depth[s] < d && 0 <= i < |succ(s)|
      ensures succ(s)[i].1 in depth && depth[succ(s)[i].1] <= depth[s] + 1
    {
      assert Expanded(succ, maxDepth, depth, s, |succ(s)|);
    }
    LevelBound(succ, init, depth, done, d, k);
  }

  lemma MetIsWithin<S(!new), L(!new)>(succ: S -> seq<(L, S)>, init: S, maxDepth: nat, depth: map<S, nat>)
    requires Levelled(succ, init, maxDepth, depth)
    ensures depth.Keys <= Within(succ, init, maxDepth)
  {
    forall s | s in depth ensures s in Within(succ, init, maxDepth) {
      WithinMonotone(succ, init, depth[s], maxDepth);
    }
  }

  /** An empty queue means that exactly the vertices within the bound were met, each at its level. */
  lemma Exhausted<S(!new), L(!new)>(
      succ: S -> seq<(L, S)>, init: S, maxDepth: nat, depth: map<S, nat>, done: set<S>, level: nat)
    requires Between(succ, init, maxDepth, depth, [], done, level)
    ensures done == depth.Keys == Within(succ, init, maxDepth)
    ensures forall s, k: nat :: s in depth && k < depth[s] ==> s !in Within(succ, init, k)
  {
    NearerIsMet(succ, init, maxDepth, depth, [], done, level, maxDepth, maxDepth);
    MetIsWithin(succ, init, maxDepth, depth);
    forall s, k: nat | s in depth && k < depth[s] ensures s !in Within(succ, init, k) {
      NearerIsMet(succ, init, maxDepth, depth, [], done, level, maxDepth, k);
    }
  }

  lemma OneMoreStepStays<S(!new), L(!new)>(succ: S -> seq<(L, S)>, init: S, maxDepth: nat, d: nat, s: S, i: nat)
    requires d < maxDepth && s in Within(succ, init, d) && i < |succ(s)|
    ensures succ(s)[i].1 in Within(succ, init, maxDepth)
  {
    StepWithin(succ, init, d, s, i);
    WithinMonotone(succ, init, d + 1, maxDepth);
  }

  /** If no vertex lies at the bound itself, no number of steps leaves the met vertices. */
  lemma NothingBeyond<S(!new), L(!new)>(
      succ: S -> seq<(L, S)>, init: S, maxDepth: nat, depth: map<S, nat>, d: nat)
    requires Levelled(succ, init, maxDepth, depth) && depth.Keys == Within(succ, init, maxDepth)
    requires forall s :: s in depth ==> depth[s] < maxDepth
    ensures Within(succ, init, d) <= depth.Keys
  {
    forall s, i | s in depth && 0 <= i < |succ(s)| ensures succ(s)[i].1 in depth {
      OneMoreStepStays(succ, init, maxDepth, depth[s], s, i);
    }
    ClosedContains(succ, init, depth.Keys, d);
  }
}
