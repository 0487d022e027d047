/** The first-in first-out state-space search that every COPPER checker runs.

    A state is marked as seen when it is pushed, and a state whose path already has
    `maxDepth` labels is not expanded.  Neither short cut loses anything: the search visits
    exactly the states within `maxDepth` steps, each by a shortest path. */
module Search {
  import opened Levels
  import F = Frontier

  /** Every stored path leads to its state, and its length is the state's depth. */
  ghost predicate Traced<S(!new), L(!new)>(
      succ: S -> seq<(L, S)>, init: S, paths: map<S, seq<L>>, depth: map<S, nat>)
  {
    && paths.Keys == depth.Keys
    && forall s :: s in paths ==> |paths[s]| == depth[s] && Leads(succ, init, paths[s], s)
  }

  lemma PushTrace<S(!new), L(!new)>(
      succ: S -> seq<(L, S)>, init: S, paths: map<S, seq<L>>, depth: map<S, nat>, cur: S, k: nat)
    requires Traced(succ, init, paths, depth) && cur in paths && k < |succ(cur)| && succ(cur)[k].1 !in paths
    ensures Traced(succ, init, paths[succ(cur)[k].1 := paths[cur] + [succ(cur)[k].0]],
                   depth[succ(cur)[k].1 := depth[cur] + 1])
  {
    LeadsSnoc(succ, init, paths[cur], cur, k);
  }

  /** Popping a state shrinks the part of the level set that is still to do. */
  lemma Progress<S>(all: set<S>, done: set<S>, s: S)
    requires s in all && s !in done
    ensures all - (done + {s}) < all - done
  {
    assert s in all - done && s !in all - (done + {s});
  }

  /** The program's queue of (state, path) pairs. */
  ghost predicate Pairs<S(!new), L(!new)>(queue: seq<(S, seq<L>)>, work: seq<S>, paths: map<S, seq<L>>) {
    |work| == |queue| &&
    forall i :: 0 <= i < |queue| ==> work[i] in paths && queue[i] == (work[i], paths[work[i]])
  }

  lemma PushPair<S(!new), L(!new)>(queue: seq<(S, seq<L>)>, work: seq<S>, paths: map<S, seq<L>>, s: S, path: seq<L>)
    requires Pairs(queue, work, paths) && s !in paths
    ensures Pairs(queue + [(s, path)], work + [s], paths[s := path])
  {
  }

  lemma PopPair<S(!new), L(!new)>(queue: seq<(S, seq<L>)>, work: seq<S>, paths: map<S, seq<L>>)
    requires Pairs(queue, work, paths) && queue != []
    ensures work != [] && work[0] in paths && queue[0] == (work[0], paths[work[0]])
    ensures Pairs(queue[1..], work[1..], paths)
  {
  }

  /** No trace of at most `maxDepth` labels reaches a bad state. */
  ghost predicate NoneWithin<S(!new), L(!new)>(succ: S -> seq<(L, S)>, init: S, bad: S -> bool, maxDepth: nat) {
    forall s :: s in Within(succ, init, maxDepth) ==> !bad(s)
  }

  /** `trace` is a counterexample and no shorter one exists. */
  ghost predicate ShortestCounterexample<S(!new), L(!new)>(
      succ: S -> seq<(L, S)>, init: S, bad: S -> bool, trace: seq<L>, culprit: S)
  {
    && bad(culprit) && Leads(succ, init, trace, culprit)
    && forall k: nat :: k < |trace| ==> NoneWithin(succ, init, bad, k)
  }

  lemma FoundIsShortest<S(!new), L(!new)>(
      succ: S -> seq<(L, S)>, init: S, bad: S -> bool, maxDepth: nat,
      depth: map<S, nat>, work: seq<S>, done: set<S>, level: nat)
    requires work != [] && F.Between(succ, init, maxDepth, depth, work, done, level)
    requires work[0] in depth && bad(work[0]) && forall s :: s in done ==> !bad(s)
    ensures depth[work[0]] <= maxDepth && !NoneWithin(succ, init, bad, maxDepth)
    ensures forall k: nat :: k < depth[work[0]] ==> NoneWithin(succ, init, bad, k)
  {
    F.MetIsWithin(succ, init, maxDepth, depth);
    F.HeadIsNearest(depth, work, done, level);
    forall k: nat | k < depth[work[0]] ensures NoneWithin(succ, init, bad, k) {
      F.NearerIsMet(succ, init, maxDepth, depth, work, done, level, depth[work[0]], k);
      forall s | s in Within(succ, init, k) ensures !bad(s) {
        assert s in depth && depth[s] <= k;
        assert s in done;
      }
    }
  }

  /** `check_variant`: search until a bad state is popped or the queue runs empty. */
  method CheckBounded<S(==, !new), L(!new)>(init: S, succ: S -> seq<(L, S)>, bad: S -> bool, maxDepth: nat)
      returns (ok: bool, explored: nat, trace: seq<L>, culprit: S)
    ensures ok <==> NoneWithin(succ, init, bad, maxDepth)
    ensures ok ==> explored == |Within(succ, init, maxDepth)| && trace == []
    ensures !ok ==> |trace| <= maxDepth && ShortestCounterexample(succ, init, bad, trace, culprit)
  {
    var queue: seq<(S, seq<L>)> := [(init, [])];
    var seen := {init};
    explored := 0;
    ghost var paths: map<S, seq<L>> := map[init := []];
    ghost var depth: map<S, nat> := map[init := 0];
    ghost var work, done := [init], {};
    ghost var level: nat := 0;
    F.Start(succ, init, maxDepth);
    while queue != []
      invariant F.Between(succ, init, maxDepth, depth, work, done, level)
      invariant Traced(succ, init, paths, depth) && Pairs(queue, work, paths)
      invariant seen == paths.Keys && explored == |done|
      invariant forall s :: s in done ==> !bad(s)
      decreases Within(succ, init, maxDepth) - done
    {
      var (state, path) := queue[0];
      PopPair(queue, work, paths);
      if bad(state) {
        FoundIsShortest(succ, init, bad, maxDepth, depth, work, done, level);
        return false, explored + 1, path, state;
      }
      F.Pop(succ, init, maxDepth, depth, work, done, level);
      F.MetIsWithin(succ, init, maxDepth, depth);
      Progress(Within(succ, init, maxDepth), done, state);
      explored := explored + 1;
      queue, work, done, level := queue[1..], work[1..], done + {state}, |path|;
      if |path| < maxDepth {
        seen, queue, paths, depth, work :=
          Expand(succ, init, maxDepth, seen, queue, paths, depth, work, done, state, path);
      } else {
        F.Finish(succ, init, maxDepth, depth, work, done, state, 0);
      }
    }
    F.Exhausted(succ, init, maxDepth, depth, done, level);
    return true, explored, [], init;
  }

  /** The program's variables while `state` is being expanded. */
  ghost predicate Scanning<S(!new), L(!new)>(
      succ: S -> seq<(L, S)>, init: S, maxDepth: nat, seen: set<S>, queue: seq<(S, seq<L>)>,
      paths: map<S, seq<L>>, depth: map<S, nat>, work: seq<S>, done: set<S>, state: S, k: nat)
  {
    && Traced(succ, init, paths, depth) && Pairs(queue, work, paths) && seen == paths.Keys
    && F.Expanding(succ, init, maxDepth, depth, work, done, state, k)
  }

  lemma Meet<S(!new), L(!new)>(
      succ: S -> seq<(L, S)>, init: S, maxDepth: nat, seen: set<S>, queue: seq<(S, seq<L>)>,
      paths: map<S, seq<L>>, depth: map<S, nat>, work: seq<S>, done: set<S>, state: S, k: nat,
      tag: L, nxt: S, path: seq<L>)
    requires Scanning(succ, init, maxDepth, seen, queue, paths, depth, work, done, state, k)
    requires k < |succ(state)| && succ(state)[k] == (tag, nxt) && nxt !in seen
    requires paths[state] == path && |path| < maxDepth
    ensures Scanning(succ, init, maxDepth, seen + {nxt}, queue + [(nxt, path + [tag])], paths[nxt := path + [tag]],
                     depth[nxt := |path| + 1], work + [nxt], done, state, k + 1)
  {
    PushTrace(succ, init, paths, depth, state, k);
    PushPair(queue, work, paths, nxt, path + [tag]);
    F.Push(succ, init, maxDepth, depth, work, done, state, k, depth[nxt := |path| + 1]);
  }

  /** The inner loop of `check_variant`. */
  method Expand<S(==, !new), L(!new)>(
      succ: S -> seq<(L, S)>, ghost init: S, ghost maxDepth: nat, seen0: set<S>, queue0: seq<(S, seq<L>)>,
      ghost paths0: map<S, seq<L>>, ghost depth0: map<S, nat>, ghost work0: seq<S>, ghost done: set<S>,
      state: S, path: seq<L>)
      returns (seen: set<S>, queue: seq<(S, seq<L>)>, ghost paths: map<S, seq<L>>, ghost depth: map<S, nat>,
               ghost work: seq<S>)
    requires Scanning(succ, init, maxDepth, seen0, queue0, paths0, depth0, work0, done, state, 0)
    requires paths0[state] == path && |path| < maxDepth
    ensures Traced(succ, init, paths, depth) && Pairs(queue, work, paths) && seen == paths.Keys
    ensures F.Between(succ, init, maxDepth, depth, work, done, |path|)
  {
    seen, queue, paths, depth, work := seen0, queue0, paths0, depth0, work0;
    for k := 0 to |succ(state)|
      invariant Scanning(succ, init, maxDepth, seen, queue, paths, depth, work, done, state, k)
      invariant paths[state] == path
    {
      var (tag, nxt) := succ(state)[k];
      if nxt !in seen {
        Meet(succ, init, maxDepth, seen, queue, paths, depth, work, done, state, k, tag, nxt, path);
        paths, depth, work := paths[nxt := path + [tag]], depth[nxt := |path| + 1], work + [nxt];
        seen, queue := seen + {nxt}, queue + [(nxt, path + [tag])];
      } else {
        F.Skip(succ, init, maxDepth, depth, work, done, state, k);
      }
    }
    F.Finish(succ, init, maxDepth, depth, work, done, state, |succ(state)|);
  }

  /** The successor list that an event alphabet and a transition function induce. */
  function EventSuccessors<S, E>(events: seq<E>, step: (S, E) -> S): S -> seq<(E, S)> {
    (s: S) => seq(|events|, (i: nat) requires i < |events| => (events[i], step(s, events[i])))
  }

  /** States of a dictionary in an order that never goes back to a shorter path. */
  ghost predicate Arranged<S(!new), L(!new)>(paths: map<S, seq<L>>, order: seq<S>) {
    && (forall i :: 0 <= i < |order| ==> order[i] in paths)
    && (forall i, j :: 0 <= i < j < |order| ==> order[i] != order[j] && |paths[order[i]]| <= |paths[order[j]]|)
  }

  ghost predicate Kept<S(!new), L(!new)>(small: map<S, seq<L>>, large: map<S, seq<L>>) {
    forall s :: s in small ==> s in large && large[s] == small[s]
  }

  /** The dictionary's insertion order while `work` waits: the states of `done`, then the queue. */
  ghost predicate InOrder<S(!new), L(!new)>(
      paths: map<S, seq<L>>, work: seq<S>, done: set<S>, order: seq<S>, popped: seq<S>)
  {
    order == popped + work && Arranged(paths, popped) && forall s :: s in popped <==> s in done
  }

  lemma PopInOrder<S(!new), L(!new)>(
      succ: S -> seq<(L, S)>, init: S, paths: map<S, seq<L>>, depth: map<S, nat>, work: seq<S>, done: set<S>,
      level: nat, order: seq<S>, popped: seq<S>)
    requires work != [] && F.Partition(depth.Keys, work, done) && F.Ordered(depth, work, done, level)
    requires Traced(succ, init, paths, depth) && InOrder(paths, work, done, order, popped)
    ensures InOrder(paths, work[1..], done + {work[0]}, order, popped + [work[0]])
  {
    var s := work[0];
    assert s in work;
    assert popped + work == popped + [s] + work[1..];
    forall i | 0 <= i < |popped| ensures popped[i] != s && |paths[popped[i]]| <= |paths[s]| {
      assert popped[i] in popped;
    }
  }

  lemma ExpandInOrder<S(!new), L(!new)>(
      small: map<S, seq<L>>, large: map<S, seq<L>>, waiting: seq<S>, work: seq<S>, done: set<S>, order: seq<S>,
      popped: seq<S>)
    requires InOrder(small, waiting, done, order, popped) && waiting <= work && Kept(small, large)
    ensures InOrder(large, work, done, order + work[|waiting|..], popped)
  {
    assert waiting + work[|waiting|..] == work;
  }

  /** `reachable_states`: the dictionary of all states within `maxDepth`, with a shortest path for each.
      `order` is the dictionary's insertion order, which goes from shorter to longer paths. */
  method ReachableStates<S(==, !new), E(!new)>(init: S, events: seq<E>, step: (S, E) -> S, maxDepth: nat)
      returns (paths: map<S, seq<E>>, order: seq<S>)
    ensures paths.Keys == Within(EventSuccessors(events, step), init, maxDepth)
    ensures forall s :: s in paths ==> Leads(EventSuccessors(events, step), init, paths[s], s)
    ensures forall s, k: nat :: s in paths && k < |paths[s]| ==> s !in Within(EventSuccessors(events, step), init, k)
    ensures Arranged(paths, order) && forall s :: s in order <==> s in paths
  {
    ghost var succ := EventSuccessors(events, step);
    paths, order := map[init := []], [init];
    var work := [init];
    ghost var depth: map<S, nat> := map[init := 0];
    ghost var done: set<S>, popped: seq<S> := {}, [];
    ghost var level: nat := 0;
    F.Start(succ, init, maxDepth);
    while work != []
      invariant F.Between(succ, init, maxDepth, depth, work, done, level) && Traced(succ, init, paths, depth)
      invariant InOrder(paths, work, done, order, popped)
      decreases Within(succ, init, maxDepth) - done
    {
      var state := work[0];
      var path := paths[state];
      F.Pop(succ, init, maxDepth, depth, work, done, level);
      F.MetIsWithin(succ, init, maxDepth, depth);
      Progress(Within(succ, init, maxDepth), done, state);
      PopInOrder(succ, init, paths, depth, work, done, level, order, popped);
      work, done, level, popped := work[1..], done + {state}, |path|, popped + [state];
      if |path| < maxDepth {
        var waiting := work;
        ghost var paths0 := paths;
        paths, depth, work := ExpandEvents(succ, init, events, step, maxDepth, paths, depth, work, done, state, path);
        ExpandInOrder(paths0, paths, waiting, work, done, order, popped);
        order := order + work[|waiting|..];
      } else {
        F.Finish(succ, init, maxDepth, depth, work, done, state, 0);
      }
    }
    F.Exhausted(succ, init, maxDepth, depth, done, level);
    assert order == popped;
    forall s, k: nat | s in paths && k < |paths[s]| ensures s !in Within(succ, init, k) {
      assert s in depth && k < depth[s];
    }
  }

  /** The dictionary of `reachable_states` while `state` is being expanded. */
  ghost predicate Filling<S(!new), L(!new)>(
      succ: S -> seq<(L, S)>, init: S, maxDepth: nat, paths: map<S, seq<L>>, depth: map<S, nat>,
      work: seq<S>, done: set<S>, state: S, k: nat)
  {
    Traced(succ, init, paths, depth) && F.Expanding(succ, init, maxDepth, depth, work, done, state, k)
  }

  lemma Fill<S(!new), L(!new)>(
      succ: S -> seq<(L, S)>, init: S, maxDepth: nat, paths: map<S, seq<L>>, depth: map<S, nat>,
      work: seq<S>, done: set<S>, state: S, k: nat, tag: L, nxt: S, path: seq<L>)
    requires Filling(succ, init, maxDepth, paths, depth, work, done, state, k)
    requires k < |succ(state)| && succ(state)[k] == (tag, nxt)
    requires state in paths && paths[state] == path && |path| < maxDepth
    ensures nxt !in paths ==>
              Filling(succ, init, maxDepth, paths[nxt := path + [tag]], depth[nxt := |path| + 1],
                      work + [nxt], done, state, k + 1)
    ensures nxt in paths ==> Filling(succ, init, maxDepth, paths, depth, work, done, state, k + 1)
  {
    if nxt in paths {
      F.Skip(succ, init, maxDepth, depth, work, done, state, k);
    } else {
      PushTrace(succ, init, paths, depth, state, k);
      F.Push(succ, init, maxDepth, depth, work, done, state, k, depth[nxt := |path| + 1]);
    }
  }

  /** The inner loop of `reachable_states`. */
  method ExpandEvents<S(==, !new), E(!new)>(
      ghost succ: S -> seq<(E, S)>, ghost init: S, events: seq<E>, step: (S, E) -> S, ghost maxDepth: nat,
      paths0: map<S, seq<E>>, ghost depth0: map<S, nat>, work0: seq<S>, ghost done: set<S>, state: S, path: seq<E>)
      returns (paths: map<S, seq<E>>, ghost depth: map<S, nat>, work: seq<S>)
    requires |succ(state)| == |events|
    requires forall k :: 0 <= k < |events| ==> succ(state)[k] == (events[k], step(state, events[k]))
    requires Filling(succ, init, maxDepth, paths0, depth0, work0, done, state, 0)
    requires state in paths0 && paths0[state] == path && |path| < maxDepth
    ensures F.Between(succ, init, maxDepth, depth, work, done, |path|) && Traced(succ, init, paths, depth)
    ensures work0 <= work && Kept(paths0, paths)
  {
    paths, depth, work := paths0, depth0, work0;
    for k := 0 to |events|
      invariant Filling(succ, init, maxDepth, paths, depth, work, done, state, k)
      invariant state in paths && paths[state] == path
      invariant work0 <= work && Kept(paths0, paths)
    {
      var nxt := step(state, events[k]);
      Fill(succ, init, maxDepth, paths, depth, work, done, state, k, events[k], nxt, path);
      if nxt !in paths {
        depth := depth[nxt := |path| + 1];
        paths, work := paths[nxt := path + [events[k]]], work + [nxt];
      }
    }
    F.Finish(succ, init, maxDepth, depth, work, done, state, |succ(state)|);
  }
}
