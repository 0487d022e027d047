/** Breadth-first levels of a labelled transition relation.

    `succ(s)` lists the labelled successors of `s` in the order in which the program
    generates them.  `Within(succ, init, d)` is the reference notion of reachability used by
    every search and every graph kernel of this project. */
module Levels {

  ghost function Image<S(!new), L(!new)>(succ: S -> seq<(L, S)>, states: set<S>): set<S> {
    set s, i | s in states && 0 <= i < |succ(s)| :: succ(s)[i].1
  }

  /** The states reachable from `init` in at most `d` steps. */
  ghost function Within<S(!new), L(!new)>(succ: S -> seq<(L, S)>, init: S, d: nat): set<S> {
    if d == 0 then {init}
    else Within(succ, init, d - 1) + Image(succ, Within(succ, init, d - 1))
  }

  ghost predicate Reachable<S(!new), L(!new)>(succ: S -> seq<(L, S)>, init: S, s: S) {
    exists d: nat :: s in Within(succ, init, d)
  }

  /** Following the labels of `trace` can lead from `init` to `s`. */
  ghost predicate Leads<S(!new), L(!new)>(succ: S -> seq<(L, S)>, init: S, trace: seq<L>, s: S) {
    if trace == [] then s == init
    else exists t :: Leads(succ, init, trace[..|trace| - 1], t) && (trace[|trace| - 1], s) in succ(t)
  }

  lemma StepWithin<S(!new), L(!new)>(succ: S -> seq<(L, S)>, init: S, d: nat, s: S, i: nat)
    requires s in Within(succ, init, d) && i < |succ(s)|
    ensures succ(s)[i].1 in Within(succ, init, d + 1)
  {
    assert succ(s)[i].1 in Image(succ, Within(succ, init, d));
  }

  /** A state first met at level `d` was reached from one at level `d - 1`. */
  lemma Predecessor<S(!new), L(!new)>(succ: S -> seq<(L, S)>, init: S, d: nat, s: S) returns (t: S, i: nat)
    requires d > 0 && s in Within(succ, init, d) && s !in Within(succ, init, d - 1)
    ensures t in Within(succ, init, d - 1) && i < |succ(t)| && succ(t)[i].1 == s
  {
    assert s in Image(succ, Within(succ, init, d - 1));
    t, i :| t in Within(succ, init, d - 1) && i < |succ(t)| && succ(t)[i].1 == s;
  }

  /** `s` is first met at level `d`. */
  ghost predicate NewAt<S(!new), L(!new)>(succ: S -> seq<(L, S)>, init: S, d: nat, s: S) {
    s in Within(succ, init, d) && (d > 0 ==> s !in Within(succ, init, d - 1))
  }

  lemma NotMetBefore<S(!new), L(!new)>(succ: S -> seq<(L, S)>, init: S, d: nat, s: S, i: nat)
    requires i < |succ(s)| && succ(s)[i].1 !in Within(succ, init, d + 1)
    ensures s !in Within(succ, init, d)
  {
    if s in Within(succ, init, d) {
      StepWithin(succ, init, d, s, i);
    }
  }

  lemma {:induction false} WithinMonotone<S(!new), L(!new)>(succ: S -> seq<(L, S)>, init: S, c: nat, d: nat)
    requires c <= d
    ensures Within(succ, init, c) <= Within(succ, init, d)
    decreases d
  {
    if c < d {
      WithinMonotone(succ, init, c, d - 1);
    }
  }

  lemma LeadsSnoc<S(!new), L(!new)>(succ: S -> seq<(L, S)>, init: S, trace: seq<L>, s: S, i: nat)
    requires Leads(succ, init, trace, s) && i < |succ(s)|
    ensures Leads(succ, init, trace + [succ(s)[i].0], succ(s)[i].1)
  {
    var longer := trace + [succ(s)[i].0];
    assert longer[..|longer| - 1] == trace;
    assert (longer[|longer| - 1], succ(s)[i].1) == succ(s)[i];
  }

  /** Traces and levels agree: a trace of length `d` ends within level `d`. */
  lemma {:induction false} LeadsIsWithin<S(!new), L(!new)>(succ: S -> seq<(L, S)>, init: S, trace: seq<L>, s: S)
    requires Leads(succ, init, trace, s)
    ensures s in Within(succ, init, |trace|)
    decreases |trace|
  {
    if trace != [] {
      var t :| Leads(succ, init, trace[..|trace| - 1], t) && (trace[|trace| - 1], s) in succ(t);
      LeadsIsWithin(succ, init, trace[..|trace| - 1], t);
      var i :| 0 <= i < |succ(t)| && succ(t)[i] == (trace[|trace| - 1], s);
      StepWithin(succ, init, |trace| - 1, t, i);
    }
  }

  lemma {:induction false} WithinLeads<S(!new), L(!new)>(succ: S -> seq<(L, S)>, init: S, d: nat, s: S)
      returns (trace: seq<L>)
    requires s in Within(succ, init, d)
    ensures |trace| <= d && Leads(succ, init, trace, s)
    decreases d
  {
    if d == 0 {
      trace := [];
    } else if s in Within(succ, init, d - 1) {
      trace := WithinLeads(succ, init, d - 1, s);
    } else {
      var t, i := Predecessor(succ, init, d, s);
      var before := WithinLeads(succ, init, d - 1, t);
      LeadsSnoc(succ, init, before, t, i);
      trace := before + [succ(t)[i].0];
    }
  }

  /** The levels seen from the other end: the first step, then the rest. */
  lemma {:induction false} WithinFirstStep<S(!new), L(!new)>(succ: S -> seq<(L, S)>, init: S, d: nat, s: S)
    requires s in Within(succ, init, d + 1)
    ensures s == init || exists i: nat :: i < |succ(init)| && s in Within(succ, succ(init)[i].1, d)
    decreases d
  {
    if s != init {
      if d == 0 {
        assert Within(succ, init, 0) == {init};
        assert s in Image(succ, {init});
        var i: nat :| i < |succ(init)| && succ(init)[i].1 == s;
        assert s in Within(succ, succ(init)[i].1, 0);
      } else if s in Within(succ, init, d) {
        WithinFirstStep(succ, init, d - 1, s);
        var i: nat :| i < |succ(init)| && s in Within(succ, succ(init)[i].1, d - 1);
        WithinMonotone(succ, succ(init)[i].1, d - 1, d);
        assert s in Within(succ, succ(init)[i].1, d);
      } else {
        var t, j := Predecessor(succ, init, d + 1, s);
        if t == init {
          var first := succ(init)[j].1;
          WithinMonotone(succ, first, 0, d);
          assert s in Within(succ, succ(init)[j].1, d);
        } else {
          WithinFirstStep(succ, init, d - 1, t);
          var i: nat :| i < |succ(init)| && t in Within(succ, succ(init)[i].1, d - 1);
          StepWithin(succ, succ(init)[i].1, d - 1, t, j);
          assert s in Within(succ, succ(init)[i].1, d);
        }
      }
    }
  }

  /** And conversely. */
  lemma {:induction false} FirstStepWithin<S(!new), L(!new)>(succ: S -> seq<(L, S)>, init: S, i: nat, d: nat, s: S)
    requires i < |succ(init)| && s in Within(succ, succ(init)[i].1, d)
    ensures s in Within(succ, init, d + 1)
    decreases d
  {
    var first := succ(init)[i].1;
    if d == 0 {
      assert init in Within(succ, init, 0);
      StepWithin(succ, init, 0, init, i);
    } else if s in Within(succ, first, d - 1) {
      FirstStepWithin(succ, init, i, d - 1, s);
    } else {
      var t, j := Predecessor(succ, first, d, s);
      FirstStepWithin(succ, init, i, d - 1, t);
      StepWithin(succ, init, d, t, j);
    }
  }

  /** The induction principle of transition systems. */
  lemma {:induction false} InvariantWithin<S(!new), L(!new)>(succ: S -> seq<(L, S)>, init: S, inv: S -> bool, d: nat)
    requires inv(init)
    requires forall s, i :: inv(s) && 0 <= i < |succ(s)| ==> inv(succ(s)[i].1)
    ensures forall s :: s in Within(succ, init, d) ==> inv(s)
    decreases d
  {
    if d > 0 {
      InvariantWithin(succ, init, inv, d - 1);
    }
  }

  /** A set that contains `init` and that no step leaves contains every level. */
  lemma {:induction false} ClosedContains<S(!new), L(!new)>(succ: S -> seq<(L, S)>, init: S, closed: set<S>, d: nat)
    requires init in closed && forall s, i :: s in closed && 0 <= i < |succ(s)| ==> succ(s)[i].1 in closed
    ensures Within(succ, init, d) <= closed
    decreases d
  {
    if d > 0 {
      ClosedContains(succ, init, closed, d - 1);
    }
  }

  /** Explored vertices whose labels grow by at most one along every edge are at most their level:
      the argument shared by the state-space searches and the breadth-first graph kernel. */
  lemma {:induction false} LevelBound<S(!new), L(!new)>(
      succ: S -> seq<(L, S)>, init: S, depth: map<S, nat>, done: set<S>, limit: nat, k: nat)
    requires k <= limit
    requires init in depth && depth[init] == 0
    requires forall s :: s in depth && depth[s] < limit ==> s in done
    requires forall s, i :: s in done && s in depth && depth[s] < limit && 0 <= i < |succ(s)| ==>
               succ(s)[i].1 in depth && depth[succ(s)[i].1] <= depth[s] + 1
    ensures forall s :: s in Within(succ, init, k) ==> s in depth && depth[s] <= k
    decreases k
  {
    if k > 0 {
      LevelBound(succ, init, depth, done, limit, k - 1);
      forall s | s in Image(succ, Within(succ, init, k - 1))
        ensures s in depth && depth[s] <= k
      {
        var t, i :| t in Within(succ, init, k - 1) && 0 <= i < |succ(t)| && succ(t)[i].1 == s;
      }
    }
  }

  // ----- systems with history variables

  /** `view` forgets the history variables of `rich`, whose steps mirror those of `plain`. */
  ghost predicate Mirrors<H(!new), S(!new), L(!new)>(rich: H -> seq<(L, H)>, plain: S -> seq<(L, S)>, view: H -> S) {
    forall h :: |rich(h)| == |plain(view(h))| &&
                forall i :: 0 <= i < |rich(h)| ==> view(rich(h)[i].1) == plain(view(h))[i].1
  }

  lemma {:induction false} ViewIsWithin<H(!new), S(!new), L(!new)>(
      rich: H -> seq<(L, H)>, plain: S -> seq<(L, S)>, view: H -> S, start: H, d: nat, h: H)
    requires Mirrors(rich, plain, view) && h in Within(rich, start, d)
    ensures view(h) in Within(plain, view(start), d)
    decreases d
  {
    if d > 0 {
      if h in Within(rich, start, d - 1) {
        ViewIsWithin(rich, plain, view, start, d - 1, h);
      } else {
        var g, i := Predecessor(rich, start, d, h);
        ViewIsWithin(rich, plain, view, start, d - 1, g);
        StepWithin(plain, view(start), d - 1, view(g), i);
      }
    }
  }

  lemma {:induction false} WithinHasHistory<H(!new), S(!new), L(!new)>(
      rich: H -> seq<(L, H)>, plain: S -> seq<(L, S)>, view: H -> S, start: H, d: nat, s: S) returns (h: H)
    requires Mirrors(rich, plain, view) && s in Within(plain, view(start), d)
    ensures h in Within(rich, start, d) && view(h) == s
    decreases d
  {
    if d == 0 {
      h := start;
    } else if s in Within(plain, view(start), d - 1) {
      h := WithinHasHistory(rich, plain, view, start, d - 1, s);
    } else {
      var t, i := Predecessor(plain, view(start), d, s);
      var g := WithinHasHistory(rich, plain, view, start, d - 1, t);
      StepWithin(rich, start, d - 1, g, i);
      h := rich(g)[i].1;
    }
  }
}
