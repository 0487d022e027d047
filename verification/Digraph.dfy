/** Reachability by one or more edges in a finite directed graph, and how one more edge changes it. */
module Digraph {

  type Arcs = set<(nat, nat)>

  /** `p` lists the vertices of a walk of at least one edge from `u` to `v`. */
  ghost predicate Walk(arcs: Arcs, u: nat, p: seq<nat>, v: nat)
    decreases |p|
  {
    if p == [] then (u, v) in arcs
    else (u, p[0]) in arcs && Walk(arcs, p[0], p[1..], v)
  }

  ghost predicate Reaches(arcs: Arcs, u: nat, v: nat) {
    exists p :: Walk(arcs, u, p, v)
  }

  ghost predicate Cyclic(arcs: Arcs) {
    exists u :: Reaches(arcs, u, u)
  }

  lemma ArcReaches(arcs: Arcs, u: nat, v: nat)
    requires (u, v) in arcs
    ensures Reaches(arcs, u, v)
  {
    assert Walk(arcs, u, [], v);
  }

  lemma {:induction false} WalkJoin(arcs: Arcs, u: nat, p: seq<nat>, v: nat, q: seq<nat>, w: nat)
    requires Walk(arcs, u, p, v) && Walk(arcs, v, q, w)
    ensures Walk(arcs, u, p + [v] + q, w)
    decreases |p|
  {
    var r := p + [v] + q;
    if p == [] {
      assert r[1..] == q;
    } else {
      WalkJoin(arcs, p[0], p[1..], v, q, w);
      assert r[1..] == p[1..] + [v] + q;
    }
  }

  lemma ReachesTransitive(arcs: Arcs, u: nat, v: nat, w: nat)
    requires Reaches(arcs, u, v) && Reaches(arcs, v, w)
    ensures Reaches(arcs, u, w)
  {
    var p :| Walk(arcs, u, p, v);
    var q :| Walk(arcs, v, q, w);
    WalkJoin(arcs, u, p, v, q, w);
  }

  /** Arcs that are already implied add nothing. */
  lemma {:induction false} WalkImplied(arcs: Arcs, more: Arcs, u: nat, p: seq<nat>, v: nat)
    requires Walk(more, u, p, v) && forall a, b :: (a, b) in more ==> Reaches(arcs, a, b)
    ensures Reaches(arcs, u, v)
    decreases |p|
  {
    if p != [] {
      WalkImplied(arcs, more, p[0], p[1..], v);
      ReachesTransitive(arcs, u, p[0], v);
    }
  }

  lemma ReachesImplied(arcs: Arcs, more: Arcs)
    requires forall a, b :: (a, b) in more ==> Reaches(arcs, a, b)
    ensures forall u, v :: Reaches(more, u, v) ==> Reaches(arcs, u, v)
  {
    forall u, v | Reaches(more, u, v) ensures Reaches(arcs, u, v) {
      var p :| Walk(more, u, p, v);
      WalkImplied(arcs, more, u, p, v);
    }
  }

  lemma ReachesMonotone(arcs: Arcs, more: Arcs)
    requires arcs <= more
    ensures forall u, v :: Reaches(arcs, u, v) ==> Reaches(more, u, v)
  {
    forall a, b | (a, b) in arcs ensures Reaches(more, a, b) {
      ArcReaches(more, a, b);
    }
    ReachesImplied(more, arcs);
  }

  /** What the arc from `s` to `d` adds to the nodes reachable from `u`. */
  ghost predicate Extended(arcs: Arcs, s: nat, d: nat, u: nat, v: nat) {
    || Reaches(arcs, u, v)
    || ((u == s || Reaches(arcs, u, s)) && (v == d || Reaches(arcs, d, v)))
  }

  lemma {:induction false} WalkExtended(arcs: Arcs, s: nat, d: nat, u: nat, p: seq<nat>, v: nat)
    requires Walk(arcs + {(s, d)}, u, p, v)
    ensures Extended(arcs, s, d, u, v)
    decreases |p|
  {
    var w := if p == [] then v else p[0];
    if (u, w) in arcs {
      ArcReaches(arcs, u, w);
    }
    if p != [] {
      WalkExtended(arcs, s, d, w, p[1..], v);
      if (u, w) in arcs {
        if Reaches(arcs, w, v) {
          ReachesTransitive(arcs, u, w, v);
        } else if w != s {
          ReachesTransitive(arcs, u, w, s);
        }
      }
    }
  }

  /** The incremental closure step: one more arc, exactly. */
  lemma ReachesAfterArc(arcs: Arcs, s: nat, d: nat, u: nat, v: nat)
    ensures Reaches(arcs + {(s, d)}, u, v) <==> Extended(arcs, s, d, u, v)
  {
    var more := arcs + {(s, d)};
    if Reaches(more, u, v) {
      var p :| Walk(more, u, p, v);
      WalkExtended(arcs, s, d, u, p, v);
    }
    if Extended(arcs, s, d, u, v) {
      ReachesMonotone(arcs, more);
      ArcReaches(more, s, d);
      if !Reaches(arcs, u, v) {
        if u != s {
          ReachesTransitive(more, u, s, d);
        }
        if v != d {
          ReachesTransitive(more, u, d, v);
        }
      }
    }
  }

  /** A walk stays inside a set that every arc stays inside. */
  lemma {:induction false} WalkStays(arcs: Arcs, closed: set<nat>, u: nat, p: seq<nat>, v: nat)
    requires Walk(arcs, u, p, v) && u in closed
    requires forall a, b :: (a, b) in arcs && a in closed ==> b in closed
    ensures v in closed
    decreases |p|
  {
    if p != [] {
      WalkStays(arcs, closed, p[0], p[1..], v);
    }
  }

  /** A graph whose arcs all increase the node number has no cycle. */
  lemma {:induction false} WalkIncreases(arcs: Arcs, u: nat, p: seq<nat>, v: nat)
    requires Walk(arcs, u, p, v) && forall a, b :: (a, b) in arcs ==> a < b
    ensures u < v
    decreases |p|
  {
    if p != [] {
      WalkIncreases(arcs, p[0], p[1..], v);
    }
  }

  lemma ForwardIsAcyclic(arcs: Arcs)
    requires forall a, b :: (a, b) in arcs ==> a < b
    ensures !Cyclic(arcs) && forall u, v :: Reaches(arcs, u, v) ==> u < v
  {
    forall u, v | Reaches(arcs, u, v) ensures u < v {
      var p :| Walk(arcs, u, p, v);
      WalkIncreases(arcs, u, p, v);
    }
  }
}
