/** What a history of events says about a flag that some events raise and others lower. */
module Histories {

  /** Some event raised the flag and none has lowered it since; an event that does both raises it. */
  ghost predicate Raised<E(!new)>(trace: seq<E>, up: E -> bool, down: E -> bool) {
    exists i :: RaisedAt(trace, up, down, i)
  }

  ghost predicate RaisedAt<E(!new)>(trace: seq<E>, up: E -> bool, down: E -> bool, i: int) {
    0 <= i < |trace| && up(trace[i]) && forall j :: i < j < |trace| ==> !down(trace[j])
  }

  lemma RaisedNext<E(!new)>(trace: seq<E>, up: E -> bool, down: E -> bool, e: E)
    ensures Raised(trace + [e], up, down) <==> up(e) || (Raised(trace, up, down) && !down(e))
  {
    var n, longer := |trace|, trace + [e];
    assert longer[n] == e && forall i :: 0 <= i < n ==> longer[i] == trace[i];
    if up(e) {
      assert RaisedAt(longer, up, down, n);
    }
    if Raised(trace, up, down) && !down(e) {
      var i :| RaisedAt(trace, up, down, i);
      assert RaisedAt(longer, up, down, i);
    }
    if Raised(longer, up, down) && !up(e) {
      var i :| RaisedAt(longer, up, down, i);
      assert i < n && !down(longer[n]);
      forall j | i < j < n ensures !down(trace[j]) {
        assert !down(longer[j]);
      }
      assert RaisedAt(trace, up, down, i);
    }
  }

  /** How many events of the history satisfy `p`. */
  ghost function Count<E>(trace: seq<E>, p: E -> bool): nat {
    if trace == [] then 0
    else Count(trace[..|trace| - 1], p) + if p(trace[|trace| - 1]) then 1 else 0
  }

  lemma CountNext<E>(trace: seq<E>, p: E -> bool, e: E)
    ensures Count(trace + [e], p) == Count(trace, p) + if p(e) then 1 else 0
  {
    assert (trace + [e])[..|trace|] == trace;
  }
}
