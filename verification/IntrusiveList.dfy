/** Doubly linked lists threaded through a table: slot `e` of `next` and `prev` holds the neighbours of
    entry `e`, and -1 stands for null.  Several disjoint lists may share the two columns. */
module IntrusiveList {

  import opened Sequences

  /** The element at `i`, or null beyond either end. */
  function At(s: seq<int>, i: int): int {
    if 0 <= i < |s| then s[i] else NULL
  }

  ghost function Members(s: seq<int>): set<int> {
    set e | e in s
  }

  ghost predicate Within(s: seq<int>, n: int) {
    forall i :: 0 <= i < |s| ==> 0 <= s[i] < n
  }

  /** The links of the entries of `s` spell `s`, forwards and backwards. */
  ghost predicate Links(s: seq<int>, next: seq<int>, prev: seq<int>) {
    && |next| == |prev| && Within(s, |next|) && Distinct(s)
    && (forall i {:trigger next[s[i]]} :: 0 <= i < |s| ==> next[s[i]] == At(s, i + 1))
    && (forall i {:trigger prev[s[i]]} :: 0 <= i < |s| ==> prev[s[i]] == At(s, i - 1))
  }

  ghost predicate Disjoint(s: seq<int>, t: seq<int>) {
    forall x :: x in s ==> x !in t
  }

  ghost function Dropped(s: seq<int>, k: int): seq<int>
    requires 0 <= k < |s|
  {
    s[..k] + s[k + 1..]
  }

  /** The columns after unlinking `e`. */
  ghost function UnlinkedNext(next: seq<int>, prev: seq<int>, e: int): seq<int>
    requires |next| == |prev| && 0 <= e < |next| && NULL <= prev[e] < |next|
  {
    (if prev[e] != NULL then next[prev[e] := next[e]] else next)[e := NULL]
  }

  ghost function UnlinkedPrev(next: seq<int>, prev: seq<int>, e: int): seq<int>
    requires |next| == |prev| && 0 <= e < |next| && NULL <= next[e] < |next|
  {
    (if next[e] != NULL then prev[next[e] := prev[e]] else prev)[e := NULL]
  }

  lemma DroppedHas(s: seq<int>, k: int)
    requires 0 <= k < |s| && Distinct(s)
    ensures Distinct(Dropped(s, k)) && forall x :: x in Dropped(s, k) <==> x in s && x != s[k]
  {
    var t := Dropped(s, k);
    forall x | x in s && x != s[k] ensures x in t {
      var i :| 0 <= i < |s| && s[i] == x;
      assert x == t[if i < k then i else i - 1];
    }
  }

  lemma Neighbours(s: seq<int>, next: seq<int>, prev: seq<int>, k: int)
    requires Links(s, next, prev) && 0 <= k < |s|
    ensures prev[s[k]] == At(s, k - 1) && next[s[k]] == At(s, k + 1)
    ensures NULL <= prev[s[k]] < |next| && NULL <= next[s[k]] < |next|
  {
  }

  lemma UnlinkNextAt(s: seq<int>, next: seq<int>, prev: seq<int>, k: int, i: int)
    requires Links(s, next, prev) && 0 <= k < |s| && NULL <= prev[s[k]] < |next| && 0 <= i < |s| - 1
    ensures UnlinkedNext(next, prev, s[k])[Dropped(s, k)[i]] == At(Dropped(s, k), i + 1)
  {
    var t := Dropped(s, k);
    assert prev[s[k]] == At(s, k - 1);
    if i < k - 1 {
      assert t[i] == s[i] && t[i + 1] == s[i + 1] && s[i] != s[k - 1] && s[i] != s[k];
    } else if i == k - 1 {
      assert t[i] == s[i] && s[i] != s[k];
      assert next[s[k]] == At(s, k + 1) == At(t, i + 1);
    } else {
      assert t[i] == s[i + 1] && s[i + 1] != s[k] && (k > 0 ==> s[i + 1] != s[k - 1]);
      assert At(s, i + 2) == At(t, i + 1);
    }
  }

  lemma UnlinkPrevAt(s: seq<int>, next: seq<int>, prev: seq<int>, k: int, i: int)
    requires Links(s, next, prev) && 0 <= k < |s| && NULL <= next[s[k]] < |next| && 0 <= i < |s| - 1
    ensures UnlinkedPrev(next, prev, s[k])[Dropped(s, k)[i]] == At(Dropped(s, k), i - 1)
  {
    var t := Dropped(s, k);
    assert next[s[k]] == At(s, k + 1);
    if i < k {
      assert t[i] == s[i] && s[i] != s[k] && (k + 1 < |s| ==> s[i] != s[k + 1]);
      assert At(s, i - 1) == At(t, i - 1);
    } else if i == k {
      assert t[i] == s[k + 1] && s[k + 1] != s[k];
      assert prev[s[k]] == At(s, k - 1) == At(t, i - 1);
    } else {
      assert t[i] == s[i + 1] && s[i + 1] != s[k] && s[i + 1] != s[k + 1];
      assert At(s, i) == At(t, i - 1);
    }
  }

  /** Unlinking the entry at position `k` leaves the list without it. */
  lemma Unlink(s: seq<int>, next: seq<int>, prev: seq<int>, k: int)
    requires Links(s, next, prev) && 0 <= k < |s|
    ensures NULL <= prev[s[k]] < |next| && NULL <= next[s[k]] < |next|
    ensures Links(Dropped(s, k), UnlinkedNext(next, prev, s[k]), UnlinkedPrev(next, prev, s[k]))
  {
    Neighbours(s, next, prev, k);
    DroppedHas(s, k);
    var t := Dropped(s, k);
    forall i | 0 <= i < |t|
      ensures UnlinkedNext(next, prev, s[k])[t[i]] == At(t, i + 1)
      ensures UnlinkedPrev(next, prev, s[k])[t[i]] == At(t, i - 1)
    {
      UnlinkNextAt(s, next, prev, k, i);
      UnlinkPrevAt(s, next, prev, k, i);
    }
  }

  /** ... and every list it shares no entry with as it was. */
  lemma UnlinkElsewhere(s: seq<int>, t: seq<int>, next: seq<int>, prev: seq<int>, k: int)
    requires Links(s, next, prev) && Links(t, next, prev) && Disjoint(t, s) && 0 <= k < |s|
    requires NULL <= prev[s[k]] < |next| && NULL <= next[s[k]] < |next|
    ensures Links(t, UnlinkedNext(next, prev, s[k]), UnlinkedPrev(next, prev, s[k]))
  {
    Neighbours(s, next, prev, k);
    forall i | 0 <= i < |t| ensures t[i] != s[k] && t[i] != prev[s[k]] && t[i] != next[s[k]] {
      assert t[i] in t;
    }
  }

  /** The columns after pushing `e` in front of `head`. */
  ghost function PushedNext(next: seq<int>, e: int, head: int): seq<int>
    requires 0 <= e < |next|
  {
    next[e := head]
  }

  ghost function PushedPrev(prev: seq<int>, e: int, head: int): seq<int>
    requires 0 <= e < |prev| && NULL <= head < |prev|
  {
    if head != NULL then prev[e := NULL][head := e] else prev[e := NULL]
  }

  lemma PushedHas(s: seq<int>, e: int)
    requires Distinct(s) && e !in s
    ensures Distinct([e] + s) && forall x :: x in [e] + s <==> x == e || x in s
  {
    var t := [e] + s;
    forall i, j | 0 <= i < j < |t| ensures t[i] != t[j] {
      assert t[j] == s[j - 1];
    }
  }

  lemma PushNextAt(s: seq<int>, next: seq<int>, prev: seq<int>, e: int, i: int)
    requires Links(s, next, prev) && 0 <= e < |next| && e !in s && 0 <= i <= |s|
    ensures PushedNext(next, e, At(s, 0))[([e] + s)[i]] == At([e] + s, i + 1)
  {
    if i > 0 {
      assert ([e] + s)[i] == s[i - 1] && s[i - 1] in s;
      assert At([e] + s, i + 1) == At(s, i);
    }
  }

  lemma PushPrevAt(s: seq<int>, next: seq<int>, prev: seq<int>, e: int, i: int)
    requires Links(s, next, prev) && 0 <= e < |next| && e !in s && 0 <= i <= |s| && NULL <= At(s, 0) < |prev|
    ensures PushedPrev(prev, e, At(s, 0))[([e] + s)[i]] == At([e] + s, i - 1)
  {
    if i > 0 {
      assert ([e] + s)[i] == s[i - 1] && s[i - 1] in s;
      assert i > 1 ==> s[i - 1] != s[0];
      assert i > 1 ==> At([e] + s, i - 1) == At(s, i - 2);
    } else {
      assert s != [] ==> s[0] in s;
    }
  }

  /** Pushing an entry that is not in the list puts it in front. */
  lemma Push(s: seq<int>, next: seq<int>, prev: seq<int>, e: int)
    requires Links(s, next, prev) && 0 <= e < |next| && e !in s
    ensures NULL <= At(s, 0) < |next|
    ensures Links([e] + s, PushedNext(next, e, At(s, 0)), PushedPrev(prev, e, At(s, 0)))
  {
    var t := [e] + s;
    PushedHas(s, e);
    forall i | 0 <= i < |t|
      ensures PushedNext(next, e, At(s, 0))[t[i]] == At(t, i + 1)
      ensures PushedPrev(prev, e, At(s, 0))[t[i]] == At(t, i - 1)
    {
      PushNextAt(s, next, prev, e, i);
      PushPrevAt(s, next, prev, e, i);
    }
  }

  lemma PushElsewhere(s: seq<int>, t: seq<int>, next: seq<int>, prev: seq<int>, e: int)
    requires Links(s, next, prev) && Links(t, next, prev) && Disjoint(t, s) && 0 <= e < |next| && e !in t
    ensures NULL <= At(s, 0) < |next|
    ensures Links(t, PushedNext(next, e, At(s, 0)), PushedPrev(prev, e, At(s, 0)))
  {
    forall i | 0 <= i < |t| ensures t[i] != e && t[i] != At(s, 0) {
      assert t[i] in t;
    }
  }
}
