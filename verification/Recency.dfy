/** What a least-recently-used cache should contain, in two independent ways: as the move-to-front
    step of one request, and as the most recent distinct keys of a whole history. */
module Recency {

  import opened Sequences

  function Without(keys: seq<nat>, key: nat): seq<nat> {
    if keys == [] then []
    else if keys[0] == key then Without(keys[1..], key)
    else [keys[0]] + Without(keys[1..], key)
  }

  /** One request: a hit moves the key to the front, a miss drops the last key and prepends. */
  function Request(keys: seq<nat>, key: nat): seq<nat>
    requires keys != []
  {
    if key in keys then [key] + Without(keys, key) else [key] + keys[..|keys| - 1]
  }

  function Requests(keys: seq<nat>, trace: seq<nat>): (r: seq<nat>)
    requires keys != []
    ensures r != []
    decreases |trace|
  {
    if trace == [] then keys else Request(Requests(keys, trace[..|trace| - 1]), trace[|trace| - 1])
  }

  /** All keys of the history, most recently requested first, each once. */
  function MostRecent(history: seq<nat>): seq<nat>
    decreases |history|
  {
    if history == [] then []
    else
      var key := history[|history| - 1];
      [key] + Without(MostRecent(history[..|history| - 1]), key)
  }

  lemma {:induction false} WithoutHas(keys: seq<nat>, key: nat)
    ensures forall k :: k in Without(keys, key) <==> k in keys && k != key
    ensures Distinct(keys) ==> Distinct(Without(keys, key))
    decreases |keys|
  {
    if keys != [] {
      WithoutHas(keys[1..], key);
      var rest := Without(keys[1..], key);
      assert forall k :: k in keys <==> k == keys[0] || k in keys[1..];
      if Distinct(keys) {
        assert keys[0] !in keys[1..];
      }
    }
  }

  lemma {:induction false} WithoutAbsent(keys: seq<nat>, key: nat)
    requires key !in keys
    ensures Without(keys, key) == keys
    decreases |keys|
  {
    if keys != [] {
      WithoutAbsent(keys[1..], key);
    }
  }

  /** In a duplicate-free list the key is removed from its one position. */
  lemma {:induction false} WithoutAt(keys: seq<nat>, i: nat)
    requires Distinct(keys) && i < |keys|
    ensures Without(keys, keys[i]) == keys[..i] + keys[i + 1..]
    decreases |keys|
  {
    if i == 0 {
      assert keys[0] !in keys[1..];
      WithoutAbsent(keys[1..], keys[0]);
    } else {
      WithoutAt(keys[1..], i - 1);
      assert keys[1..][..i - 1] == keys[1..i];
      assert keys[1..][i - 1 + 1..] == keys[i + 1..];
      assert [keys[0]] + keys[1..i] == keys[..i];
    }
  }

  lemma PrependDistinct(key: nat, s: seq<nat>)
    requires Distinct(s) && key !in s
    ensures Distinct([key] + s)
  {
    var t := [key] + s;
    forall i, j | 0 <= i < j < |t| ensures t[i] != t[j] {
      assert t[j] == s[j - 1];
    }
  }

  lemma {:induction false} MostRecentDistinct(history: seq<nat>)
    ensures Distinct(MostRecent(history))
    ensures forall k :: k in MostRecent(history) <==> k in history
    decreases |history|
  {
    if history != [] {
      var before, key := history[..|history| - 1], history[|history| - 1];
      MostRecentDistinct(before);
      WithoutHas(MostRecent(before), key);
      PrependDistinct(key, Without(MostRecent(before), key));
      assert history == before + [key];
    }
  }

  lemma TakeInside(s: seq<nat>, key: nat, i: nat, n: nat)
    requires i < n <= |s|
    ensures ([key] + (s[..i] + s[i + 1..]))[..n] == [key] + (s[..n][..i] + s[..n][i + 1..])
  {
  }

  lemma TakeOutside(s: seq<nat>, key: nat, i: nat, n: nat)
    requires 0 < n <= i < |s|
    ensures ([key] + (s[..i] + s[i + 1..]))[..n] == [key] + s[..n][..n - 1]
  {
  }

  /** The move-to-front step on the most recent `n` keys of a history is the history's next step. */
  lemma RequestTracksHistory(history: seq<nat>, n: nat, key: nat)
    requires 0 < n <= |MostRecent(history)|
    ensures n <= |MostRecent(history + [key])|
    ensures Request(MostRecent(history)[..n], key) == MostRecent(history + [key])[..n]
  {
    var recent := MostRecent(history);
    var kept := recent[..n];
    MostRecentDistinct(history);
    assert (history + [key])[..|history|] == history;
    assert MostRecent(history + [key]) == [key] + Without(recent, key);
    if key in recent {
      var i :| 0 <= i < |recent| && recent[i] == key;
      WithoutAt(recent, i);
      if i < n {
        assert kept[i] == key;
        WithoutAt(kept, i);
        TakeInside(recent, key, i, n);
      } else {
        assert key !in kept;
        TakeOutside(recent, key, i, n);
      }
    } else {
      WithoutAbsent(recent, key);
      assert ([key] + recent)[..n] == [key] + kept[..n - 1];
    }
  }

  /** Serving a trace from the cache contents equals asking which keys were requested most recently. */
  lemma {:induction false} RequestsAreMostRecent(history: seq<nat>, n: nat, trace: seq<nat>)
    requires 0 < n <= |MostRecent(history)|
    ensures n <= |MostRecent(history + trace)|
    ensures Requests(MostRecent(history)[..n], trace) == MostRecent(history + trace)[..n]
    decreases |trace|
  {
    if trace == [] {
      assert history + trace == history;
    } else {
      var before := trace[..|trace| - 1];
      RequestsAreMostRecent(history, n, before);
      RequestTracksHistory(history + before, n, trace[|trace| - 1]);
      assert history + before + [trace[|trace| - 1]] == history + trace;
    }
  }

  /** A larger cache always contains a smaller one fed with the same requests. */
  lemma Inclusion(history: seq<nat>, trace: seq<nat>, small: nat, large: nat)
    requires 0 < small <= large <= |MostRecent(history)|
    ensures Requests(MostRecent(history)[..small], trace) <= Requests(MostRecent(history)[..large], trace)
  {
    RequestsAreMostRecent(history, small, trace);
    RequestsAreMostRecent(history, large, trace);
  }

  function Reversed(s: seq<nat>): seq<nat>
    decreases |s|
  {
    if s == [] then [] else [s[|s| - 1]] + Reversed(s[..|s| - 1])
  }

  lemma {:induction false} ReversedLength(s: seq<nat>)
    ensures |Reversed(s)| == |s|
    decreases |s|
  {
    if s != [] {
      ReversedLength(s[..|s| - 1]);
    }
  }

  lemma {:induction false} ReversedAt(s: seq<nat>, i: nat)
    requires i < |s|
    ensures |Reversed(s)| == |s| && Reversed(s)[i] == s[|s| - 1 - i]
    decreases |s|
  {
    ReversedLength(s);
    if i > 0 {
      ReversedAt(s[..|s| - 1], i - 1);
    }
  }

  lemma ReversedBy(r: seq<nat>, s: seq<nat>)
    requires |r| == |s| && forall i :: 0 <= i < |s| ==> r[i] == s[|s| - 1 - i]
    ensures r == Reversed(s)
  {
    ReversedLength(s);
    forall i | 0 <= i < |s| ensures r[i] == Reversed(s)[i] {
      ReversedAt(s, i);
    }
  }

  /** Distinct keys inserted once each are most recent in reverse order. */
  lemma {:induction false} DistinctHistory(keys: seq<nat>)
    requires Distinct(keys)
    ensures MostRecent(keys) == Reversed(keys)
    decreases |keys|
  {
    if keys != [] {
      var before, key := keys[..|keys| - 1], keys[|keys| - 1];
      DistinctHistory(before);
      MostRecentDistinct(before);
      assert key !in before;
      WithoutAbsent(MostRecent(before), key);
    }
  }
}
