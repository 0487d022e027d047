/** The record pool of the TLS session service: session `slot` owns the block of `perSession` records
    from `slot * perSession` on, linked in order; null is -1. */
module SessionRecords {

  import opened Sequences
  import opened MachineWords
  import opened SessionWords
  import PowerOfTwo

  function Base(slot: nat, perSession: nat): nat {
    slot * perSession
  }

  /** The chain of one session is its own block, in order. */
  ghost predicate OwnBlock(slot: nat, perSession: nat, head: int, next: seq<int>) {
    && Base(slot, perSession) + perSession <= |next|
    && perSession > 0 && head == Base(slot, perSession)
    && forall i :: Base(slot, perSession) <= i < Base(slot, perSession) + perSession ==>
         next[i] == if i + 1 < Base(slot, perSession) + perSession then i + 1 else NULL
  }

  /** Blocks of different sessions share no record. */
  lemma BlocksDisjoint(a: nat, b: nat, perSession: nat, i: nat, j: nat)
    requires a != b && i < perSession && j < perSession
    ensures Base(a, perSession) + i != Base(b, perSession) + j
  {
    if a < b {
      BlockAfter(a, b, perSession);
    } else {
      BlockAfter(b, a, perSession);
    }
  }

  lemma BlockAfter(a: nat, b: nat, perSession: nat)
    requires a < b
    ensures Base(a, perSession) + perSession <= Base(b, perSession)
  {
    assert Base(b, perSession) - Base(a, perSession) == (b - a) * perSession;
    Scaled(b - a, perSession);
  }

  lemma Scaled(k: nat, n: nat)
    requires k >= 1
    ensures k * n >= n
  {
    assert k * n == (k - 1) * n + n;
  }

  /** One authentication pass, as an arbitrary function of the record's number, words and authentication. */
  type Update = (nat, Record, Auth) -> Auth

  /** What a request does to the records: a miss renews a session, a hit or a scan walks one. */
  datatype Op =
    | Renew(slot: nat, fill: nat -> Record, blank: nat -> Auth)
    | Walk(slot: nat, limit: nat, update: Update)

  datatype Words = Words(content: seq<Record>, auth: seq<Auth>)

  predicate InBlock(slot: nat, perSession: nat, i: int) {
    Base(slot, perSession) <= i < Base(slot, perSession) + perSession
  }

  function Reached(limit: nat, perSession: nat): (r: nat)
    ensures r <= perSession && r <= limit && (r == perSession || r == limit)
  {
    if limit < perSession then limit else perSession
  }

  ghost function Apply(w: Words, op: Op, perSession: nat): (r: Words)
    requires |w.content| == |w.auth|
    ensures |r.content| == |r.auth| == |w.auth|
  {
    match op
    case Renew(slot, fill, blank) =>
      Words(seq(|w.content|, i requires 0 <= i < |w.content| =>
                  if InBlock(slot, perSession, i) then fill(i) else w.content[i]),
            seq(|w.auth|, i requires 0 <= i < |w.auth| =>
                  if InBlock(slot, perSession, i) then blank(i) else w.auth[i]))
    case Walk(slot, limit, update) =>
      Words(w.content, seq(|w.auth|, i requires 0 <= i < |w.auth| =>
                             if Base(slot, perSession) <= i < Base(slot, perSession) + Reached(limit, perSession)
                             then update(i, w.content[i], w.auth[i]) else w.auth[i]))
  }

  ghost predicate SameBlock(a: Words, b: Words, slot: nat, perSession: nat) {
    && |a.content| == |a.auth| == |b.content| == |b.auth|
    && forall i :: 0 <= i < |a.auth| && InBlock(slot, perSession, i) ==>
         a.content[i] == b.content[i] && a.auth[i] == b.auth[i]
  }

  lemma BlockApart(a: nat, b: nat, perSession: nat, i: nat)
    requires a != b && InBlock(a, perSession, i)
    ensures !InBlock(b, perSession, i)
  {
    if a < b {
      BlockAfter(a, b, perSession);
    } else {
      BlockAfter(b, a, perSession);
    }
  }

  lemma OtherSessionKept(w: Words, op: Op, slot: nat, perSession: nat)
    requires |w.content| == |w.auth| && op.slot != slot
    ensures SameBlock(Apply(w, op, perSession), w, slot, perSession)
  {
    var t := Apply(w, op, perSession);
    forall i | 0 <= i < |t.auth| && InBlock(slot, perSession, i)
      ensures t.content[i] == w.content[i] && t.auth[i] == w.auth[i]
    {
      BlockApart(slot, op.slot, perSession, i);
      assert !InBlock(op.slot, perSession, i);
      match op
      case Renew(_, _, _) =>
      case Walk(other, limit, _) =>
        assert !(Base(other, perSession) <= i < Base(other, perSession) + Reached(limit, perSession));
    }
  }

  lemma OwnBlockDecides(a: Words, b: Words, op: Op, slot: nat, perSession: nat)
    requires SameBlock(a, b, slot, perSession) && op.slot == slot
    ensures SameBlock(Apply(a, op, perSession), Apply(b, op, perSession), slot, perSession)
  {
  }

  lemma RenewedIs(w: Words, t: Words, op: Op, perSession: nat)
    requires op.Renew? && |w.content| == |w.auth| == |t.content| == |t.auth|
    requires forall i: nat :: i < |w.auth| ==>
               if InBlock(op.slot, perSession, i) then t.content[i] == op.fill(i) && t.auth[i] == op.blank(i)
               else t.content[i] == w.content[i] && t.auth[i] == w.auth[i]
    ensures t == Apply(w, op, perSession)
  {
    var r := Apply(w, op, perSession);
    assert t.content == r.content && t.auth == r.auth;
  }

  // ----- requests

  /** What the service holds: the session fields and the records' words. */
  datatype Service = Service(sessions: seq<Session>, words: Words)

  /** A request that hits a session or gives it to a new identifier, and the walk of one session in a scan. */
  datatype Request =
    | Hit(slot: nat, op: nat, limit: nat)
    | Miss(slot: nat, sid: nat, seed: nat)
    | Scanned(slot: nat, limit: nat)

  /** What fixes the words written: the mixing function, the poison flag and the block size. */
  datatype Setup = Setup(mix: nat -> nat, poison: bool, perSession: nat)

  function FillOf(c: Setup, slot: nat, seed: nat): nat -> Record {
    (i: nat) =>
      NewRecord(c.mix, i, seed, if Base(slot, c.perSession) <= i then i - Base(slot, c.perSession) else 0, c.poison)
  }

  function BlankOf(c: Setup, slot: nat, seed: nat): nat -> Auth {
    (i: nat) => NewAuth(c.mix, FillOf(c, slot, seed)(i))
  }

  /** The session that initialisation makes for position `i`. */
  function StartOf(mix: nat -> nat, seed: nat): nat -> Session {
    (i: nat) => NewSession(mix, MakeSid(mix, i, seed), seed)
  }

  function UpdateOf(c: Setup, s: Session): Update {
    (i: nat, rec: Record, auth: Auth) => NextAuth(c.mix, s, rec, auth)
  }

  /** The block of a session holds the words made for its records. */
  ghost predicate Filled(w: Words, c: Setup, slot: nat, seed: nat) {
    && |w.content| == |w.auth|
    && forall i: nat :: i < |w.auth| && InBlock(slot, c.perSession, i) ==>
         w.content[i] == FillOf(c, slot, seed)(i) && w.auth[i] == BlankOf(c, slot, seed)(i)
  }

  lemma FilledNext(w: Words, c: Setup, slot: nat, seed: nat, ready: set<nat>)
    requires |w.content| == |w.auth| && forall s: nat :: s in ready ==> Filled(w, c, s, seed)
    ensures var t := Apply(w, Renew(slot, FillOf(c, slot, seed), BlankOf(c, slot, seed)), c.perSession);
            forall s: nat :: s in ready + {slot} ==> Filled(t, c, s, seed)
  {
    var op := Renew(slot, FillOf(c, slot, seed), BlankOf(c, slot, seed));
    forall s: nat | s in ready + {slot} ensures Filled(Apply(w, op, c.perSession), c, s, seed) {
      if s != slot {
        OtherSessionKept(w, op, s, c.perSession);
      }
    }
  }

  /** The session fields after a request on that session. */
  function NextSession(c: Setup, s: Session, r: Request): Session {
    match r
    case Hit(_, op, _) => HitSession(c.mix, s, op)
    case Miss(_, sid, seed) => NewSession(c.mix, sid, seed)
    case Scanned(_, _) => s
  }

  /** What a request does to the records, given its session's new fields. */
  ghost function OpOf(c: Setup, s: Session, r: Request): Op {
    match r
    case Hit(slot, _, limit) => Walk(slot, limit, UpdateOf(c, s))
    case Miss(slot, _, seed) => Renew(slot, FillOf(c, slot, seed), BlankOf(c, slot, seed))
    case Scanned(slot, limit) => Walk(slot, limit, UpdateOf(c, s))
  }

  ghost predicate Sound(v: Service) {
    |v.words.content| == |v.words.auth|
  }

  ghost function Next(c: Setup, v: Service, r: Request): (t: Service)
    requires Sound(v) && r.slot < |v.sessions|
    ensures Sound(t) && |t.sessions| == |v.sessions|
  {
    var s := NextSession(c, v.sessions[r.slot], r);
    Service(v.sessions[r.slot := s], Apply(v.words, OpOf(c, s, r), c.perSession))
  }

  ghost predicate Addressed(requests: seq<Request>, sessions: nat) {
    forall k :: 0 <= k < |requests| ==> requests[k].slot < sessions
  }

  ghost function After(c: Setup, v: Service, requests: seq<Request>): (t: Service)
    requires Sound(v) && Addressed(requests, |v.sessions|)
    ensures Sound(t) && |t.sessions| == |v.sessions|
    decreases |requests|
  {
    if requests == [] then v
    else Next(c, After(c, v, requests[..|requests| - 1]), requests[|requests| - 1])
  }

  /** The requests on one session, in order. */
  ghost function Only(requests: seq<Request>, slot: nat): (r: seq<Request>)
    ensures forall k :: 0 <= k < |r| ==> r[k].slot == slot
    decreases |requests|
  {
    if requests == [] then []
    else
      var front := Only(requests[..|requests| - 1], slot);
      if requests[|requests| - 1].slot == slot then front + [requests[|requests| - 1]] else front
  }

  ghost predicate SameSession(a: Service, b: Service, slot: nat, perSession: nat) {
    && slot < |a.sessions| == |b.sessions| && a.sessions[slot] == b.sessions[slot]
    && SameBlock(a.words, b.words, slot, perSession)
  }

  lemma OwnRequestDecides(c: Setup, a: Service, b: Service, r: Request)
    requires Sound(a) && Sound(b) && SameSession(a, b, r.slot, c.perSession)
    ensures SameSession(Next(c, a, r), Next(c, b, r), r.slot, c.perSession)
  {
    var s := NextSession(c, a.sessions[r.slot], r);
    OwnBlockDecides(a.words, b.words, OpOf(c, s, r), r.slot, c.perSession);
  }

  lemma OtherRequestKeeps(c: Setup, v: Service, r: Request, slot: nat)
    requires Sound(v) && r.slot < |v.sessions| && slot < |v.sessions| && slot != r.slot
    ensures SameSession(Next(c, v, r), v, slot, c.perSession)
  {
    var s := NextSession(c, v.sessions[r.slot], r);
    OtherSessionKept(v.words, OpOf(c, s, r), slot, c.perSession);
  }

  lemma SameSessionTransitive(a: Service, b: Service, d: Service, slot: nat, perSession: nat)
    requires SameSession(a, b, slot, perSession) && SameSession(b, d, slot, perSession)
    ensures SameSession(a, d, slot, perSession)
  {
  }

  /** Sessions never see each other: after any run a session's fields and records are what its own requests
      alone make of them. */
  lemma {:induction false} SessionsAreIsolated(c: Setup, v: Service, requests: seq<Request>, slot: nat)
    requires Sound(v) && Addressed(requests, |v.sessions|) && slot < |v.sessions|
    ensures SameSession(After(c, v, requests), After(c, v, Only(requests, slot)), slot, c.perSession)
    decreases |requests|
  {
    if requests != [] {
      var front, r := requests[..|requests| - 1], requests[|requests| - 1];
      var own := Only(front, slot);
      SessionsAreIsolated(c, v, front, slot);
      if r.slot == slot {
        assert (own + [r])[..|own|] == own;
        OwnRequestDecides(c, After(c, v, front), After(c, v, own), r);
      } else {
        OtherRequestKeeps(c, After(c, v, front), r, slot);
        SameSessionTransitive(After(c, v, requests), After(c, v, front), After(c, v, own), slot, c.perSession);
      }
    }
  }

  /** The session service's `permute_index` has its own factor for the seed. */
  const SEED_FACTOR: nat := 2246822519

  /** The slot of each position. */
  function SlotOf(sessions: nat, seed: nat): nat -> nat
    requires sessions > 0
  {
    (i: nat) => SpreadIndex(i, sessions, seed, SEED_FACTOR)
  }

  ghost predicate OneToOne(f: nat -> nat, n: nat) {
    && (forall i: nat, j: nat :: i < j < n ==> f(i) != f(j))
    && (forall i: nat :: i < n ==> f(i) < n)
  }

  ghost predicate Reaches(f: nat -> nat, n: nat, v: nat) {
    exists i: nat :: i < n && f(i) == v
  }

  lemma SlotsPermute(bits: nat, seed: nat)
    requires bits <= 32
    ensures var n := PowerOfTwo.Pow2(bits);
            OneToOne(SlotOf(n, seed), n) && forall v: nat :: v < n ==> Reaches(SlotOf(n, seed), n, v)
  {
    var n: nat := PowerOfTwo.Pow2(bits);
    var f := SlotOf(n, seed);
    forall i: nat, j: nat | i < j < n ensures f(i) != f(j) {
      SpreadDistinct(bits, seed, SEED_FACTOR, i, j);
    }
    forall v: nat | v < n ensures Reaches(f, n, v) {
      var i := SpreadOnto(bits, seed, SEED_FACTOR, v);
      assert f(i) == v;
    }
  }

  class Pool {
    const mix: nat -> nat
    const poison: bool
    const sessions: nat
    const perSession: nat
    const session: array<Session>
    const head: array<int>
    const next: array<int>
    const auth: array<Auth>
    const content: array<Record>

    ghost predicate Shape() {
      && perSession > 0 && head.Length == session.Length == sessions
      && next.Length == auth.Length == content.Length == sessions * perSession
      && head != next
    }

    constructor (sessions: nat, perSession: nat, mix: nat -> nat, poison: bool)
      requires perSession > 0
      ensures Shape() && this.sessions == sessions && this.perSession == perSession
      ensures this.mix == mix && this.poison == poison
      ensures fresh(session) && fresh(head) && fresh(next) && fresh(auth) && fresh(content)
    {
      this.sessions, this.perSession, this.mix, this.poison := sessions, perSession, mix, poison;
      session := new Session[sessions](_ => Session(0, 0, 0, 0, 0, 0, 0));
      head := new int[sessions](_ => NULL);
      next := new int[sessions * perSession](_ => NULL);
      auth := new Auth[sessions * perSession](_ => (0, 0));
      content := new Record[sessions * perSession](_ => Record(0, 0, 0, 0));
    }

    function Config(): Setup {
      Setup(mix, poison, perSession)
    }

    ghost function Contents(): (w: Words)
      requires Shape()
      reads auth, content
      ensures |w.content| == |w.auth| == next.Length
    {
      Words(content[..], auth[..])
    }

    ghost function State(): (v: Service)
      requires Shape()
      reads session, auth, content
      ensures Sound(v) && |v.sessions| == sessions
    {
      Service(session[..], Contents())
    }

    /** Sessions of `ready` have their chains in place. */
    ghost predicate Chained(ready: set<nat>)
      reads head, next
    {
      forall s :: s in ready ==> s < head.Length && OwnBlock(s, perSession, head[s], next[..])
    }

    ghost predicate AllChained()
      reads head, next
    {
      forall s: nat :: s < head.Length ==> OwnBlock(s, perSession, head[s], next[..])
    }

    lemma BlockFits(slot: nat)
      requires Shape() && slot < sessions
      ensures Base(slot, perSession) + perSession <= next.Length
    {
      BlockAfter(slot, sessions, perSession);
    }

    /** The records of `session_set`: the block is refilled and relinked in order; every other session keeps
        its words and its chain. */
    method RenewBlock(slot: nat, fill: nat -> Record, blank: nat -> Auth, ghost ready: set<nat>)
      requires Shape() && slot < sessions && Chained(ready)
      modifies head, next, auth, content
      ensures Chained(ready + {slot}) && Contents() == Apply(old(Contents()), Renew(slot, fill, blank), perSession)
      ensures forall i :: 0 <= i < next.Length && !InBlock(slot, perSession, i) ==> next[i] == old(next[i])
      ensures forall s :: 0 <= s < sessions && s != slot ==> head[s] == old(head[s])
    {
      BlockFits(slot);
      var start := Base(slot, perSession);
      ghost var next0, w := next[..], Contents();
      head[slot] := start;
      ghost var head1 := head[..];
      for r := 0 to perSession
        invariant head[..] == head1
        invariant forall i :: 0 <= i < next.Length && !(start <= i < start + r) ==>
                    next[i] == next0[i] && auth[i] == w.auth[i] && content[i] == w.content[i]
        invariant forall i :: start <= i < start + r ==>
                    content[i] == fill(i) && auth[i] == blank(i)
                    && next[i] == if i + 1 < start + perSession then i + 1 else NULL
      {
        content[start + r] := fill(start + r);
        auth[start + r] := blank(start + r);
        next[start + r] := NULL;
        if r + 1 < perSession {
          next[start + r] := start + r + 1;
        }
      }
      forall s | s in ready + {slot} ensures s < head.Length && OwnBlock(s, perSession, head[s], next[..]) {
        if s != slot {
          BlockFits(s);
          forall i: nat | InBlock(s, perSession, i) ensures next[i] == next0[i] {
            BlockApart(s, slot, perSession, i);
          }
        }
      }
      RenewedIs(w, Contents(), Renew(slot, fill, blank), perSession);
    }

    /** `session_set`, for any fields `s` of the session. */
    method SessionSet(slot: nat, s: Session, seed: nat, ghost ready: set<nat>)
      requires Shape() && slot < sessions && Chained(ready)
      modifies session, head, next, auth, content
      ensures Chained(ready + {slot}) && session[..] == old(session[..])[slot := s]
      ensures var c := Config();
              Contents()
              == Apply(old(Contents()), Renew(slot, FillOf(c, slot, seed), BlankOf(c, slot, seed)), perSession)
    {
      session[slot] := s;
      RenewBlock(slot, FillOf(Config(), slot, seed), BlankOf(Config(), slot, seed), ready);
    }

    /** The loop of `service_init`, for any permutation of the slots. */
    method InitSlots(slotOf: nat -> nat, start: nat -> Session, seed: nat)
      requires Shape() && OneToOne(slotOf, sessions) && forall v: nat :: v < sessions ==> Reaches(slotOf, sessions, v)
      modifies session, head, next, auth, content
      ensures AllChained() && forall i: nat :: i < sessions ==> session[slotOf(i)] == start(i)
      ensures forall slot: nat :: slot < sessions ==> Filled(Contents(), Config(), slot, seed)
    {
      ghost var ready: set<nat> := {};
      for i := 0 to sessions
        invariant Chained(ready)
        invariant forall j: nat :: j < i ==> slotOf(j) in ready && session[slotOf(j)] == start(j)
        invariant forall slot: nat :: slot in ready ==> Filled(Contents(), Config(), slot, seed)
      {
        ghost var w := Contents();
        SessionSet(slotOf(i), start(i), seed, ready);
        FilledNext(w, Config(), slotOf(i), seed, ready);
        ready := ready + {slotOf(i)};
      }
      forall s: nat | s < sessions ensures OwnBlock(s, perSession, head[s], next[..]) && s in ready {
        assert Reaches(slotOf, sessions, s);
      }
    }

    /** The session part of `service_init`, for a power-of-two number of sessions: every session gets the
        fields made for its position in the index permutation, and its own block. */
    method InitSessions(bits: nat, seed: nat)
      requires Shape() && sessions == PowerOfTwo.Pow2(bits) && bits <= 32
      modifies session, head, next, auth, content
      ensures AllChained() && OneToOne(SlotOf(sessions, seed), sessions)
      ensures forall i: nat :: i < sessions ==> session[SlotOf(sessions, seed)(i)] == StartOf(mix, seed)(i)
      ensures forall slot: nat :: slot < sessions ==> Filled(Contents(), Config(), slot, seed)
    {
      SlotsPermute(bits, seed);
      InitSlots(SlotOf(sessions, seed), StartOf(mix, seed), seed);
    }

    /** `process_records`, for any update of a record's authentication words: the first `limit` records of
        the session are updated once each, and no other record changes. */
    method ProcessRecords(slot: nat, limit: nat, update: Update) returns (count: nat)
      requires Shape() && slot < sessions && AllChained()
      modifies auth
      ensures count == Reached(limit, perSession)
      ensures Contents() == Apply(old(Contents()), Walk(slot, limit, update), perSession)
    {
      BlockFits(slot);
      var start := Base(slot, perSession);
      var cur := head[slot];
      count := 0;
      assert OwnBlock(slot, perSession, head[slot], next[..]);
      while cur != NULL && count < limit
        invariant 0 <= count <= perSession && (count <= limit)
        invariant cur == if count < perSession then start + count else NULL
        invariant forall i :: start <= i < start + perSession ==>
                    next[i] == if i + 1 < start + perSession then i + 1 else NULL
        invariant forall i :: 0 <= i < auth.Length ==>
                    auth[i] == if start <= i < start + count then update(i, content[i], old(auth[i])) else old(auth[i])
        decreases perSession - count
      {
        auth[cur] := update(cur, content[cur], auth[cur]);
        cur := next[cur];
        count := count + 1;
      }
    }

    /** The session and record part of `service_request`, or one step of its scan. */
    method ServeOne(r: Request)
      requires Shape() && AllChained() && r.slot < sessions
      modifies session, head, next, auth, content
      ensures AllChained() && State() == Next(Config(), old(State()), r)
    {
      match r
      case Hit(slot, op, limit) =>
        var s := NextSession(Config(), session[slot], r);
        session[slot] := s;
        var _ := ProcessRecords(slot, limit, UpdateOf(Config(), s));
      case Miss(slot, sid, seed) =>
        SessionSet(slot, NextSession(Config(), session[slot], r), seed, Below(sessions));
        assert forall s: nat :: s < sessions ==> s in Below(sessions) + {slot};
      case Scanned(slot, limit) =>
        var _ := ProcessRecords(slot, limit, UpdateOf(Config(), session[slot]));
        assert session[..][slot := session[slot]] == session[..];
    }

    /** Any run of requests keeps every session's chain and leaves the fields and words that the run
        prescribes; by `SessionsAreIsolated` each session's own requests decide its part. */
    method Serve(requests: seq<Request>)
      requires Shape() && AllChained() && Addressed(requests, sessions)
      modifies session, head, next, auth, content
      ensures AllChained() && State() == After(Config(), old(State()), requests)
    {
      ghost var v := State();
      for k := 0 to |requests|
        invariant AllChained() && State() == After(Config(), v, requests[..k])
      {
        assert requests[..k + 1][..k] == requests[..k];
        ServeOne(requests[k]);
      }
      assert requests[..|requests|] == requests;
    }
  }
}
