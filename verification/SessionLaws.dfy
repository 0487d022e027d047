/** What a run makes of one session, read off its requests: every field is determined by the last
    request that gave the session a new identifier and by the operations that hit it since. */
module SessionLaws {
  import opened MachineWords
  import opened ExclusiveOr
  import opened SessionWords
  import opened SessionRecords
  import opened Histories
  import PowerOfTwo

  /** The operation numbers of the hits on a session, in order. */
  ghost function HitOps(requests: seq<Request>, slot: nat): seq<nat> {
    if requests == [] then []
    else
      var front, r := HitOps(requests[..|requests| - 1], slot), requests[|requests| - 1];
      if r.slot == slot && r.Hit? then front + [r.op] else front
  }

  ghost predicate NoMiss(requests: seq<Request>, slot: nat) {
    forall j :: 0 <= j < |requests| && requests[j].slot == slot ==> !requests[j].Miss?
  }

  /** The last request that renewed the session. */
  ghost predicate LastMiss(requests: seq<Request>, slot: nat, k: nat) {
    && k < |requests| && requests[k].slot == slot && requests[k].Miss?
    && NoMiss(requests[k + 1..], slot)
  }

  // ----- the fields after a series of hits, from the fields before it

  ghost function HitCount(h0: nat, ops: seq<nat>): nat {
    (h0 + |ops|) % POW32
  }

  ghost function EpochChain(mix: nat -> nat, e0: nat, h0: nat, ops: seq<nat>): nat {
    if ops == [] then e0
    else
      var front, op := ops[..|ops| - 1], ops[|ops| - 1];
      Mix64(mix, EpochChain(mix, e0, h0, front) + op + (h0 + |ops|) % POW32)
  }

  ghost function AadChain(mix: nat -> nat, s: Session, ops: seq<nat>): nat {
    if ops == [] then s.aad
    else
      Xor(AadChain(mix, s, ops[..|ops| - 1]), Mix64(mix, Xor(s.sid, EpochChain(mix, s.epoch, s.hits, ops))))
  }

  ghost function TagChain(mix: nat -> nat, s: Session, ops: seq<nat>): nat {
    if ops == [] then s.tag
    else
      Xor(TagChain(mix, s, ops[..|ops| - 1]), Low(High(AadChain(mix, s, ops), 17), 32))
  }

  ghost predicate IsChain(mix: nat -> nat, s: Session, t: Session, ops: seq<nat>) {
    && t.sid == s.sid && t.key0 == s.key0 && t.key1 == s.key1
    && t.hits == HitCount(s.hits, ops) && t.epoch == EpochChain(mix, s.epoch, s.hits, ops)
    && t.aad == AadChain(mix, s, ops) && t.tag == TagChain(mix, s, ops)
  }

  /** A hit counts, renews the epoch and folds it into the other two words; the rest stays. */
  ghost predicate IsHit(mix: nat -> nat, t: Session, op: nat, u: Session) {
    && u.sid == t.sid && u.key0 == t.key0 && u.key1 == t.key1
    && u.hits == (t.hits + 1) % POW32
    && u.epoch == Mix64(mix, t.epoch + op + u.hits)
    && u.aad == Xor(t.aad, Mix64(mix, Xor(t.sid, u.epoch)))
    && u.tag == Xor(t.tag, Low(High(u.aad, 17), 32))
  }

  lemma HitIsHit(mix: nat -> nat, t: Session, op: nat)
    ensures IsHit(mix, t, op, HitSession(mix, t, op))
  {
  }

  lemma HitExtends(mix: nat -> nat, s: Session, t: Session, ops: seq<nat>, op: nat, u: Session)
    requires IsChain(mix, s, t, ops) && IsHit(mix, t, op, u)
    ensures IsChain(mix, s, u, ops + [op])
  {
    CountExtends(s.hits, ops, op, t.hits, u.hits);
    EpochExtends(mix, s.epoch, s.hits, ops, op, t.epoch, u.hits, u.epoch);
    assert (ops + [op])[..|ops|] == ops;
  }

  lemma CountExtends(h0: nat, ops: seq<nat>, op: nat, hits: nat, next: nat)
    requires hits == HitCount(h0, ops) && next == (hits + 1) % POW32
    ensures next == HitCount(h0, ops + [op])
  {
    PowerOfTwo.NextResidue(h0 + |ops|, POW32);
  }

  lemma EpochExtends(mix: nat -> nat, e0: nat, h0: nat, ops: seq<nat>, op: nat, e: nat, hits: nat, next: nat)
    requires e == EpochChain(mix, e0, h0, ops) && hits == HitCount(h0, ops + [op])
    requires next == Mix64(mix, e + op + hits)
    ensures next == EpochChain(mix, e0, h0, ops + [op])
  {
    assert (ops + [op])[..|ops|] == ops;
  }

  /** A series of requests that never renews the session chains its hits. */
  lemma {:induction false} HitsChain(c: Setup, v: Service, requests: seq<Request>, slot: nat)
    requires Sound(v) && Addressed(requests, |v.sessions|) && slot < |v.sessions|
    requires NoMiss(requests, slot) && v.sessions[slot].hits < POW32
    ensures IsChain(c.mix, v.sessions[slot], After(c, v, requests).sessions[slot], HitOps(requests, slot))
    decreases |requests|
  {
    if requests == [] {
      PowerOfTwo.SmallResidue(v.sessions[slot].hits, POW32);
    } else {
      var front, r := requests[..|requests| - 1], requests[|requests| - 1];
      HitsChain(c, v, front, slot);
      if r.slot == slot && r.Hit? {
        var s := After(c, v, front).sessions[slot];
        HitIsHit(c.mix, s, r.op);
        HitExtends(c.mix, v.sessions[slot], s, HitOps(front, slot), r.op, HitSession(c.mix, s, r.op));
      }
    }
  }

  lemma {:induction false} AfterAfter(c: Setup, v: Service, a: seq<Request>, b: seq<Request>)
    requires Sound(v) && Addressed(a, |v.sessions|) && Addressed(b, |v.sessions|)
    ensures Addressed(a + b, |v.sessions|) && After(c, v, a + b) == After(c, After(c, v, a), b)
    decreases |b|
  {
    if b == [] {
      assert a + b == a;
    } else {
      var front := b[..|b| - 1];
      AfterAfter(c, v, a, front);
      assert (a + b)[..|a + b| - 1] == a + front;
    }
  }

  /** The session made at the last renewal: its identifier, and everything else mixed from it and the seed. */
  ghost predicate IsFresh(mix: nat -> nat, s: Session, sid: nat, seed: nat) {
    && s.sid == sid && s.hits == 0
    && s.epoch == mix(Xor(Xor(sid, seed), 0x4550_4f43_484b_4559) % POW64) % POW64
    && s.key0 == mix(Xor(sid, 0x243f_6a88_85a3_08d3) % POW64) % POW64
    && s.key1 == mix(Xor(sid, 0x1319_8a2e_0370_7344) % POW64) % POW64
    && s.aad == mix(Xor(sid, s.epoch) % POW64) % POW64
    && s.tag == mix(Xor(sid, s.key0) % POW64) % POW64 % POW32
  }

  /** Initialisation makes each position a fresh session under its own identifier. */
  lemma StartIsFresh(mix: nat -> nat, i: nat, seed: nat)
    ensures IsFresh(mix, StartOf(mix, seed)(i), MakeSid(mix, i, seed), seed)
  {
  }

  /** ... in the slot that the wrapped and masked index comes to. */
  lemma SlotIs(bits: nat, i: nat, seed: nat)
    requires bits <= 32
    ensures SlotOf(PowerOfTwo.Pow2(bits), seed)(i) == (2654435761 * i + seed * 2246822519) % PowerOfTwo.Pow2(bits)
  {
    var n: nat := PowerOfTwo.Pow2(bits);
    assert SlotOf(n, seed)(i) == SpreadIndex(i, n, seed, SEED_FACTOR);
    SpreadIsAffine(i, bits, seed, SEED_FACTOR);
  }

  /** After any run, a session is the one made at its last renewal, with the hits since chained onto it. */
  lemma SessionIsHistory(c: Setup, v: Service, requests: seq<Request>, slot: nat, k: nat) returns (made: Session)
    requires Sound(v) && Addressed(requests, |v.sessions|) && slot < |v.sessions| && LastMiss(requests, slot, k)
    ensures IsFresh(c.mix, made, requests[k].sid, requests[k].seed)
    ensures IsChain(c.mix, made, After(c, v, requests).sessions[slot], HitOps(requests[k + 1..], slot))
  {
    made := NewSession(c.mix, requests[k].sid, requests[k].seed);
    SplitAt(requests, k);
    ChainAfterMiss(c, v, requests[..k], requests[k], requests[k + 1..]);
    NewIsFresh(c.mix, requests[k].sid, requests[k].seed, made);
  }

  lemma NewIsFresh(mix: nat -> nat, sid: nat, seed: nat, made: Session)
    requires made == NewSession(mix, sid, seed)
    ensures IsFresh(mix, made, sid, seed)
  {
  }

  lemma ChainAfterMiss(c: Setup, v: Service, front: seq<Request>, m: Request, since: seq<Request>)
    requires Sound(v) && Addressed(front + [m] + since, |v.sessions|) && m.slot < |v.sessions|
    requires m.Miss? && NoMiss(since, m.slot)
    ensures IsChain(c.mix, NewSession(c.mix, m.sid, m.seed), After(c, v, front + [m] + since).sessions[m.slot],
                    HitOps(since, m.slot))
  {
    AddressedParts(front + [m], since, |v.sessions|);
    AddressedParts(front, [m], |v.sessions|);
    AfterAfter(c, v, front + [m], since);
    MissMakes(c, v, front, m);
    HitsChain(c, After(c, v, front + [m]), since, m.slot);
  }

  lemma MissMakes(c: Setup, v: Service, front: seq<Request>, m: Request)
    requires Sound(v) && Addressed(front + [m], |v.sessions|) && m.slot < |v.sessions| && m.Miss?
    ensures After(c, v, front + [m]).sessions[m.slot] == NewSession(c.mix, m.sid, m.seed)
    ensures After(c, v, front + [m]).sessions[m.slot].hits == 0 < POW32
  {
    assert (front + [m])[..|front|] == front && (front + [m])[|front|] == m;
    AddressedParts(front, [m], |v.sessions|);
  }

  function HitOn(slot: nat): Request -> bool {
    (r: Request) => r.Hit? && r.slot == slot
  }

  lemma {:induction false} OpsAreCounted(requests: seq<Request>, slot: nat)
    ensures |HitOps(requests, slot)| == Count(requests, HitOn(slot))
    decreases |requests|
  {
    if requests != [] {
      OpsAreCounted(requests[..|requests| - 1], slot);
    }
  }

  /** A session has as many hits as hit it since its last renewal, modulo 2^32 ... */
  lemma HitsSinceMiss(c: Setup, v: Service, requests: seq<Request>, slot: nat, k: nat)
    requires Sound(v) && Addressed(requests, |v.sessions|) && slot < |v.sessions| && LastMiss(requests, slot, k)
    ensures After(c, v, requests).sessions[slot].hits == Count(requests[k + 1..], HitOn(slot)) % POW32
  {
    var made := SessionIsHistory(c, v, requests, slot, k);
    FreshCounts(c.mix, made, After(c, v, requests).sessions[slot], requests[k + 1..], slot);
  }

  lemma FreshCounts(mix: nat -> nat, made: Session, t: Session, since: seq<Request>, slot: nat)
    requires made.hits == 0 && IsChain(mix, made, t, HitOps(since, slot))
    ensures t.hits == Count(since, HitOn(slot)) % POW32
  {
    ChainCounts(mix, made, t, since, slot);
  }

  lemma ChainCounts(mix: nat -> nat, s: Session, t: Session, requests: seq<Request>, slot: nat)
    requires IsChain(mix, s, t, HitOps(requests, slot))
    ensures t.hits == (s.hits + Count(requests, HitOn(slot))) % POW32
  {
    OpsAreCounted(requests, slot);
    HitCountIs(s.hits, HitOps(requests, slot), Count(requests, HitOn(slot)), t.hits);
  }

  lemma HitCountIs(h0: nat, ops: seq<nat>, n: nat, hits: nat)
    requires hits == HitCount(h0, ops) && |ops| == n
    ensures hits == (h0 + n) % POW32
  {
  }

  /** ... or since the start. */
  lemma HitsSinceStart(c: Setup, v: Service, requests: seq<Request>, slot: nat)
    requires Sound(v) && Addressed(requests, |v.sessions|) && slot < |v.sessions|
    requires NoMiss(requests, slot) && v.sessions[slot].hits < POW32
    ensures After(c, v, requests).sessions[slot].hits
            == (v.sessions[slot].hits + Count(requests, HitOn(slot))) % POW32
  {
    var s, t := v.sessions[slot], After(c, v, requests).sessions[slot];
    assert t.hits == (s.hits + Count(requests, HitOn(slot))) % POW32 by {
      HitsChain(c, v, requests, slot);
      ChainCounts(c.mix, s, t, requests, slot);
    }
  }

  // ----- what a run makes of the records

  /** A record as the last renewal of its session wrote it. */
  ghost predicate IsNewRecord(c: Setup, rec: Record, i: nat, r: nat, seed: nat) {
    && rec.sequence == c.mix(Xor(Xor(i * 256, r), seed) % POW64) % POW64
    && rec.length == 64 + (i + r) % 256
    && rec.ticket == PoisonWord(c.mix, i, seed, 0x71 + r, c.poison)
    && rec.mask == PoisonWord(c.mix, i, seed, 0xb5 + 3 * r, c.poison)
  }

  /** Only a renewal writes the words that a record's authentication reads. */
  lemma {:induction false} ContentIsKept(c: Setup, v: Service, requests: seq<Request>, slot: nat, i: nat)
    requires Sound(v) && Addressed(requests, |v.sessions|) && slot < |v.sessions| && NoMiss(requests, slot)
    requires InBlock(slot, c.perSession, i) && i < |v.words.content|
    ensures |After(c, v, requests).words.content| == |v.words.content|
    ensures After(c, v, requests).words.content[i] == v.words.content[i]
    decreases |requests|
  {
    if requests != [] {
      var front, r := requests[..|requests| - 1], requests[|requests| - 1];
      ContentIsKept(c, v, front, slot, i);
      if r.slot != slot {
        BlockApart(slot, r.slot, c.perSession, i);
      }
    }
  }

  lemma {:induction false} SizeIsKept(c: Setup, v: Service, requests: seq<Request>)
    requires Sound(v) && Addressed(requests, |v.sessions|)
    ensures |After(c, v, requests).words.content| == |v.words.content|
    decreases |requests|
  {
    if requests != [] {
      SizeIsKept(c, v, requests[..|requests| - 1]);
    }
  }

  /** After any run, the words of a session's records are those of its last renewal. */
  lemma ContentIsHistory(c: Setup, v: Service, requests: seq<Request>, slot: nat, k: nat, r: nat)
    requires Sound(v) && Addressed(requests, |v.sessions|) && slot < |v.sessions| && LastMiss(requests, slot, k)
    requires r < c.perSession && Base(slot, c.perSession) + r < |v.words.content|
    ensures Base(slot, c.perSession) + r < |After(c, v, requests).words.content|
    ensures IsNewRecord(c, After(c, v, requests).words.content[Base(slot, c.perSession) + r],
                        Base(slot, c.perSession) + r, r, requests[k].seed)
  {
    var i := Base(slot, c.perSession) + r;
    SplitAt(requests, k);
    ContentAfterMiss(c, v, requests[..k], requests[k], requests[k + 1..], r, i);
    NewRecordIs(c, i, r, requests[k].seed, After(c, v, requests).words.content[i]);
  }

  lemma ContentAfterMiss(
      c: Setup, v: Service, front: seq<Request>, m: Request, since: seq<Request>, r: nat, i: nat)
    requires Sound(v) && Addressed(front + [m] + since, |v.sessions|) && m.Miss? && NoMiss(since, m.slot)
    requires r < c.perSession && i == Base(m.slot, c.perSession) + r && i < |v.words.content|
    ensures i < |After(c, v, front + [m] + since).words.content|
    ensures After(c, v, front + [m] + since).words.content[i] == NewRecord(c.mix, i, m.seed, r, c.poison)
  {
    AddressedParts(front + [m], since, |v.sessions|);
    MissWrites(c, v, front, m, r, i);
    AfterAfter(c, v, front + [m], since);
    AddressedParts(front, [m], |v.sessions|);
    ContentIsKept(c, After(c, v, front + [m]), since, m.slot, i);
  }

  lemma AddressedParts(a: seq<Request>, b: seq<Request>, sessions: nat)
    requires Addressed(a + b, sessions)
    ensures Addressed(a, sessions) && Addressed(b, sessions)
    ensures forall k :: 0 <= k < |b| ==> b[k].slot < sessions
  {
    forall k | 0 <= k < |b| ensures b[k].slot < sessions {
      assert (a + b)[|a| + k] == b[k];
    }
    forall k | 0 <= k < |a| ensures a[k].slot < sessions {
      assert (a + b)[k] == a[k];
    }
  }

  lemma SplitAt<T>(s: seq<T>, k: nat)
    requires k < |s|
    ensures s == s[..k] + [s[k]] + s[k + 1..]
  {
  }

  lemma MissWrites(c: Setup, v: Service, requests: seq<Request>, m: Request, r: nat, i: nat)
    requires Sound(v) && Addressed(requests + [m], |v.sessions|) && m.Miss?
    requires r < c.perSession && i == Base(m.slot, c.perSession) + r && i < |v.words.content|
    ensures i < |After(c, v, requests + [m]).words.content|
    ensures After(c, v, requests + [m]).words.content[i] == NewRecord(c.mix, i, m.seed, r, c.poison)
  {
    assert (requests + [m])[..|requests|] == requests;
    assert (requests + [m])[|requests|] == m;
    SizeIsKept(c, v, requests);
    MissStep(c, After(c, v, requests), m, r, i);
  }

  lemma MissStep(c: Setup, v: Service, m: Request, r: nat, i: nat)
    requires Sound(v) && m.slot < |v.sessions| && m.Miss?
    requires r < c.perSession && i == Base(m.slot, c.perSession) + r && i < |v.words.content|
    ensures i < |Next(c, v, m).words.content|
    ensures Next(c, v, m).words.content[i] == NewRecord(c.mix, i, m.seed, r, c.poison)
  {
    RenewAt(v.words, m.slot, FillOf(c, m.slot, m.seed), BlankOf(c, m.slot, m.seed), c.perSession, i);
    FillIs(c, m.slot, r, i, m.seed);
  }

  /** ... and the authentication words start from the record's own sequence number and length. */
  lemma MissAuthenticates(c: Setup, v: Service, m: Request, r: nat, i: nat)
    requires Sound(v) && m.slot < |v.sessions| && m.Miss?
    requires r < c.perSession && i == Base(m.slot, c.perSession) + r && i < |v.words.auth|
    ensures i < |Next(c, v, m).words.auth|
    ensures IsBlank(c.mix, Next(c, v, m).words.content[i], Next(c, v, m).words.auth[i])
  {
    RenewAt(v.words, m.slot, FillOf(c, m.slot, m.seed), BlankOf(c, m.slot, m.seed), c.perSession, i);
    BlankIs(c, m.slot, i, m.seed, Next(c, v, m).words.content[i], Next(c, v, m).words.auth[i]);
  }

  ghost predicate IsBlank(mix: nat -> nat, rec: Record, auth: Auth) {
    && auth.0 == mix(Xor(rec.sequence, 0x1357_9bdf_2468_ace0) % POW64) % POW64
    && auth.1 == mix(Xor(rec.length, 0xfedc_ba98_7654_3210) % POW64) % POW64
  }

  lemma BlankIs(c: Setup, slot: nat, i: nat, seed: nat, rec: Record, auth: Auth)
    requires rec == FillOf(c, slot, seed)(i) && auth == BlankOf(c, slot, seed)(i)
    ensures IsBlank(c.mix, rec, auth)
  {
    NewAuthIs(c.mix, rec, auth);
  }

  lemma NewAuthIs(mix: nat -> nat, rec: Record, auth: Auth)
    requires auth == NewAuth(mix, rec)
    ensures IsBlank(mix, rec, auth)
  {
  }

  lemma FillIs(c: Setup, slot: nat, r: nat, i: nat, seed: nat)
    requires i == Base(slot, c.perSession) + r
    ensures FillOf(c, slot, seed)(i) == NewRecord(c.mix, i, seed, r, c.poison)
  {
  }

  lemma NewRecordIs(c: Setup, i: nat, r: nat, seed: nat, rec: Record)
    requires rec == NewRecord(c.mix, i, seed, r, c.poison)
    ensures IsNewRecord(c, rec, i, r, seed)
  {
  }

  lemma RenewAt(w: Words, slot: nat, fill: nat -> Record, blank: nat -> Auth, perSession: nat, i: nat)
    requires |w.content| == |w.auth| && i < |w.auth| && InBlock(slot, perSession, i)
    ensures |Apply(w, Renew(slot, fill, blank), perSession).content| == |w.auth|
    ensures Apply(w, Renew(slot, fill, blank), perSession).content[i] == fill(i)
    ensures Apply(w, Renew(slot, fill, blank), perSession).auth[i] == blank(i)
  {
  }

  /** A hit or a scan changes both authentication words of each record it reaches, the first `limit` of its
      session, by values that depend on the session's fields as they now are, and touches no other record. */
  lemma WalkAuthenticates(c: Setup, v: Service, r: Request, i: nat)
    requires Sound(v) && r.slot < |v.sessions| && !r.Miss? && i < |v.words.auth|
    ensures |Next(c, v, r).words.auth| == |v.words.auth|
    ensures InReach(r.slot, r.limit, c.perSession, i) ==>
              Authenticated(c.mix, Next(c, v, r).sessions[r.slot], v.words.content[i], v.words.auth[i],
                            Next(c, v, r).words.auth[i])
    ensures !InReach(r.slot, r.limit, c.perSession, i) ==> Next(c, v, r).words.auth[i] == v.words.auth[i]
  {
    var s := NextSession(c, v.sessions[r.slot], r);
    var update := UpdateOf(c, s);
    WalkAt(v.words, r.slot, r.limit, update, c.perSession, i);
    if InReach(r.slot, r.limit, c.perSession, i) {
      UpdateAuthenticates(c, s, i, v.words.content[i], v.words.auth[i], Next(c, v, r).words.auth[i]);
    }
  }

  ghost predicate InReach(slot: nat, limit: nat, perSession: nat, i: nat) {
    && Base(slot, perSession) <= i
    && i < Base(slot, perSession) + perSession && i < Base(slot, perSession) + limit
  }

  lemma WalkAt(w: Words, slot: nat, limit: nat, update: Update, perSession: nat, i: nat)
    requires |w.content| == |w.auth| && i < |w.auth|
    ensures |Apply(w, Walk(slot, limit, update), perSession).auth| == |w.auth|
    ensures Apply(w, Walk(slot, limit, update), perSession).auth[i]
            == if InReach(slot, limit, perSession, i) then update(i, w.content[i], w.auth[i]) else w.auth[i]
  {
    ReachIs(Base(slot, perSession), limit, perSession, i);
  }

  lemma ReachIs(base: nat, limit: nat, perSession: nat, i: nat)
    ensures i < base + Reached(limit, perSession) <==> i < base + perSession && i < base + limit
  {
  }

  /** The words move by the session's epoch and count and the record's authentication code `a`. */
  ghost predicate MovedBy(mix: nat -> nat, s: Session, a: nat, before: Auth, after: Auth) {
    && Xor(after.0, before.0) == mix((a + s.hits) % POW64) % POW64
    && after.1 == (before.1 + Xor(a, s.epoch)) % POW64
  }

  ghost predicate Authenticated(mix: nat -> nat, s: Session, rec: Record, before: Auth, after: Auth) {
    MovedBy(mix, s, RecordAuth(s, rec, before), before, after)
  }

  lemma UpdateAuthenticates(c: Setup, s: Session, i: nat, rec: Record, before: Auth, after: Auth)
    requires after == UpdateOf(c, s)(i, rec, before)
    ensures Authenticated(c.mix, s, rec, before, after)
  {
    Moves(c.mix, s, RecordAuth(s, rec, before), before, after);
  }

  lemma Moves(mix: nat -> nat, s: Session, a: nat, before: Auth, after: Auth)
    requires after == Moved(mix, s, a, before)
    ensures MovedBy(mix, s, a, before, after)
  {
    DifferenceOf(mix, a + s.hits, before.0);
    SumOf(before.1, Xor(a, s.epoch));
  }

  lemma DifferenceOf(mix: nat -> nat, x: nat, word: nat)
    ensures Xor(Xor(word, Mix64(mix, x)), word) == mix(x % POW64) % POW64
  {
    XorDifference(word, Mix64(mix, x));
  }

  lemma SumOf(x: nat, y: nat)
    ensures Low(x + y, 64) == (x + y) % POW64
  {
  }

  lemma XorDifference(x: nat, y: nat)
    ensures Xor(Xor(x, y), x) == y
  {
    XorCommutes(x, y);
    XorCancels(y, x);
  }
}
