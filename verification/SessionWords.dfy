/** The words that the TLS session service writes into sessions and records, over an arbitrary mixing
    function; all values are 64-bit unless said otherwise. */
module SessionWords {

  import opened MachineWords
  import opened ExclusiveOr

  datatype Session = Session(sid: nat, epoch: nat, key0: nat, key1: nat, aad: nat, hits: nat, tag: nat)

  /** The words of a record that only its initialisation writes. */
  datatype Record = Record(sequence: nat, length: nat, ticket: nat, mask: nat)

  /** The two authentication words of a record. */
  type Auth = (nat, nat)

  /** A 48-bit session identifier: a multiple of eight with bit 3 set. */
  function MakeSid(mix: nat -> nat, i: nat, seed: nat): nat {
    OddEighths(Mix64(mix, Xor(Xor(Left(i, 21), Left(seed, 3)), 0x544c_5353_434f_5050)), 48)
  }

  /** The low bits of a word with the lowest three cleared and the next one set. */
  function OddEighths(x: nat, width: nat): nat {
    var bits := High(Low(x, width), 3);
    (bits + (1 - bits % 2)) * 8
  }

  function NewSession(mix: nat -> nat, sid: nat, seed: nat): Session {
    var epoch := Mix64(mix, Xor(Xor(sid, seed), 0x4550_4f43_484b_4559));
    var key0 := Mix64(mix, Xor(sid, 0x243f_6a88_85a3_08d3));
    Session(sid, epoch, key0, Mix64(mix, Xor(sid, 0x1319_8a2e_0370_7344)), Mix64(mix, Xor(sid, epoch)), 0,
            Low(Mix64(mix, Xor(sid, key0)), 32))
  }

  /** The session after a hit, before its records are processed. */
  function HitSession(mix: nat -> nat, s: Session, op: nat): Session {
    var hits := Low(s.hits + 1, 32);
    var epoch := Mix64(mix, s.epoch + op + hits);
    var aad := Xor(s.aad, Mix64(mix, Xor(s.sid, epoch)));
    s.(hits := hits, epoch := epoch, aad := aad, tag := Xor(s.tag, Low(High(aad, 17), 32)))
  }

  function PoisonWord(mix: nat -> nat, i: nat, seed: nat, salt: nat, poison: bool): nat {
    PoisonOf(Mix64(mix, Xor(Xor(Left(i, 32), Left(seed, 9)), salt)), poison)
  }

  function PoisonOf(x: nat, poison: bool): nat {
    if poison then 0x40_0000 + Left(Low(x, 21), 3) else Left(High(Low(x, 22), 3), 3)
  }

  /** Record number `global`, the `r`-th of its session. */
  function NewRecord(mix: nat -> nat, global: nat, seed: nat, r: nat, poison: bool): Record {
    Record(Mix64(mix, Xor(Xor(global * 256, r), seed)), 64 + (global + r) % 256,
           PoisonWord(mix, global, seed, 0x71 + r, poison), PoisonWord(mix, global, seed, 0xb5 + 3 * r, poison))
  }

  function NewAuth(mix: nat -> nat, rec: Record): Auth {
    (Mix64(mix, Xor(rec.sequence, 0x1357_9bdf_2468_ace0)), Mix64(mix, Xor(rec.length, 0xfedc_ba98_7654_3210)))
  }

  function AuthRound(state: nat, word: nat, key: nat): nat {
    Scramble(Low(state + Xor(word, key), 64))
  }

  /** The multiply and the two folds of a round. */
  function Scramble(a: nat): nat {
    var b := Low(Xor(a, High(a, 23)) * 0x2127_599b_f432_5c37, 64);
    Xor(b, High(b, 47))
  }

  function FiveRounds(state: nat, w: seq<nat>, k: seq<nat>): nat
    requires |w| == |k| == 5
  {
    AuthRound(AuthRound(AuthRound(AuthRound(AuthRound(
      state, w[0], k[0]), w[1], k[1]), w[2], k[2]), w[3], k[3]), w[4], k[4])
  }

  /** `constant_time_record_auth`. */
  function RecordAuth(s: Session, rec: Record, auth: Auth): nat {
    FiveRounds(
      Xor(Xor(Xor(s.key0, Low(s.key1 * 2, 64)), s.aad), rec.sequence),
      [rec.length, rec.ticket, rec.mask, auth.0, auth.1],
      [s.key0, s.key1, Xor(s.key0, s.epoch), Xor(s.key1, s.aad), Low(s.key0 + rec.sequence, 64)])
  }

  /** What processing a record does to its authentication words. */
  function NextAuth(mix: nat -> nat, s: Session, rec: Record, auth: Auth): Auth {
    Moved(mix, s, RecordAuth(s, rec, auth), auth)
  }

  function Moved(mix: nat -> nat, s: Session, a: nat, auth: Auth): Auth {
    (Xor(auth.0, Mix64(mix, a + s.hits)), Low(auth.1 + Xor(a, s.epoch), 64))
  }
}
