/** The replicated value: one server's hash table and version number, and the updates applied to it. */
module Replicas {
  import opened Bytes

  type Table = map<bytes, bytes>

  datatype Replica = Replica(table: Table, version: byte)

  datatype Update = Update(remove: bool, domain: bytes, ip: bytes, id: byte)

  function Apply(u: Update, r: Replica): Replica {
    Replica(if u.remove then r.table - {u.domain} else r.table[u.domain := u.ip], u.id)
  }

  /** Pushing the same update twice is pushing it once. */
  lemma ApplyTwice(u: Update, r: Replica)
    ensures Apply(u, Apply(u, r)) == Apply(u, r)
  {
    if u.remove {
      assert r.table - {u.domain} - {u.domain} == r.table - {u.domain};
    } else {
      assert r.table[u.domain := u.ip][u.domain := u.ip] == r.table[u.domain := u.ip];
    }
  }

  /** The fold of `us`, oldest first, over `base`. */
  function Replay(base: Replica, us: seq<Update>): Replica {
    if us == [] then base else Apply(us[|us| - 1], Replay(base, us[..|us| - 1]))
  }

  /** How many of `us`, oldest first, reach up to and include the last that names `d`; 0 when none does. */
  function LastNaming(us: seq<Update>, d: bytes): (m: nat)
    ensures m <= |us| && (m > 0 ==> us[m - 1].domain == d) && forall i :: m <= i < |us| ==> us[i].domain != d
  {
    if us == [] || us[|us| - 1].domain == d then |us| else LastNaming(us[..|us| - 1], d)
  }

  /**
   * What a history of updates means: the table maps a domain to the address that the last update naming
   * it gave, or has no such entry if that one removed it, and has it as at the start if none names it.
   */
  lemma {:induction false} ReplayMeans(base: Replica, us: seq<Update>, d: bytes)
    ensures var t, m := Replay(base, us).table, LastNaming(us, d);
            && (d in t <==> if m == 0 then d in base.table else !us[m - 1].remove)
            && (d in t ==> t[d] == if m == 0 then base.table[d] else us[m - 1].ip)
    ensures Replay(base, us).version == if us == [] then base.version else us[|us| - 1].id
  {
    if us != [] {
      ReplayMeans(base, us[..|us| - 1], d);
    }
  }
}
