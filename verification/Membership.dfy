/** What the router's member list and its liveness sweep mean, on sequences. */
module Membership {
  import opened Bytes

  /** A server as the router sees it: ids are 16 bits wide, the pongs that report them 8. */
  datatype Server = Server(id: word, port: word, tcpPort: word)

  function IdByte(v: Server): byte {
    v.id % 0x100
  }

  predicate HasId(vs: seq<Server>, id: byte) {
    exists i :: 0 <= i < |vs| && vs[i].id == id
  }

  /** The servers without the first one whose id is `id`. */
  function RemoveFirst(vs: seq<Server>, id: byte): seq<Server> {
    if vs == [] then []
    else if vs[0].id == id then vs[1..]
    else [vs[0]] + RemoveFirst(vs[1..], id)
  }

  lemma {:induction false} RemoveFirstAt(vs: seq<Server>, id: byte, m: nat)
    requires m <= |vs| && (m < |vs| ==> vs[m].id == id)
    requires forall i :: 0 <= i < m ==> vs[i].id != id
    ensures RemoveFirst(vs, id) == if m < |vs| then vs[..m] + vs[m + 1..] else vs
  {
    if m > 0 {
      RemoveFirstAt(vs[1..], id, m - 1);
      if m < |vs| {
        assert [vs[0]] + (vs[1..][..m - 1] + vs[1..][m..]) == vs[..m] + vs[m + 1..];
      } else {
        assert [vs[0]] + vs[1..] == vs;
      }
    }
  }

  function IdBytes(vs: seq<Server>): (r: seq<byte>)
    ensures |r| == |vs| && forall i :: 0 <= i < |vs| ==> r[i] == IdByte(vs[i])
  {
    if vs == [] then [] else [IdByte(vs[0])] + IdBytes(vs[1..])
  }

  /** Strike the first occurrence of `b` off the list of ids still silent. */
  function Strike(off: seq<byte>, b: byte): seq<byte> {
    if off == [] then []
    else if off[0] == b then off[1..]
    else [off[0]] + Strike(off[1..], b)
  }

  lemma {:induction false} StrikeAt(off: seq<byte>, b: byte, m: nat)
    requires m <= |off| && (m < |off| ==> off[m] == b) && forall i :: 0 <= i < m ==> off[i] != b
    ensures Strike(off, b) == if m < |off| then off[..m] + off[m + 1..] else off
  {
    if m > 0 {
      StrikeAt(off[1..], b, m - 1);
      if m < |off| {
        assert [off[0]] + (off[1..][..m - 1] + off[1..][m..]) == off[..m] + off[m + 1..];
      } else {
        assert [off[0]] + off[1..] == off;
      }
    }
  }

  /** One id struck per pong, in the order the pongs arrive. */
  function StrikeAll(off: seq<byte>, pongs: seq<byte>): seq<byte> {
    if pongs == [] then off else Strike(StrikeAll(off, pongs[..|pongs| - 1]), pongs[|pongs| - 1])
  }

  /** The servers whose id byte occurs (`answered`) or does not occur among the pongs, in order. */
  function Select(vs: seq<Server>, pongs: seq<byte>, answered: bool): (r: seq<Server>)
    ensures forall v :: v in r <==> v in vs && (IdByte(v) in pongs) == answered
  {
    if vs == [] then []
    else if (IdByte(vs[0]) in pongs) == answered then [vs[0]] + Select(vs[1..], pongs, answered)
    else Select(vs[1..], pongs, answered)
  }

  /**
   * The sweep's removals, one per silent id, until one does not find its server: that call keeps
   * both of the router's mutexes, so no later call gets past them.
   */
  function Sweep(vs: seq<Server>, off: seq<byte>): seq<Server>
    decreases |off|
  {
    if off != [] && HasId(vs, off[0]) then Sweep(RemoveFirst(vs, off[0]), off[1..]) else vs
  }

  /** Every removal the sweep makes finds its server. */
  predicate SweepFinds(vs: seq<Server>, off: seq<byte>)
    decreases |off|
  {
    off == [] || (HasId(vs, off[0]) && SweepFinds(RemoveFirst(vs, off[0]), off[1..]))
  }

  ghost predicate DistinctIdBytes(vs: seq<Server>) {
    forall i, j :: 0 <= i < j < |vs| ==> IdByte(vs[i]) != IdByte(vs[j])
  }

  /** The id of every server that kept silent fits in a pong. */
  ghost predicate SilentFit(vs: seq<Server>, pongs: seq<byte>) {
    forall v :: v in vs && IdByte(v) !in pongs ==> v.id < 0x100
  }

  // ---------- the sweep is a filter ----------

  lemma {:induction false} SelectUnaffected(vs: seq<Server>, pongs: seq<byte>, b: byte)
    requires forall v :: v in vs ==> IdByte(v) != b
    ensures Select(vs, pongs + [b], false) == Select(vs, pongs, false)
  {
    if vs != [] {
      assert vs[0] in vs;
      SelectUnaffected(vs[1..], pongs, b);
    }
  }

  lemma {:induction false} StrikeIsOneMorePong(vs: seq<Server>, pongs: seq<byte>, b: byte)
    requires DistinctIdBytes(vs)
    ensures Strike(IdBytes(Select(vs, pongs, false)), b) == IdBytes(Select(vs, pongs + [b], false))
  {
    if vs != [] {
      StrikeIsOneMorePong(vs[1..], pongs, b);
      var rest := Select(vs[1..], pongs, false);
      if IdByte(vs[0]) !in pongs {
        assert IdBytes([vs[0]] + rest)[1..] == IdBytes(rest);
        if IdByte(vs[0]) == b {
          SelectUnaffected(vs[1..], pongs, b);
        }
      }
    }
  }

  /** Whatever pongs arrive, duplicates and unknown ids included, what stays on the list is who kept silent. */
  lemma {:induction false} StruckListIsTheSilent(vs: seq<Server>, pongs: seq<byte>)
    requires DistinctIdBytes(vs)
    ensures StrikeAll(IdBytes(vs), pongs) == IdBytes(Select(vs, pongs, false))
  {
    if pongs == [] {
      SelectAll(vs);
    } else {
      var front, b := pongs[..|pongs| - 1], pongs[|pongs| - 1];
      StruckListIsTheSilent(vs, front);
      StrikeIsOneMorePong(vs, front, b);
      assert front + [b] == pongs;
    }
  }

  lemma {:induction false} SelectAll(vs: seq<Server>)
    ensures Select(vs, [], false) == vs
  {
    if vs != [] {
      SelectAll(vs[1..]);
    }
  }

  /** A server no removal asks for stays at the head of the list. */
  lemma {:induction false} SweepPasses(v: Server, vs: seq<Server>, off: seq<byte>)
    requires forall i :: 0 <= i < |off| ==> off[i] != v.id
    ensures Sweep([v] + vs, off) == [v] + Sweep(vs, off)
    ensures SweepFinds([v] + vs, off) == SweepFinds(vs, off)
    decreases |off|
  {
    if off != [] {
      assert HasId([v] + vs, off[0]) == HasId(vs, off[0]) by {
        assert forall i :: 0 <= i < |vs| ==> ([v] + vs)[i + 1] == vs[i];
      }
      assert RemoveFirst([v] + vs, off[0]) == [v] + RemoveFirst(vs, off[0]);
      SweepPasses(v, RemoveFirst(vs, off[0]), off[1..]);
    }
  }

  lemma {:induction false} SweepKeepsWide(vs: seq<Server>, off: seq<byte>, v: Server)
    requires v in vs && v.id >= 0x100
    ensures v in Sweep(vs, off)
    decreases |off|
  {
    if off != [] && HasId(vs, off[0]) {
      RemoveKeeps(vs, off[0], v);
      SweepKeepsWide(RemoveFirst(vs, off[0]), off[1..], v);
    }
  }

  lemma {:induction false} RemoveKeeps(vs: seq<Server>, id: byte, v: Server)
    requires v in vs && v.id != id
    ensures v in RemoveFirst(vs, id)
  {
    if vs[0].id != id && vs[0] != v {
      RemoveKeeps(vs[1..], id, v);
    }
  }

  /** The ids of the silent ones, and the sweep past `v`, when `v` has answered. */
  lemma AnsweredIsPassed(v: Server, rest: seq<Server>, pongs: seq<byte>)
    requires IdByte(v) in pongs
    ensures var off := IdBytes(Select(rest, pongs, false));
            && IdBytes(Select([v] + rest, pongs, false)) == off
            && Sweep([v] + rest, off) == [v] + Sweep(rest, off)
            && SweepFinds([v] + rest, off) == SweepFinds(rest, off)
  {
    assert ([v] + rest)[1..] == rest;
    var silent := Select(rest, pongs, false);
    forall i | 0 <= i < |silent| ensures IdBytes(silent)[i] != v.id {
      assert silent[i] in silent;
    }
    SweepPasses(v, rest, IdBytes(silent));
  }

  lemma SilentIsNext(v: Server, rest: seq<Server>, pongs: seq<byte>)
    requires IdByte(v) !in pongs
    ensures IdBytes(Select([v] + rest, pongs, false)) == [IdByte(v)] + IdBytes(Select(rest, pongs, false))
    ensures Select([v] + rest, pongs, true) == Select(rest, pongs, true)
    ensures SweepFinds([v] + rest, IdBytes(Select([v] + rest, pongs, false)))
         == (HasId([v] + rest, IdByte(v))
             && SweepFinds(RemoveFirst([v] + rest, IdByte(v)), IdBytes(Select(rest, pongs, false))))
  {
  }

  /** Removing the silent servers, found by id byte, leaves those that answered. */
  lemma {:induction false} SweepRemovesTheSilent(vs: seq<Server>, pongs: seq<byte>)
    requires SilentFit(vs, pongs)
    ensures Sweep(vs, IdBytes(Select(vs, pongs, false))) == Select(vs, pongs, true)
    ensures SweepFinds(vs, IdBytes(Select(vs, pongs, false)))
  {
    if vs != [] {
      var v, rest := vs[0], vs[1..];
      assert vs == [v] + rest && v in vs;
      SweepRemovesTheSilent(rest, pongs);
      if IdByte(v) in pongs {
        AnsweredIsPassed(v, rest, pongs);
      } else {
        SilentIsNext(v, rest, pongs);
        assert HasId(vs, IdByte(v)) by { assert vs[0].id == IdByte(v); }
      }
    }
  }

  /** With distinct id bytes, the head's byte can only find the head itself. */
  lemma HeadFindsOnlyItself(v: Server, rest: seq<Server>)
    requires DistinctIdBytes([v] + rest) && HasId([v] + rest, IdByte(v))
    ensures v.id < 0x100 && RemoveFirst([v] + rest, IdByte(v)) == rest
  {
  }

  /** A silent server whose 16-bit id does not fit the pong byte is never found by its own byte. */
  lemma {:induction false} SweepMissesWide(vs: seq<Server>, pongs: seq<byte>, v: Server)
    requires DistinctIdBytes(vs) && v in vs && IdByte(v) !in pongs && v.id >= 0x100
    ensures !SweepFinds(vs, IdBytes(Select(vs, pongs, false)))
  {
    var w, rest := vs[0], vs[1..];
    assert vs == [w] + rest;
    if IdByte(w) in pongs {
      SweepMissesWide(rest, pongs, v);
      AnsweredIsPassed(w, rest, pongs);
    } else {
      SilentIsNext(w, rest, pongs);
      if HasId(vs, IdByte(w)) {
        HeadFindsOnlyItself(w, rest);
        SweepMissesWide(rest, pongs, v);
      }
    }
  }

  /**
   * The sweep is the filter "its id byte occurs among the pongs", in the old order, and every
   * removal it makes finds its server, exactly when every silent server's id fits in the pong byte.
   */
  lemma SweepIsFilter(vs: seq<Server>, pongs: seq<byte>)
    requires DistinctIdBytes(vs)
    ensures var off := StrikeAll(IdBytes(vs), pongs);
            && (Sweep(vs, off) == Select(vs, pongs, true) <==> SilentFit(vs, pongs))
            && (SweepFinds(vs, off) <==> SilentFit(vs, pongs))
  {
    StruckListIsTheSilent(vs, pongs);
    if v :| v in vs && IdByte(v) !in pongs && v.id >= 0x100 {
      SweepMissesWide(vs, pongs, v);
      SweepKeepsWide(vs, StrikeAll(IdBytes(vs), pongs), v);
    } else {
      SweepRemovesTheSilent(vs, pongs);
    }
  }

  /** For instance: the only server has the id 256 and keeps silent. It stays, and its removal is never found. */
  lemma WideIdIsNeverSwept(port: word, tcpPort: word)
    ensures var vs, off := [Server(0x100, port, tcpPort)], StrikeAll(IdBytes([Server(0x100, port, tcpPort)]), []);
            Sweep(vs, off) == vs && Select(vs, [], true) == [] && !SweepFinds(vs, off)
  {
    var v := Server(0x100, port, tcpPort);
    assert IdBytes([v]) == [0];
    assert !HasId([v], 0);
  }
}
