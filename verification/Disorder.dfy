/**
 * What the agreement of the listed servers rests on and nobody checks: for each condition that makes a
 * run orderly, a run on which some server does not meet it, and which ends in disagreement.
 */
module Disorder {
  import opened Bytes
  import opened Replicas
  import opened Wire
  import opened Protocol

  /** `steps` lead from `s` to `m`. */
  ghost predicate Reaches(s: State, steps: seq<Step>, m: State) {
    Executes(s, steps) && After(s, steps) == m
  }

  // ---------- stretches of a run ----------

  /** The history after `u` has been begun, anew or again. */
  function Beginning(m: State, u: Pushable): seq<Pushable> {
    if m.history != [] && u == Current(m) then m.history else m.history + [u]
  }

  /** The only listed server, still stale, brings itself up to date. */
  lemma UpdatesAlone(s: State, pre: seq<Step>, m: State, k: Call) returns (steps: seq<Step>)
    requires Reaches(s, pre, m) && m.session.Closed? && m.members == k.ports == [k.c] && k.own == k.c && k.fail != -1
    requires k.c in m.replicas && m.replicas[k.c].version != k.u.id && MayStart(m, k.u)
    ensures Reaches(s, steps, m.(replicas := m.replicas[k.c := Apply(k.u, m.replicas[k.c])],
                                 history := Beginning(m, k.u), settled := true, code := Some(0)))
  {
    ExtendRun(s, pre, BeginUpdate(k));
    ExtendRun(s, pre + [BeginUpdate(k)], Skip);
    ExtendRun(s, pre + [BeginUpdate(k)] + [Skip], CommitLocal);
    ExtendRun(s, pre + [BeginUpdate(k)] + [Skip] + [CommitLocal], FinishUpdate);
    steps := pre + [BeginUpdate(k)] + [Skip] + [CommitLocal] + [FinishUpdate];
  }

  /** A coordinator gives up on its first peer and leaves the frame behind. */
  lemma LeavesFrame(s: State, pre: seq<Step>, m: State, k: Call) returns (steps: seq<Step>)
    requires Reaches(s, pre, m) && Can(m, BeginUpdate(k)) && |k.ports| > 0 && !Skips(k, 0)
    requires k.ports[0] in m.replicas && k.ports[0] !in m.wire && m.replicas[k.ports[0]].version != k.u.id
    requires Beginning(m, k.u) != m.history
    ensures Reaches(s, steps, m.(wire := m.wire[k.ports[0] := k.u], history := Beginning(m, k.u), settled := false))
  {
    ExtendRun(s, pre, BeginUpdate(k));
    ExtendRun(s, pre + [BeginUpdate(k)], Query);
    ExtendRun(s, pre + [BeginUpdate(k)] + [Query], Abort);
    steps := pre + [BeginUpdate(k)] + [Query] + [Abort];
  }

  /** A server copies the first listed one and is listed. */
  lemma Joins(s: State, pre: seq<Step>, m: State, j: Port, order: seq<bytes>, got: Replica) returns (steps: seq<Step>)
    requires Reaches(s, pre, m) && Can(m, BeginJoin(j)) && m.members != []
    requires m.members[0] in m.replicas && m.members[0] !in m.wire
    requires Copy(order, Sent(m.replicas, j, m.members[0])) == Some(got)
    ensures Reaches(s, steps, m.(replicas := m.replicas[j := got], members := m.members + [j]))
  {
    ExtendRun(s, pre, BeginJoin(j));
    ExtendRun(s, pre + [BeginJoin(j)], DonorCopies(order));
    ExtendRun(s, pre + [BeginJoin(j)] + [DonorCopies(order)], HandOver);
    steps := pre + [BeginJoin(j)] + [DonorCopies(order)] + [HandOver];
  }

  lemma ReplayTwo(base: Replica, u1: Update, u2: Update)
    ensures Replay(base, [u1]) == Apply(u1, base)
    ensures Replay(base, [u1, u2]) == Apply(u2, Apply(u1, base))
  {
    assert [u1, u2][..1] == [u1] && [u1][..0] == [];
  }

  /** It completes the update `u1` that was interrupted, and then `u2`. */
  lemma UpdatesTwice(s: State, pre: seq<Step>, m: State, c: Port, u1: Pushable, u2: Pushable)
    returns (steps: seq<Step>)
    requires Reaches(s, pre, m) && m.session.Closed? && m.members == [c] && m.history == [u1]
    requires c in m.replicas && m.replicas[c] == m.base && m.base.version != u1.id && u2.id != u1.id
    ensures Reaches(s, steps, m.(replicas := m.replicas[c := Apply(u2, Apply(u1, m.base))],
                                 history := [u1, u2], settled := true, code := Some(0)))
  {
    ReplayTwo(m.base, u1, u2);
    steps := UpdatesAlone(s, pre, m, Call(c, u1, [c], c, 0));
    var r := Apply(u1, m.base);
    var m' := m.(replicas := m.replicas[c := r], settled := true, code := Some(0));
    steps := UpdatesAlone(s, steps, m', Call(c, u2, [c], c, 0));
    assert m.replicas[c := r][c := Apply(u2, r)] == m.replicas[c := Apply(u2, r)];
  }

  /** Servers 1 and 2 with the same table, some of them listed. */
  function Start(members: seq<Port>, base: Replica): State {
    State(Closed, members, map[1 := base, 2 := base], map[], base, [], true, None)
  }

  // ---------- the runs ----------

  /** A joiner that copies 256 names is listed with none of them. */
  lemma OversizedJoin() returns (s: State, steps: seq<Step>)
    ensures Init(s) && Executes(s, steps) && After(s, steps).members == [1, 2]
    ensures var reps := After(s, steps).replicas;
            1 in reps && 2 in reps && |reps[1].table| == 0x100 && reps[2] == Replica(map[], 79)
  {
    var base := Replica(BigTable(TOO_MANY), 0);
    s := Start([1], base);
    TransferOfBigTable(0);
    steps := Joins(s, [], s, 2, BigOrder(TOO_MANY), Replica(map[], 79));
  }

  /** A server that is still listed and asks itself first is listed twice, with an empty table. */
  lemma RejoinCopiesItself(t: Table) returns (s: State, steps: seq<Step>)
    requires Transferable(t)
    ensures Init(s) && Executes(s, steps) && After(s, steps).members == [2, 1, 2]
    ensures var reps := After(s, steps).replicas;
            1 in reps && 2 in reps && reps[1] == Replica(t, 0) && reps[2] == Replica(map[], 0)
  {
    s := Start([2, 1], Replica(t, 0));
    TransferExact([], Replica(map[], 0));
    steps := Joins(s, [], s, 2, [], Replica(map[], 0));
  }

  /**
   * A coordinator with a frame of an earlier update waiting for it: it brings in the next update and
   * is then set back by the frame, after every attempt has completed and with nothing left in flight.
   */
  lemma WaitingFrameUndoes(t: Table, u1: Pushable, u2: Pushable) returns (s: State, steps: seq<Step>)
    requires Transferable(t) && u1.id != 0 && u2.id != u1.id
    ensures Init(s) && Executes(s, steps) && var e := After(s, steps);
            && e.session.Closed? && e.settled && e.wire == map[] && e.members == [2] && e.history == [u1, u2]
            && 2 in e.replicas && e.replicas[2].version == u1.id && Newest(e).version == u2.id
  {
    s := Start([2], Replica(t, 0));
    steps := LeavesFrame(s, [], s, Call(1, u1, [2], 1, 1));
    steps := UpdatesTwice(s, steps, After(s, steps), 2, u1, u2);
    ReplayTwo(s.base, u1, u2);
    ExtendRun(s, steps, Deliver(2));
    steps := steps + [Deliver(2)];
  }

  /** Server 2 is removed with the frame of `u1` still waiting for it; server 1 brings in `u1` and `u2` alone. */
  lemma LeftBehind(t: Table, u1: Pushable, u2: Pushable) returns (s: State, steps: seq<Step>)
    requires Transferable(t) && u1.id != 0 && u2.id != u1.id
    ensures Init(s) && s.base == Replica(t, 0)
    ensures var r := Apply(u2, Apply(u1, s.base));
            var reps: Cluster := map[1 := r, 2 := s.base];
            Reaches(s, steps, State(Closed, [1], reps, map[2 := u1], s.base, [u1, u2], true, Some(0)))
  {
    s := Start([2, 1], Replica(t, 0));
    steps := LeavesFrame(s, [], s, Call(1, u1, [2, 1], 1, 1));
    ExtendRun(s, steps, RemoveServer(2));
    steps := steps + [RemoveServer(2)];
    WithoutTheFirst(2, 1);
    steps := UpdatesTwice(s, steps, After(s, steps), 1, u1, u2);
  }

  lemma WithoutTheFirst(p: Port, q: Port)
    requires p != q
    ensures Without([p, q], p) == [q]
  {
    assert [p, q][..1] == [p] && [p][..0] == [];
    assert Without([p], p) == Without([], p) == [];
  }

  /** Server 2 copies server 1 while `u` waits for it, is listed, and handles the frame. */
  lemma JoinsAndFallsBack(s: State, pre: seq<Step>, m: State, order: seq<bytes>, r: Replica, u: Pushable)
    returns (steps: seq<Step>)
    requires Reaches(s, pre, m) && m.session.Closed? && m.members == [1] && m.wire == map[2 := u]
    requires 1 in m.replicas && 2 in m.replicas && m.replicas[1] == r && Copy(order, r) == Some(r)
    ensures Reaches(s, steps, m.(replicas := m.replicas[2 := Apply(u, r)], members := [1, 2], wire := map[]))
  {
    steps := Joins(s, pre, m, 2, order, r);
    ExtendRun(s, steps, Deliver(2));
    steps := steps + [Deliver(2)];
    assert m.wire - {2} == map[];
    assert m.replicas[2 := r][2 := Apply(u, r)] == m.replicas[2 := Apply(u, r)];
  }

  /** A joiner with such a frame waiting for it: it copies the newest replica whole and falls back once listed. */
  lemma WaitingFrameJoins(t: Table, u1: Pushable, u2: Pushable, order: seq<bytes>)
    returns (s: State, steps: seq<Step>)
    requires Transferable(t) && u1.id != 0 && u2.id != u1.id
    requires var r := Apply(u2, Apply(u1, Replica(t, 0))); IsOrder(order, r.table) && |r.table| <= 255
    ensures Init(s) && Executes(s, steps) && var e := After(s, steps);
            && e.session.Closed? && e.settled && e.wire == map[] && e.members == [1, 2] && e.history == [u1, u2]
            && 1 in e.replicas && e.replicas[1] == Newest(e) && Newest(e).version == u2.id
            && 2 in e.replicas && e.replicas[2].version == u1.id
  {
    var r := Apply(u2, Apply(u1, Replica(t, 0)));
    ApplyTransferable(u1, Replica(t, 0));
    ApplyTransferable(u2, Apply(u1, Replica(t, 0)));
    CopyWhole(order, r);
    s, steps := LeftBehind(t, u1, u2);
    ReplayTwo(s.base, u1, u2);
    steps := JoinsAndFallsBack(s, steps, After(s, steps), order, r, u1);
  }
}
