/** What one update session reports and guarantees, whatever else happens while it is open. */
module Diagnosis {
  import opened Bytes
  import opened Replicas
  import opened Protocol

  // ---------- one session as a stretch of a run ----------

  ghost predicate KeepsSessionAll(steps: seq<Step>) {
    forall i :: 0 <= i < |steps| ==> KeepsSession(steps[i])
  }

  /** What a session never changes once it is open: its own parameters, its list, its snapshot. */
  ghost predicate SameSession(a: State, b: State) {
    && a.session.Updating? && b.session.Updating?
    && b.session.call == a.session.call && b.session.thisStale == a.session.thisStale
    && b.session.start == a.session.start && b.members == a.members
  }

  lemma SessionStep(s: State, step: Step)
    requires s.session.Updating? && Can(s, step) && KeepsSession(step)
    ensures SameSession(s, Do(s, step))
  {
  }

  /** While an update session is open nothing joins and nothing is removed. */
  lemma {:induction false} SessionFreezesMembership(s: State, steps: seq<Step>)
    requires s.session.Updating? && Executes(s, steps) && KeepsSessionAll(steps)
    ensures SameSession(s, After(s, steps))
    decreases |steps|
  {
    if steps != [] {
      SessionStep(s, steps[0]);
      SessionFreezesMembership(Do(s, steps[0]), steps[1..]);
    }
  }

  // ---------- return codes ----------

  ghost predicate Contacts(ss: Session, i: int)
    requires ss.Updating?
  {
    0 <= i < |ss.call.ports| && ss.call.ports[i] in ss.start && !Skips(ss.call, i)
  }

  /** The peer at `i` held the update's id when the session opened. */
  ghost predicate WasFresh(ss: Session, i: nat)
    requires ss.Updating? && i < |ss.call.ports| && ss.call.ports[i] in ss.start
  {
    ss.start[ss.call.ports[i]].version == ss.call.u.id
  }

  /** The peer at `i` has not been written since the session opened. */
  ghost predicate Untouched(s: State, i: nat)
    requires s.session.Updating? && i < |s.session.call.ports|
  {
    var p := s.session.call.ports[i];
    p in s.replicas && p in s.session.start && p !in s.wire && s.replicas[p] == s.session.start[p]
  }

  /** Where the loop is, and that the peers ahead of it are as the snapshot has them. */
  ghost predicate LoopOk(s: State) {
    var ss := s.session;
    ss.Updating? ==>
      var k := ss.call;
      && Distinct(k.ports) && ss.pos <= |k.ports|
      && (ss.awaiting ==> ss.pos < |k.ports| && Contacts(ss, ss.pos) && !WasFresh(ss, ss.pos) && ss.someStale)
      && (ss.committed ==> ss.pos == |k.ports|)
      && (k.c in ss.start && ss.thisStale == (ss.start[k.c].version != k.u.id))
      && (forall i :: 0 <= i < |k.ports| ==> k.ports[i] in ss.start)
      && (forall i :: (if ss.awaiting then ss.pos + 1 else ss.pos) <= i < |k.ports| ==> Untouched(s, i))
  }

  /** The two flags summarise the snapshot over the peers contacted so far. */
  ghost predicate FlagsOk(ss: Session) {
    ss.Updating? ==>
      && (ss.someFresh ==> exists i :: Contacts(ss, i) && WasFresh(ss, i))
      && (ss.someStale ==> exists i :: Contacts(ss, i) && !WasFresh(ss, i))
      && (forall i :: 0 <= i < ss.pos && Contacts(ss, i) ==> if WasFresh(ss, i) then ss.someFresh else ss.someStale)
  }

  lemma LoopBegin(s: State, step: Step)
    requires step.BeginUpdate? && Can(s, step) && Distinct(s.members)
    requires forall p :: p in s.members ==> p in s.replicas && p !in s.wire
    ensures LoopOk(Do(s, step)) && FlagsOk(Do(s, step).session)
  {
  }

  /** A peer that the loop has not come to is not written to. */
  lemma AheadUntouched(s: State, step: Step, i: nat)
    requires s.session.Updating? && LoopOk(s) && Can(s, step) && KeepsSession(step)
    requires (if Do(s, step).session.awaiting then s.session.pos + 1 else Do(s, step).session.pos) <= i
    requires i < |s.session.call.ports|
    ensures Untouched(Do(s, step), i)
  {
    assert Untouched(s, i);
  }

  lemma LoopStep(s: State, step: Step)
    requires s.session.Updating? && LoopOk(s) && Can(s, step) && KeepsSession(step)
    ensures LoopOk(Do(s, step))
  {
    var s', ss := Do(s, step), s.session;
    if step.Query? {
      assert Untouched(s, ss.pos);
      assert Contacts(s'.session, ss.pos);
    }
    forall i | (if s'.session.awaiting then s'.session.pos + 1 else s'.session.pos) <= i < |ss.call.ports|
      ensures Untouched(s', i)
    {
      AheadUntouched(s, step, i);
    }
  }

  lemma SameContacts(ss: Session, ss': Session)
    requires ss.Updating? && ss'.Updating? && ss'.call == ss.call && ss'.start == ss.start
    ensures forall i :: Contacts(ss', i) == Contacts(ss, i)
    ensures forall i | Contacts(ss, i) :: WasFresh(ss', i) == WasFresh(ss, i)
  {
  }

  lemma FlagsQuery(s: State, step: Step)
    requires s.session.Updating? && LoopOk(s) && FlagsOk(s.session) && Can(s, step) && step.Query?
    ensures FlagsOk(Do(s, step).session)
  {
    var ss, ss' := s.session, Do(s, step).session;
    assert Untouched(s, ss.pos);
    SameContacts(ss, ss');
    assert Contacts(ss', ss.pos) && (WasFresh(ss', ss.pos) <==> ss'.pos == ss.pos + 1);
  }

  lemma FlagsStep(s: State, step: Step)
    requires s.session.Updating? && LoopOk(s) && FlagsOk(s.session) && Can(s, step) && KeepsSession(step)
    ensures FlagsOk(Do(s, step).session)
  {
    if step.Query? {
      FlagsQuery(s, step);
    } else {
      SameContacts(s.session, Do(s, step).session);
    }
  }

  lemma {:induction false} FlagsRun(s: State, steps: seq<Step>)
    requires s.session.Updating? && LoopOk(s) && FlagsOk(s.session) && Executes(s, steps) && KeepsSessionAll(steps)
    ensures After(s, steps).session.Updating? && LoopOk(After(s, steps)) && FlagsOk(After(s, steps).session)
    decreases |steps|
  {
    if steps != [] {
      LoopStep(s, steps[0]);
      FlagsStep(s, steps[0]);
      FlagsRun(Do(s, steps[0]), steps[1..]);
    }
  }

  /**
   * A completed update's return value diagnoses the state it started from, whatever happens on the
   * wire meanwhile; 10 is never returned. The start has no frame in flight to a listed server.
   */
  lemma ReturnCodesDiagnose(s: State, k: Call, mid: seq<Step>)
    requires Distinct(s.members)
    requires forall p :: p in s.members ==> p in s.replicas && p !in s.wire
    requires Can(s, BeginUpdate(k)) && Executes(Do(s, BeginUpdate(k)), mid) && KeepsSessionAll(mid)
    requires Can(After(Do(s, BeginUpdate(k)), mid), FinishUpdate)
    ensures var end := Do(After(Do(s, BeginUpdate(k)), mid), FinishUpdate);
            var stale := s.replicas[k.c].version != k.u.id;
            && end.code.Some?
            && (end.code.value == 0 <==> stale && !SomePeer(s.replicas, k, true))
            && (end.code.value == 8 <==> stale && SomePeer(s.replicas, k, true))
            && (end.code.value == 9 <==> !stale && SomePeer(s.replicas, k, false))
            && (end.code.value == 6 <==> !stale && !SomePeer(s.replicas, k, false))
            && end.code.value != 10
  {
    var b := Do(s, BeginUpdate(k));
    var e := After(b, mid);
    LoopBegin(s, BeginUpdate(k));
    FlagsRun(b, mid);
    SessionFreezesMembership(b, mid);
    var ss := e.session;
    forall i | 0 <= i < |k.ports| && !Skips(k, i)
      ensures Contacts(ss, i) && (WasFresh(ss, i) <==> s.replicas[k.ports[i]].version == k.u.id)
    {
      assert k.ports[i] in s.members;
    }
    assert forall i | Contacts(ss, i) :: 0 <= i < |k.ports| && !Skips(k, i);
    assert ss.someFresh == SomePeer(s.replicas, k, true);
    assert ss.someStale == SomePeer(s.replicas, k, false);
  }

  // ---------- the coordinator commits last ----------

  /** Every peer contacted so far holds the id for good; the coordinator is stale until it commits. */
  ghost predicate LastOk(s: State) {
    var ss := s.session;
    ss.Updating? ==>
      var k := ss.call;
      && ss.thisStale && SkipsExactly(k) && ss.pos <= |k.ports| && k.ports == s.members
      && k.c in s.replicas && k.c !in s.wire
      && (ss.awaiting ==> ss.pos < |k.ports| && !Skips(k, ss.pos) && PushedTo(s, k.ports[ss.pos]))
      && (if ss.committed then ss.pos == |k.ports| && s.replicas[k.c].version == k.u.id
          else s.replicas[k.c].version != k.u.id)
      && (forall i :: 0 <= i < ss.pos && !Skips(k, i) ==> k.ports[i] !in s.wire && PushedTo(s, k.ports[i]))
  }

  ghost predicate PushedTo(s: State, p: Port)
    requires s.session.Updating?
  {
    if p in s.wire then s.wire[p] == s.session.call.u
    else p in s.replicas && s.replicas[p].version == s.session.call.u.id
  }

  lemma LastStep(s: State, step: Step)
    requires s.session.Updating? && LastOk(s) && Distinct(s.members) && Can(s, step) && KeepsSession(step)
    ensures LastOk(Do(s, step))
  {
    var s', k := Do(s, step), s.session.call;
    forall i | 0 <= i < s'.session.pos && !Skips(k, i)
      ensures k.ports[i] !in s'.wire && PushedTo(s', k.ports[i])
    {
      assert PushedTo(s, k.ports[i]);
    }
  }

  lemma {:induction false} LastRun(s: State, steps: seq<Step>)
    requires s.session.Updating? && LastOk(s) && Distinct(s.members) && Executes(s, steps) && KeepsSessionAll(steps)
    ensures After(s, steps).session.Updating? && LastOk(After(s, steps))
    decreases |steps|
  {
    if steps != [] {
      LastStep(s, steps[0]);
      LastRun(Do(s, steps[0]), steps[1..]);
    }
  }

  /** A call by a stale coordinator that passes over exactly that coordinator, where it is listed. */
  ghost predicate StaleStart(s: State, k: Call) {
    && Can(s, BeginUpdate(k)) && SkipsExactly(k)
    && s.replicas[k.c].version != k.u.id && k.c !in s.wire
  }

  /**
   * At every point of an attempt that starts with a stale coordinator, the coordinator holds the
   * new id only if every listed server does; the attempt returns 0 or 8; and an abort before the
   * local commit leaves the coordinator stale with nothing in flight to it.
   */
  lemma CoordinatorCommitsLast(s: State, k: Call, mid: seq<Step>)
    requires Distinct(s.members) && StaleStart(s, k)
    requires Executes(Do(s, BeginUpdate(k)), mid) && KeepsSessionAll(mid)
    ensures var e := After(Do(s, BeginUpdate(k)), mid);
            && e.session.Updating? && k.c in e.replicas && k.c !in e.wire
            && (e.replicas[k.c].version == k.u.id <==> e.session.committed)
            && (e.replicas[k.c].version == k.u.id ==>
                  forall p :: p in s.members ==> p in e.replicas && e.replicas[p].version == k.u.id)
            && (Can(e, FinishUpdate) ==> Do(e, FinishUpdate).code in {Some(0), Some(8)})
            && (!e.session.committed ==> Do(e, Abort).replicas[k.c].version != k.u.id)
  {
    var b := Do(s, BeginUpdate(k));
    LastRun(b, mid);
    SessionFreezesMembership(b, mid);
    var e := After(b, mid);
    if e.session.committed {
      forall p | p in s.members ensures p in e.replicas && e.replicas[p].version == k.u.id {
        var i :| 0 <= i < |k.ports| && k.ports[i] == p;
        assert !Skips(k, i) ==> PushedTo(e, k.ports[i]);
      }
    }
  }

  /** Steps that cannot write to `c`: no coordinator is at work and `c` is not the one joining. */
  ghost predicate LeavesAlone(step: Step, c: Port) {
    match step
    case BeginUpdate(_) => false
    case BeginJoin(j) => j != c
    case _ => true
  }

  lemma {:induction false} BetweenAttempts(s: State, steps: seq<Step>, c: Port)
    requires !s.session.Updating? && (s.session.Joining? ==> s.session.joiner != c)
    requires c in s.replicas && c !in s.wire && Executes(s, steps)
    requires forall i :: 0 <= i < |steps| ==> LeavesAlone(steps[i], c)
    ensures c in After(s, steps).replicas && After(s, steps).replicas[c] == s.replicas[c] && c !in After(s, steps).wire
    decreases |steps|
  {
    if steps != [] {
      assert LeavesAlone(steps[0], c);
      BetweenAttempts(Do(s, steps[0]), steps[1..], c);
    }
  }

  /** The start of one attempt, the whole of it up to an abort, and what other servers do before the retry. */
  ghost predicate AbortedAttempt(s: State, k: Call, mid: seq<Step>, between: seq<Step>) {
    && StaleStart(s, k) && Executes(Do(s, BeginUpdate(k)), mid) && KeepsSessionAll(mid)
    && var e := After(Do(s, BeginUpdate(k)), mid);
    && e.session.Updating? && !e.session.committed
    && Executes(Do(e, Abort), between)
    && forall i :: 0 <= i < |between| ==> LeavesAlone(between[i], k.c)
  }

  /**
   * A retry by a coordinator whose first attempt stopped before its local commit, on whatever list
   * and skipping whomever, never returns 6 or 9.
   */
  lemma RetryNeverFindsItselfFresh(s: State, k: Call, mid: seq<Step>, between: seq<Step>, k': Call, mid': seq<Step>)
    requires Distinct(s.members) && AbortedAttempt(s, k, mid, between) && k'.c == k.c && k'.u == k.u
    requires var r := After(Do(After(Do(s, BeginUpdate(k)), mid), Abort), between);
             && Can(r, BeginUpdate(k')) && Executes(Do(r, BeginUpdate(k')), mid') && KeepsSessionAll(mid')
             && Can(After(Do(r, BeginUpdate(k')), mid'), FinishUpdate)
    ensures var r := After(Do(After(Do(s, BeginUpdate(k)), mid), Abort), between);
            var end := Do(After(Do(r, BeginUpdate(k')), mid'), FinishUpdate);
            end.code != Some(6) && end.code != Some(9)
  {
    CoordinatorCommitsLast(s, k, mid);
    var e := After(Do(s, BeginUpdate(k)), mid);
    BetweenAttempts(Do(e, Abort), between, k.c);
    var r := After(Do(e, Abort), between);
    SessionFreezesMembership(Do(r, BeginUpdate(k')), mid');
  }
}
