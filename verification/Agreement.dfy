/** Replica agreement, recovery of interrupted updates, and joins that miss nothing, over every run. */
module Agreement {
  import opened Bytes
  import opened Replicas
  import opened Wire
  import opened Protocol
  import opened Diagnosis

  ghost predicate UpToDate(s: State, p: Port) {
    p in s.replicas && s.replicas[p] == Newest(s)
  }

  ghost predicate OneBehind(s: State, p: Port) {
    s.history != [] && p in s.replicas && s.replicas[p] == Previous(s)
  }

  /** `p` holds the newest replica or, while the newest update is unsettled, the one before it. */
  ghost predicate TwoState(s: State, p: Port) {
    UpToDate(s, p) || (!s.settled && OneBehind(s, p))
  }

  /** A frame in flight to `p` either carries the newest update or is a repeat that changes nothing. */
  ghost predicate FrameHarmless(s: State, p: Port)
    requires p in s.wire
  {
    && s.history != []
    && (s.wire[p] == Current(s)
        || (!s.settled && OneBehind(s, p) && Apply(s.wire[p], s.replicas[p]) == s.replicas[p]))
  }

  ghost predicate MembersOk(s: State) {
    && Distinct(s.members)
    && (forall p :: p in s.members ==> TwoState(s, p))
    && (forall p :: p in s.members && p in s.wire ==> FrameHarmless(s, p))
  }

  ghost predicate HistoryOk(s: State) {
    if s.history == [] then s.settled else Current(s).id != Previous(s).version
  }

  /** What holds while an update session is open: everything contacted so far is up to date. */
  ghost predicate UpdatingOk(s: State) {
    var ss := s.session;
    ss.Updating? ==>
      var k := ss.call;
      && s.history != [] && k.u == Current(s) && k.ports == s.members && ss.pos <= |k.ports|
      && (ss.awaiting ==> ss.pos < |k.ports| && AwaitedOk(s, k.ports[ss.pos]))
      && (ss.committed ==> ss.pos == |k.ports|)
      && (k.c in s.wire ==> s.wire[k.c] == k.u)
      && (forall i :: 0 <= i < ss.pos && !Skips(k, i) ==> UpToDate(s, k.ports[i]))
      && (k.c in s.members && (!ss.thisStale || ss.committed) ==> UpToDate(s, k.c))
  }

  /** The peer being waited for has the frame in flight or has applied it. */
  ghost predicate AwaitedOk(s: State, p: Port)
    requires s.history != []
  {
    if p in s.wire then s.wire[p] == Current(s) else UpToDate(s, p)
  }

  /** What holds during a join: the joiner is unlisted, and after the copy it holds what the transfer carried. */
  ghost predicate JoiningOk(s: State) {
    var ss := s.session;
    ss.Joining? ==>
      && ss.donors == s.members && ss.joiner in s.replicas
      && ss.joiner !in s.members && ss.joiner !in s.wire
      && (ss.donor.Some? ==>
            && ss.donor.value in s.members && ss.donor.value in s.replicas && ss.donor.value !in s.wire
            && Copied(s.replicas[ss.joiner], s.replicas[ss.donor.value]))
  }

  /** `copy` is `donor` up to 255 entries, and above that at least 256 entries are missing. */
  ghost predicate Copied(copy: Replica, donor: Replica) {
    if |donor.table| <= 255 then copy == donor else |copy.table| + 0x100 <= |donor.table|
  }

  ghost predicate Inv(s: State) {
    HistoryOk(s) && MembersOk(s) && UpdatingOk(s) && JoiningOk(s)
  }

  lemma NewestIsCurrentApplied(s: State)
    requires s.history != []
    ensures Newest(s) == Apply(Current(s), Previous(s))
    ensures Apply(Current(s), Newest(s)) == Newest(s)
  {
  }

  lemma InvInit(s: State)
    requires Init(s)
    ensures Inv(s)
  {
  }

  lemma InvBeginRetry(s: State, step: Step)
    requires Inv(s) && step.BeginUpdate? && Can(s, step) && Orderly(s, step)
    requires s.history != [] && step.k.u == Current(s)
    ensures Inv(Do(s, step))
  {
  }

  /** Beginning a different update makes what was newest the previous level, and moves nothing else. */
  lemma BeginNewLevels(s: State, step: Step)
    requires step.BeginUpdate? && Can(s, step) && !(s.history != [] && step.k.u == Current(s))
    ensures var s' := Do(s, step);
            && s'.history != [] && Current(s') == step.k.u && Previous(s') == Newest(s)
            && s.settled && !s'.settled && step.k.u.id != Newest(s).version
            && s'.members == s.members && s'.replicas == s.replicas && s'.wire == s.wire
  {
  }

  lemma BeginNewMembers(s: State, s': State)
    requires MembersOk(s) && s.settled && !s'.settled && s'.history != [] && Previous(s') == Newest(s)
    requires s'.members == s.members && s'.replicas == s.replicas && s'.wire == s.wire
    ensures MembersOk(s')
  {
  }

  lemma InvBeginNew(s: State, step: Step)
    requires Inv(s) && step.BeginUpdate? && Can(s, step) && Orderly(s, step)
    requires !(s.history != [] && step.k.u == Current(s))
    ensures Inv(Do(s, step))
  {
    var s' := Do(s, step);
    BeginNewLevels(s, step);
    BeginNewMembers(s, s');
    if step.k.c in s.members {
      assert TwoState(s, step.k.c);
    }
    assert UpdatingOk(s');
  }

  /** A delivered frame moves a listed server to the newest level or nowhere. */
  lemma DeliverMembers(s: State, step: Step)
    requires Inv(s) && step.Deliver? && Can(s, step)
    ensures MembersOk(Do(s, step))
    ensures forall q :: q in s.members && UpToDate(s, q) ==> UpToDate(Do(s, step), q)
  {
    var s', p := Do(s, step), step.p;
    if s.history != [] {
      NewestIsCurrentApplied(s);
    }
    if p in s.members {
      assert TwoState(s, p) && FrameHarmless(s, p);
    }
    forall q | q in s'.members ensures TwoState(s', q) {
      assert TwoState(s, q);
    }
    forall q | q in s'.members && q in s'.wire ensures FrameHarmless(s', q) {
      assert FrameHarmless(s, q);
    }
  }

  lemma DeliverUpdating(s: State, step: Step)
    requires Inv(s) && step.Deliver? && Can(s, step) && s.session.Updating?
    ensures UpdatingOk(Do(s, step))
  {
    var s', ss := Do(s, step), s.session;
    NewestIsCurrentApplied(s);
    DeliverMembers(s, step);
    forall i | 0 <= i < ss.pos && !Skips(ss.call, i) ensures UpToDate(s', ss.call.ports[i]) {
      assert ss.call.ports[i] in s.members;
    }
    if ss.awaiting {
      assert AwaitedOk(s', ss.call.ports[ss.pos]);
    }
  }

  lemma InvDeliver(s: State, step: Step)
    requires Inv(s) && step.Deliver? && Can(s, step)
    ensures Inv(Do(s, step))
  {
    DeliverMembers(s, step);
    if s.session.Updating? {
      DeliverUpdating(s, step);
    }
  }

  lemma InvQuery(s: State, step: Step)
    requires Inv(s) && step.Query? && Can(s, step)
    ensures Inv(Do(s, step))
  {
    var s', ss := Do(s, step), s.session;
    NewestIsCurrentApplied(s);
    assert TwoState(s, ss.call.ports[ss.pos]);
    assert forall p :: UpToDate(s', p) == UpToDate(s, p);
    forall p | p in s'.members ensures TwoState(s', p) {
      assert TwoState(s, p);
    }
    forall p | p in s'.members && p in s'.wire ensures FrameHarmless(s', p) {
      assert p in s.wire ==> FrameHarmless(s, p);
    }
  }

  /** The steps of an update session that leave every replica and the wire alone. */
  lemma InvQuietStep(s: State, step: Step)
    requires Inv(s) && Can(s, step)
    requires step.Skip? || step.PushDone? || step.Abort?
    ensures Inv(Do(s, step))
  {
  }

  lemma InvCommit(s: State, step: Step)
    requires Inv(s) && step.CommitLocal? && Can(s, step)
    ensures Inv(Do(s, step))
  {
    var s', c := Do(s, step), s.session.call.c;
    NewestIsCurrentApplied(s);
    if c in s.members {
      assert TwoState(s, c);
      assert UpToDate(s', c);
    }
    forall p | p in s'.members ensures TwoState(s', p) {
      assert TwoState(s, p);
    }
    forall p | p in s'.members && p in s'.wire ensures FrameHarmless(s', p) {
      assert FrameHarmless(s, p);
    }
  }

  /** A completed attempt that skipped no peer leaves every listed server up to date. */
  lemma FinishSettles(s: State)
    requires Inv(s) && Can(s, FinishUpdate) && SkipsNoPeer(s.session.call)
    ensures forall p :: p in s.members ==> UpToDate(s, p)
  {
  }

  lemma InvFinish(s: State, step: Step)
    requires Inv(s) && step.FinishUpdate? && Can(s, step)
    ensures Inv(Do(s, step))
  {
  }

  /** Steps that leave the listed servers' replicas, the bookkeeping and the list alone. */
  lemma InvUnlisted(s: State, step: Step)
    requires Inv(s) && Can(s, step)
    requires step.Boot? || step.Drop? || step.DonorFails?
    ensures Inv(Do(s, step))
  {
    var s' := Do(s, step);
    forall p | p in s.members
      ensures p in s.replicas && p in s'.replicas && s'.replicas[p] == s.replicas[p]
      ensures TwoState(s', p) && UpToDate(s', p) == UpToDate(s, p)
    {
      assert TwoState(s, p);
    }
    forall p | p in s'.members && p in s'.wire ensures FrameHarmless(s', p) {
      assert FrameHarmless(s, p);
    }
  }

  /** The two levels can be sent, entry by entry. */
  lemma LevelsTransferable(s: State)
    requires Transferable(s.base.table)
    ensures Transferable(Newest(s).table) && (s.history != [] ==> Transferable(Previous(s).table))
  {
    ReplayTransferable(s.base, s.history);
    if s.history != [] {
      ReplayTransferable(s.base, s.history[..|s.history| - 1]);
    }
  }

  lemma CopyIsCopied(order: seq<bytes>, donor: Replica)
    requires Transferable(donor.table) && IsOrder(order, donor.table)
    ensures Copy(order, donor).Some? && Copied(Copy(order, donor).value, donor)
  {
    TransferExact(order, donor);
  }

  /** What a listed server sends can be received, and is received as `Copied` says. */
  lemma MemberCopied(s: State, p: Port, order: seq<bytes>)
    requires Inv(s) && Transferable(s.base.table)
    requires p in s.members && p in s.replicas && IsOrder(order, s.replicas[p].table)
    ensures Copy(order, s.replicas[p]).Some? && Copied(Copy(order, s.replicas[p]).value, s.replicas[p])
  {
    LevelsTransferable(s);
    assert TwoState(s, p);
    CopyIsCopied(order, s.replicas[p]);
  }

  lemma InvDonorCopies(s: State, step: Step)
    requires Inv(s) && Transferable(s.base.table) && Can(s, step) && step.DonorCopies?
    ensures Inv(Do(s, step))
  {
    var s', ss := Do(s, step), s.session;
    MemberCopied(s, ss.donors[ss.tried], step.order);
    forall p | p in s.members
      ensures p in s.replicas && p in s'.replicas && s'.replicas[p] == s.replicas[p]
      ensures TwoState(s', p) && UpToDate(s', p) == UpToDate(s, p)
    {
      assert TwoState(s, p);
    }
    forall p | p in s'.members && p in s'.wire ensures FrameHarmless(s', p) {
      assert FrameHarmless(s, p);
    }
  }

  /** A new server that holds what some listed one holds fits into the list. */
  lemma ListedLike(s: State, s': State, j: Port, d: Port)
    requires HistoryOk(s) && MembersOk(s) && j !in s.members && j !in s.wire && d in s.members && j in s.replicas
    requires d in s.replicas && s.replicas[j] == s.replicas[d]
    requires s' == s.(session := Closed, members := s.members + [j])
    ensures Inv(s')
  {
    assert TwoState(s, d);
    forall p | p in s.members ensures TwoState(s', p) {
      assert TwoState(s, p);
    }
    forall p | p in s'.members && p in s'.wire ensures FrameHarmless(s', p) {
      assert FrameHarmless(s, p);
    }
  }

  lemma InvHandOver(s: State, step: Step)
    requires Inv(s) && Can(s, step) && step.HandOver? && CopiedFew(s)
    ensures Inv(Do(s, step))
  {
    ListedLike(s, Do(s, step), s.session.joiner, s.session.donor.value);
  }

  /** What is 256 entries short of a listed server's table is neither level. */
  lemma ShortIsNoLevel(s: State, d: Port, got: Replica)
    requires TwoState(s, d) && |got.table| + 0x100 <= |s.replicas[d].table|
    ensures got != Newest(s) && (s.history != [] ==> got != Previous(s))
  {
    if s.history != [] {
      NewestIsCurrentApplied(s);
      ApplySize(Current(s), Previous(s));
    }
  }

  /** Steps that open or give up a join, or shorten the list. */
  lemma InvMembership(s: State, step: Step)
    requires Inv(s) && Can(s, step) && Orderly(s, step)
    requires step.BeginJoin? || step.GiveUp? || step.RemoveServer?
    ensures Inv(Do(s, step))
  {
    var s' := Do(s, step);
    forall p | p in s'.members ensures TwoState(s', p) {
      assert TwoState(s, p);
    }
    forall p | p in s'.members && p in s'.wire ensures FrameHarmless(s', p) {
      assert FrameHarmless(s, p);
    }
  }

  lemma InvStep(s: State, step: Step)
    requires Inv(s) && Can(s, step) && Orderly(s, step)
    requires step.DonorCopies? ==> Transferable(s.base.table)
    ensures Inv(Do(s, step))
  {
    match step
    case BeginUpdate(k) =>
      if s.history != [] && k.u == Current(s) {
        InvBeginRetry(s, step);
      } else {
        InvBeginNew(s, step);
      }
    case Deliver(_) => InvDeliver(s, step);
    case Query => InvQuery(s, step);
    case Skip => InvQuietStep(s, step);
    case PushDone => InvQuietStep(s, step);
    case Abort => InvQuietStep(s, step);
    case CommitLocal => InvCommit(s, step);
    case FinishUpdate => InvFinish(s, step);
    case Boot(_) => InvUnlisted(s, step);
    case Drop(_) => InvUnlisted(s, step);
    case DonorFails(_) => InvUnlisted(s, step);
    case DonorCopies(_) => InvDonorCopies(s, step);
    case HandOver => InvHandOver(s, step);
    case _ => InvMembership(s, step);
  }

  lemma {:induction false} InvRun(s: State, steps: seq<Step>)
    requires Inv(s) && Transferable(s.base.table) && Executes(s, steps) && OrderlyRun(s, steps)
    ensures Inv(After(s, steps))
    decreases |steps|
  {
    if steps != [] {
      InvStep(s, steps[0]);
      InvRun(Do(s, steps[0]), steps[1..]);
    }
  }

  // ---------- statements about runs, from the steps alone ----------

  /** The updates begun by `steps` after those in `h`; a retry of the newest one is not a new one. */
  ghost function Begun(h: seq<Pushable>, steps: seq<Step>): seq<Pushable>
    decreases |steps|
  {
    if steps == [] then h else Begun(BegunBy(h, steps[0]), steps[1..])
  }

  ghost function BegunBy(h: seq<Pushable>, step: Step): seq<Pushable> {
    match step
    case BeginUpdate(k) => if h != [] && k.u == h[|h| - 1] then h else h + [k.u]
    case _ => h
  }

  lemma {:induction false} HistoryIsBegun(s: State, steps: seq<Step>)
    requires Executes(s, steps)
    ensures After(s, steps).history == Begun(s.history, steps) && After(s, steps).base == s.base
    decreases |steps|
  {
    if steps != [] {
      HistoryIsBegun(Do(s, steps[0]), steps[1..]);
    }
  }

  /** They are those that some step begins, oldest first, and no two next to each other are the same. */
  lemma {:induction false} BegunAre(h: seq<Pushable>, steps: seq<Step>)
    requires forall i :: 0 <= i < |h| - 1 ==> h[i] != h[i + 1]
    ensures var us := Begun(h, steps);
            && h <= us && (forall i :: 0 <= i < |us| - 1 ==> us[i] != us[i + 1])
            && (forall u :: u in us ==>
                  u in h || exists i :: 0 <= i < |steps| && steps[i].BeginUpdate? && steps[i].k.u == u)
            && (forall i :: 0 <= i < |steps| && steps[i].BeginUpdate? ==> steps[i].k.u in us)
    decreases |steps|
  {
    if steps != [] {
      var h', us := BegunBy(h, steps[0]), Begun(h, steps);
      assert steps[0].BeginUpdate? ==> h' != [] && h'[|h'| - 1] == steps[0].k.u;
      BegunAre(h', steps[1..]);
      forall i | 0 <= i < |steps| && steps[i].BeginUpdate? ensures steps[i].k.u in us {
        if i == 0 {
          assert us[|h'| - 1] == h'[|h'| - 1];
        } else {
          assert steps[i] == steps[1..][i - 1];
        }
      }
      forall u | u in us && u !in h ensures exists i :: 0 <= i < |steps| && steps[i].BeginUpdate? && steps[i].k.u == u {
        if u !in h' {
          var i :| 0 <= i < |steps[1..]| && steps[1..][i].BeginUpdate? && steps[1..][i].k.u == u;
          assert steps[i + 1] == steps[1..][i];
        }
      }
    }
  }

  /** No update other than `u` is begun. */
  ghost predicate OnlyRetries(steps: seq<Step>, u: Update) {
    forall i :: 0 <= i < |steps| && steps[i].BeginUpdate? ==> steps[i].k.u == u
  }

  lemma {:induction false} StaysSettled(s: State, steps: seq<Step>)
    requires s.settled && s.history != [] && Executes(s, steps) && OnlyRetries(steps, Current(s))
    ensures After(s, steps).settled && After(s, steps).history == s.history
    decreases |steps|
  {
    if steps != [] {
      assert steps[0].BeginUpdate? ==> steps[0].k.u == Current(s);
      StaysSettled(Do(s, steps[0]), steps[1..]);
    }
  }

  /** What an update session leaves that completes without skipping a peer, until a different update is begun. */
  lemma AllHoldTheFold(s: State, pre: seq<Step>, post: seq<Step>)
    requires Init(s) && Executes(s, pre) && OrderlyRun(s, pre)
    requires Can(After(s, pre), FinishUpdate) && SkipsNoPeer(After(s, pre).session.call)
    requires var m := Do(After(s, pre), FinishUpdate); Executes(m, post) && OrderlyRun(m, post)
    requires OnlyRetries(post, After(s, pre).session.call.u)
    ensures var e, us := After(Do(After(s, pre), FinishUpdate), post), Begun([], pre);
            && us != [] && us[|us| - 1] == After(s, pre).session.call.u
            && forall p :: p in e.members ==> p in e.replicas && e.replicas[p] == Replay(s.base, us)
  {
    InvInit(s);
    InvRun(s, pre);
    var m := After(s, pre);
    HistoryIsBegun(s, pre);
    InvFinish(m, FinishUpdate);
    StaysSettled(Do(m, FinishUpdate), post);
    HistoryIsBegun(Do(m, FinishUpdate), post);
    InvRun(Do(m, FinishUpdate), post);
    var e := After(Do(m, FinishUpdate), post);
    forall p | p in e.members ensures p in e.replicas && e.replicas[p] == Replay(s.base, Begun([], pre)) {
      assert TwoState(e, p);
    }
  }

  /**
   * Replica agreement. Once an update session completes without skipping a peer, and until a
   * different update is begun, every listed server maps each domain to the address that the last
   * update naming it gave, lacks it if that update removed it, has it as at the start if none named
   * it, and is at the newest id, whatever joins, removals, retries, aborts and late deliveries
   * happened before or happen since.
   */
  lemma ReplicaAgreement(s: State, pre: seq<Step>, post: seq<Step>)
    requires Init(s) && Executes(s, pre) && OrderlyRun(s, pre)
    requires Can(After(s, pre), FinishUpdate) && SkipsNoPeer(After(s, pre).session.call)
    requires var m := Do(After(s, pre), FinishUpdate); Executes(m, post) && OrderlyRun(m, post)
    requires OnlyRetries(post, After(s, pre).session.call.u)
    ensures var e, us := After(Do(After(s, pre), FinishUpdate), post), Begun([], pre);
            forall p :: p in e.members ==>
              && p in e.replicas && e.replicas[p].version == After(s, pre).session.call.u.id
              && forall d: bytes ::
                   var t, m := e.replicas[p].table, LastNaming(us, d);
                   && (d in t <==> if m == 0 then d in s.base.table else !us[m - 1].remove)
                   && (d in t ==> t[d] == if m == 0 then s.base.table[d] else us[m - 1].ip)
  {
    AllHoldTheFold(s, pre, post);
    FoldMeans(s.base, Begun([], pre), Replay(s.base, Begun([], pre)).table);
  }

  lemma FoldMeans(base: Replica, us: seq<Update>, t: Table)
    requires us != [] && t == Replay(base, us).table
    ensures Replay(base, us).version == us[|us| - 1].id
    ensures forall d: bytes ::
              d in t <==> if LastNaming(us, d) == 0 then d in base.table else !us[LastNaming(us, d) - 1].remove
    ensures forall d: bytes ::
              d in t ==> t[d] == if LastNaming(us, d) == 0 then base.table[d] else us[LastNaming(us, d) - 1].ip
  {
    ReplayMeans(base, us, []);
    forall d: bytes
      ensures d in t <==> if LastNaming(us, d) == 0 then d in base.table else !us[LastNaming(us, d) - 1].remove
    {
      ReplayMeans(base, us, d);
    }
    forall d: bytes | d in t
      ensures t[d] == if LastNaming(us, d) == 0 then base.table[d] else us[LastNaming(us, d) - 1].ip
    {
      ReplayMeans(base, us, d);
    }
  }

  /**
   * Recovery. However often, by whomever and at whatever point attempts at the newest update `u`
   * were cut short, each listed server holds exactly one of two replicas: the one from before `u`,
   * or that one with `u` applied. The first attempt that completes leaves only the second.
   */
  lemma InterruptedUpdateRecovers(s: State, steps: seq<Step>)
    requires Init(s) && Executes(s, steps) && OrderlyRun(s, steps) && Begun([], steps) != []
    ensures var e, h := After(s, steps), Begun([], steps);
            var u, before := h[|h| - 1], Replay(s.base, h[..|h| - 1]);
            && u.id != before.version
            && (forall p :: p in e.members ==> p in e.replicas && e.replicas[p] in {before, Apply(u, before)})
            && (Can(e, FinishUpdate) && SkipsNoPeer(e.session.call) ==>
                  e.session.call.u == u && forall p :: p in e.members ==> e.replicas[p] == Apply(u, before))
  {
    InvInit(s);
    InvRun(s, steps);
    HistoryIsBegun(s, steps);
    var e := After(s, steps);
    forall p | p in e.members ensures p in e.replicas && e.replicas[p] in {Previous(e), Newest(e)} {
      assert TwoState(e, p);
    }
    if Can(e, FinishUpdate) && SkipsNoPeer(e.session.call) {
      FinishSettles(e);
    }
  }

  /** Every listed server holds the fold of `h` or, when `h` may not have settled, that of all but its last update. */
  ghost predicate AllHold(s: State, base: Replica, h: seq<Pushable>) {
    forall p :: p in s.members ==>
      && p in s.replicas
      && (s.replicas[p] == Replay(base, h)
          || (!s.settled && h != [] && s.replicas[p] == Replay(base, h[..|h| - 1])))
  }

  /**
   * No update is missed at a join, exactly when the donor's table has at most 255 entries. Whenever
   * the router is about to add a joiner, its donor is still listed and holds every update before
   * the newest, and the newest too if an attempt at it has completed without skipping a peer. The
   * joiner equals that donor, and all servers listed afterwards agree again in that sense, if and
   * only if the 8-bit count can announce the donor's table.
   */
  lemma JoinMissesNothing(s: State, steps: seq<Step>)
    requires Init(s) && Executes(s, steps) && OrderlyRun(s, steps) && Can(After(s, steps), HandOver)
    ensures var e, h := After(s, steps), Begun([], steps);
            var j, donor := e.session.joiner, e.session.donor.value;
            && AllHold(e, s.base, h) && donor in e.members && j !in e.members && j in e.replicas
            && (e.replicas[j] == e.replicas[donor] <==> |e.replicas[donor].table| <= 255)
            && (AllHold(Do(e, HandOver), s.base, h) <==> |e.replicas[donor].table| <= 255)
            && Do(e, HandOver).members == e.members + [j] && Distinct(e.members + [j])
  {
    InvInit(s);
    InvRun(s, steps);
    HistoryIsBegun(s, steps);
    var e := After(s, steps);
    AllHoldIsTwoState(e);
    JoinerIsNew(e);
    HandOverAgrees(e);
  }

  lemma JoinerIsNew(e: State)
    requires Inv(e) && Can(e, HandOver)
    ensures var j, donor := e.session.joiner, e.session.donor.value;
            && donor in e.members && j !in e.members && j in e.replicas && donor in e.replicas
            && (e.replicas[j] == e.replicas[donor] <==> |e.replicas[donor].table| <= 255)
            && (CopiedFew(e) <==> |e.replicas[donor].table| <= 255)
            && Do(e, HandOver).members == e.members + [j] && Distinct(e.members + [j])
  {
  }

  lemma HandOverAgrees(e: State)
    requires Inv(e) && Can(e, HandOver)
    ensures AllHold(Do(e, HandOver), e.base, e.history) <==> CopiedFew(e)
  {
    var e', j := Do(e, HandOver), e.session.joiner;
    AllHoldIsTwoState(e');
    if CopiedFew(e) {
      InvHandOver(e, HandOver);
    } else {
      ShortIsNoLevel(e, e.session.donor.value, e.replicas[j]);
      assert j in e'.members && TwoState(e', j) == TwoState(e, j);
    }
  }

  lemma AllHoldIsTwoState(s: State)
    ensures AllHold(s, s.base, s.history) <==> forall p :: p in s.members ==> TwoState(s, p)
  {
  }

  /** After a listed server's replica becomes `got` and it is listed again, the list agrees if `got` is a level. */
  lemma RelistAgrees(s: State, j: Port, got: Replica)
    requires AllHold(s, s.base, s.history) && j in s.members
    ensures var s' := s.(replicas := s.replicas[j := got], members := s.members + [j]);
            AllHold(s', s.base, s.history) <==> IsLevel(s, got)
  {
    var s' := s.(replicas := s.replicas[j := got], members := s.members + [j]);
    assert s'.members[|s.members|] == j;
    assert j in s'.members && s'.replicas[j] == got;
    assert AllHold(s', s.base, s.history) ==> IsLevel(s, got);
    assert forall p :: p in s'.members ==> p in s.members;
  }

  ghost predicate IsLevel(s: State, r: Replica) {
    r == Newest(s) || (!s.settled && s.history != [] && r == Previous(s))
  }

  lemma CopiedLevel(s: State, j: Port, d: Port, got: Replica)
    requires HistoryOk(s) && TwoState(s, d) && Copied(got, Sent(s.replicas, j, d))
    ensures IsLevel(s, got) <==> if d == j then s.replicas[d].table == map[] else |s.replicas[d].table| <= 255
  {
    var r := s.replicas[d];
    if d == j {
      assert got == Replica(map[], r.version);
      assert IsLevel(s, got) ==> got == r;
    } else if |r.table| > 255 {
      ShortIsNoLevel(s, d, got);
    }
  }

  /**
   * A server that is still listed and joins again is listed twice. If it copies another server, the list
   * agrees afterwards exactly when the count can announce that table; if it asks itself first, exactly
   * when its table was empty anyway.
   */
  lemma RejoinAgrees(s: State, j: Port, d: Port, order: seq<bytes>, got: Replica)
    requires Inv(s) && Transferable(s.base.table) && j in s.members && d in s.members && d in s.replicas
    requires IsOrder(order, Sent(s.replicas, j, d).table) && Copy(order, Sent(s.replicas, j, d)) == Some(got)
    ensures var s' := s.(replicas := s.replicas[j := got], members := s.members + [j]);
            && !Distinct(s'.members)
            && (AllHold(s', s.base, s.history)
                <==> if d == j then s.replicas[d].table == map[] else |s.replicas[d].table| <= 255)
  {
    LevelsTransferable(s);
    assert TwoState(s, d);
    CopyIsCopied(order, Sent(s.replicas, j, d));
    CopiedLevel(s, j, d, got);
    AllHoldIsTwoState(s);
    RelistAgrees(s, j, got);
    ListedTwice(s.members, j);
  }

  lemma ListedTwice(ps: seq<Port>, p: Port)
    requires p in ps
    ensures !Distinct(ps + [p])
  {
    var i :| 0 <= i < |ps| && ps[i] == p;
    assert (ps + [p])[i] == (ps + [p])[|ps|];
  }

  /**
   * Along every such run the byte formats carry what the steps carry: each frame in flight is read
   * back as the update it was made from, whatever follows it in the buffer, and every listed server
   * can serve a joiner, in whatever order its hash table is walked.
   */
  lemma FormatsCarryTheRun(s: State, steps: seq<Step>)
    requires Init(s) && Executes(s, steps) && OrderlyRun(s, steps)
    ensures var e := After(s, steps);
            && (forall p, junk: bytes :: p in e.wire ==> ParseFrame(Frame(e.wire[p]) + junk) == Some(e.wire[p]))
            && (forall p :: p in e.members ==> p in e.replicas && Transferable(e.replicas[p].table))
            && (forall p, order :: p in e.members && IsOrder(order, e.replicas[p].table) ==>
                  Copy(order, e.replicas[p]).Some?)
  {
    InvInit(s);
    InvRun(s, steps);
    HistoryIsBegun(s, steps);
    var e := After(s, steps);
    LevelsTransferable(e);
    forall p | p in e.members ensures p in e.replicas && Transferable(e.replicas[p].table) {
      assert TwoState(e, p);
    }
    forall p, order | p in e.members && IsOrder(order, e.replicas[p].table)
      ensures Copy(order, e.replicas[p]).Some?
    {
      MemberCopied(e, p, order);
    }
    forall p, junk: bytes | p in e.wire ensures ParseFrame(Frame(e.wire[p]) + junk) == Some(e.wire[p]) {
      FrameRoundTrip(e.wire[p], junk);
    }
  }

  // ---------- a coordinator outside the list ----------

  /** The coordinator, listed or not, holds one of the two levels, and the newest once it has committed. */
  ghost predicate CoordinatorOk(s: State) {
    var ss := s.session;
    ss.Updating? ==>
      var k := ss.call;
      && s.history != [] && k.u == Current(s) && Current(s).id != Previous(s).version && k.c in s.replicas
      && (UpToDate(s, k.c) || OneBehind(s, k.c))
      && (k.c in s.wire ==> s.wire[k.c] == k.u)
      && (!ss.thisStale || ss.committed ==> UpToDate(s, k.c))
  }

  lemma CoordinatorDeliver(s: State, step: Step)
    requires s.session.Updating? && CoordinatorOk(s) && Can(s, step) && step.Deliver?
    ensures CoordinatorOk(Do(s, step))
  {
    NewestIsCurrentApplied(s);
  }

  lemma CoordinatorCommit(s: State, step: Step)
    requires s.session.Updating? && CoordinatorOk(s) && Can(s, step) && step.CommitLocal?
    ensures CoordinatorOk(Do(s, step))
  {
    NewestIsCurrentApplied(s);
  }

  lemma CoordinatorStep(s: State, step: Step)
    requires s.session.Updating? && CoordinatorOk(s) && Can(s, step) && KeepsSession(step)
    ensures CoordinatorOk(Do(s, step))
  {
    if step.Deliver? {
      CoordinatorDeliver(s, step);
    } else if step.CommitLocal? {
      CoordinatorCommit(s, step);
    } else {
      var s', c := Do(s, step), s.session.call.c;
      SessionStep(s, step);
      assert s'.base == s.base && s'.history == s.history && s'.replicas[c] == s.replicas[c];
    }
  }

  lemma {:induction false} CoordinatorRun(s: State, steps: seq<Step>)
    requires s.session.Updating? && CoordinatorOk(s) && Executes(s, steps) && KeepsSessionAll(steps)
    ensures After(s, steps).session.Updating? && CoordinatorOk(After(s, steps))
    decreases |steps|
  {
    if steps != [] {
      CoordinatorStep(s, steps[0]);
      CoordinatorRun(Do(s, steps[0]), steps[1..]);
    }
  }

  lemma CoordinatorBegins(a: State, k: Call)
    requires Inv(a) && Can(a, BeginUpdate(k)) && Orderly(a, BeginUpdate(k))
    requires var b := Do(a, BeginUpdate(k)); UpToDate(b, k.c) || OneBehind(b, k.c)
    ensures CoordinatorOk(Do(a, BeginUpdate(k)))
  {
    InvStep(a, BeginUpdate(k));
    NewestIsCurrentApplied(Do(a, BeginUpdate(k)));
  }

  /**
   * An attempt brings its coordinator up to date as well, even one the router does not list,
   * provided it started from one of the two replicas that the listed servers hold.
   */
  lemma CoordinatorEndsUpToDate(s: State, pre: seq<Step>, k: Call, mid: seq<Step>)
    requires Init(s) && Executes(s, pre) && OrderlyRun(s, pre)
    requires Can(After(s, pre), BeginUpdate(k)) && Orderly(After(s, pre), BeginUpdate(k))
    requires var b := Do(After(s, pre), BeginUpdate(k)); UpToDate(b, k.c) || OneBehind(b, k.c)
    requires Executes(Do(After(s, pre), BeginUpdate(k)), mid) && KeepsSessionAll(mid)
    ensures var e := After(Do(After(s, pre), BeginUpdate(k)), mid);
            && e.session.Updating? && e.session.call == k
            && (Can(e, FinishUpdate) ==> UpToDate(e, k.c))
  {
    InvInit(s);
    InvRun(s, pre);
    CoordinatorBegins(After(s, pre), k);
    var b := Do(After(s, pre), BeginUpdate(k));
    CoordinatorRun(b, mid);
    SessionFreezesMembership(b, mid);
  }
}
