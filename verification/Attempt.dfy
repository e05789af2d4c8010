/**
 * One call of `update_hosts` with nobody else at work: what it does to every replica and what it
 * returns, as a fold over the peers, and that it is one particular run of the step system.
 */
module Attempts {
  import opened Bytes
  import opened Replicas
  import opened Wire
  import opened Protocol

  /**
   * How contact with one peer goes: whole, lost before its version arrives, lost after the push, or
   * closed by the peer, which the call does not notice. One that closes before it has sent its version
   * leaves in `ack` what the coordinator's variable held; one that closes after it applies nothing.
   */
  datatype Contact = Whole | NoVersion | NoReply(applied: bool) | HangsUp(ack: Option<byte>)

  /** The loop of `update_hosts` after some peers; `aborted` when it has returned 1. */
  datatype Progress = Progress(reps: Cluster, someFresh: bool, someStale: bool, aborted: bool)

  /** Every listed server exists. */
  predicate Known(k: Call, reps: Cluster) {
    forall i :: 0 <= i < |k.ports| ==> k.ports[i] in reps
  }

  ghost predicate CallOk(k: Call, reps: Cluster) {
    k.c in reps && Distinct(k.ports) && Known(k, reps)
  }

  function ContactOne(g: Progress, k: Call, i: nat, how: Contact): (g': Progress)
    requires i < |k.ports| && k.ports[i] in g.reps
    ensures g'.reps.Keys == g.reps.Keys
  {
    var p := k.ports[i];
    if Skips(k, i) then g
    else if how.NoVersion? then g.(aborted := true)
    else if Ack(g.reps[p], how) == k.u.id then g.(someFresh := true)
    else
      var pushed := g.reps[p := Apply(k.u, g.reps[p])];
      match how
      case NoReply(applied) => g.(someStale := true, aborted := true, reps := if applied then pushed else g.reps)
      case HangsUp(_) => g.(someStale := true)
      case _ => g.(someStale := true, reps := pushed)
  }

  /** The version the coordinator compares with its own id. */
  function Ack(r: Replica, how: Contact): byte {
    if how.HangsUp? && how.ack.Some? then how.ack.value else r.version
  }

  /** A lost contact is noticed: no peer that is contacted closes the connection. */
  predicate NoneHangsUp(k: Call, contacts: seq<Contact>)
    requires |contacts| == |k.ports|
  {
    forall i :: 0 <= i < |contacts| && contacts[i].HangsUp? ==> Skips(k, i)
  }

  /** The rest of the loop, from peer `i` on; a lost contact ends it. */
  function ContactFrom(g: Progress, k: Call, contacts: seq<Contact>, i: nat): (g': Progress)
    requires i <= |k.ports| == |contacts| && Known(k, g.reps)
    ensures g'.reps.Keys == g.reps.Keys
    decreases |k.ports| - i
  {
    if i == |k.ports| || g.aborted then g else ContactFrom(ContactOne(g, k, i, contacts[i]), k, contacts, i + 1)
  }

  function ContactAll(reps: Cluster, k: Call, contacts: seq<Contact>): Progress
    requires |k.ports| == |contacts| && Known(k, reps)
  {
    ContactFrom(Progress(reps, false, false, false), k, contacts, 0)
  }

  /** The replicas when the call returns. */
  function FinalReplicas(reps: Cluster, k: Call, contacts: seq<Contact>): Cluster
    requires k.c in reps && |k.ports| == |contacts| && Known(k, reps)
  {
    var g := ContactAll(reps, k, contacts);
    if !g.aborted && reps[k.c].version != k.u.id then g.reps[k.c := Apply(k.u, g.reps[k.c])] else g.reps
  }

  /** What the call returns. */
  function FinalCode(reps: Cluster, k: Call, contacts: seq<Contact>): int
    requires k.c in reps && |k.ports| == |contacts| && Known(k, reps)
  {
    var g := ContactAll(reps, k, contacts);
    if g.aborted then 1 else ReturnCode(reps[k.c].version != k.u.id, g.someFresh, g.someStale)
  }

  // ---------- the call as a run ----------

  /** The steps a contact takes, given what the peer holds. */
  function ContactSteps(g: Progress, k: Call, i: nat, how: Contact): seq<Step>
    requires i < |k.ports| && k.ports[i] in g.reps && (how.HangsUp? ==> Skips(k, i))
  {
    var p := k.ports[i];
    if Skips(k, i) then [Skip]
    else if how.NoVersion? then [Abort]
    else if g.reps[p].version == k.u.id then [Query]
    else
      match how
      case NoReply(applied) => [Query, Abort, if applied then Deliver(p) else Drop(p)]
      case _ => [Query, Deliver(p), PushDone]
  }

  function LoopSteps(g: Progress, k: Call, contacts: seq<Contact>, i: nat): seq<Step>
    requires i <= |k.ports| == |contacts| && Known(k, g.reps) && NoneHangsUp(k, contacts)
    decreases |k.ports| - i
  {
    if i == |k.ports| || g.aborted then []
    else ContactSteps(g, k, i, contacts[i]) + LoopSteps(ContactOne(g, k, i, contacts[i]), k, contacts, i + 1)
  }

  /** The step system's state when the loop has got to peer `n`. */
  ghost function LoopState(b: State, g: Progress, n: nat): State
    requires b.session.Updating?
  {
    if g.aborted then b.(session := Closed, replicas := g.reps)
    else b.(session := b.session.(pos := n, someFresh := g.someFresh, someStale := g.someStale), replicas := g.reps)
  }

  /** `b` is what opening the call's session leads to, with an idle wire. */
  ghost predicate Opened(b: State, k: Call) {
    var ss := b.session;
    && ss.Updating? && ss.call == k && ss.pos == 0 && !ss.awaiting && !ss.committed
    && !ss.someFresh && !ss.someStale && b.wire == map[] && CallOk(k, b.replicas)
  }

  lemma ContactIsSteps(b: State, k: Call, g: Progress, i: nat, how: Contact)
    requires Opened(b, k) && i < |k.ports| && !g.aborted && k.ports[i] in g.reps && (how.HangsUp? ==> Skips(k, i))
    ensures Executes(LoopState(b, g, i), ContactSteps(g, k, i, how))
    ensures After(LoopState(b, g, i), ContactSteps(g, k, i, how)) == LoopState(b, ContactOne(g, k, i, how), i + 1)
  {
    var s, p := LoopState(b, g, i), k.ports[i];
    var steps := ContactSteps(g, k, i, how);
    if |steps| == 1 {
      OneStep(s, steps[0]);
    } else {
      PushIsSteps(s, k, g, i, how);
    }
  }

  lemma PushIsSteps(s: State, k: Call, g: Progress, i: nat, how: Contact)
    requires s.session.Updating? && s.session.call == k && s.session.pos == i && !s.session.awaiting
    requires s.wire == map[] && s.replicas == g.reps
    requires i < |k.ports| && !g.aborted && k.ports[i] in g.reps && (how.HangsUp? ==> Skips(k, i))
    requires |ContactSteps(g, k, i, how)| == 3
    ensures Executes(s, ContactSteps(g, k, i, how))
    ensures var e := After(s, ContactSteps(g, k, i, how));
            var g' := ContactOne(g, k, i, how);
            e == if g'.aborted then s.(session := Closed, replicas := g'.reps)
                 else s.(session := s.session.(pos := i + 1, someStale := true), replicas := g'.reps)
  {
    var p, steps := k.ports[i], ContactSteps(g, k, i, how);
    var s1 := Do(s, Query);
    assert s1.wire == map[p := k.u] && s1.wire - {p} == map[];
    ThreeSteps(s, Query, steps[1], steps[2]);
  }

  lemma {:induction false} LoopIsSteps(b: State, k: Call, g: Progress, contacts: seq<Contact>, i: nat)
    requires Opened(b, k) && i <= |k.ports| == |contacts| && Known(k, g.reps) && NoneHangsUp(k, contacts)
    ensures Executes(LoopState(b, g, i), LoopSteps(g, k, contacts, i))
    ensures After(LoopState(b, g, i), LoopSteps(g, k, contacts, i))
         == LoopState(b, ContactFrom(g, k, contacts, i), |k.ports|)
    decreases |k.ports| - i
  {
    if i < |k.ports| && !g.aborted {
      var g' := ContactOne(g, k, i, contacts[i]);
      ContactIsSteps(b, k, g, i, contacts[i]);
      LoopIsSteps(b, k, g', contacts, i + 1);
      ExecutesConcat(LoopState(b, g, i), ContactSteps(g, k, i, contacts[i]), LoopSteps(g', k, contacts, i + 1));
    }
  }

  /** All the steps of the call, from opening the session on. */
  function CallSteps(reps: Cluster, k: Call, contacts: seq<Contact>): seq<Step>
    requires |k.ports| == |contacts| && Known(k, reps) && NoneHangsUp(k, contacts)
  {
    var g := ContactAll(reps, k, contacts);
    [BeginUpdate(k)] + LoopSteps(Progress(reps, false, false, false), k, contacts, 0)
    + if g.aborted then [] else [CommitLocal, FinishUpdate]
  }

  /**
   * A call of `update_hosts` whose lost contacts are noticed is a run of the step system: from any
   * state with the session free and the wire idle, its steps are enabled one after another, and they
   * end with the call's replicas, the session free again, and the call's return value unless it is 1.
   */
  lemma CallIsRun(s: State, k: Call, contacts: seq<Contact>)
    requires s.session.Closed? && s.wire == map[] && k.ports == s.members && |contacts| == |k.ports|
    requires CallOk(k, s.replicas) && k.fail != -1 && MayStart(s, k.u) && NoneHangsUp(k, contacts)
    ensures var steps := CallSteps(s.replicas, k, contacts);
            && Executes(s, steps)
            && var e := After(s, steps);
            && e.session.Closed? && e.wire == map[] && e.members == s.members
            && e.replicas == FinalReplicas(s.replicas, k, contacts)
            && var code := FinalCode(s.replicas, k, contacts);
            e.code == (if code == 1 then s.code else Some(code))
  {
    var begin := BeginUpdate(k);
    var b := Do(s, begin);
    var start := Progress(s.replicas, false, false, false);
    var loop := LoopSteps(start, k, contacts, 0);
    var g := ContactAll(s.replicas, k, contacts);
    assert LoopState(b, start, 0) == b;
    LoopIsSteps(b, k, start, contacts, 0);
    assert ([begin] + loop)[1..] == loop;
    assert Executes(s, [begin] + loop) && After(s, [begin] + loop) == LoopState(b, g, |k.ports|);
    if g.aborted {
      assert [begin] + loop + [] == [begin] + loop;
    } else {
      TwoSteps(LoopState(b, g, |k.ports|), CommitLocal, FinishUpdate);
      ExecutesConcat(s, [begin] + loop, [CommitLocal, FinishUpdate]);
    }
  }

  // ---------- what the return value says about the start ----------

  /** Some contacted peer's acknowledgement, as the coordinator has it, is (`upToDate`) or is not the update's id. */
  ghost predicate SomeAck(reps: Cluster, k: Call, contacts: seq<Contact>, upToDate: bool, from: nat)
    requires |contacts| == |k.ports|
  {
    exists i :: from <= i < |k.ports| && !Skips(k, i) && k.ports[i] in reps
                && (Ack(reps[k.ports[i]], contacts[i]) == k.u.id) == upToDate
  }

  /** One contact adds what it heard to what the rest of the loop will hear. */
  lemma AckNext(g: Progress, k: Call, contacts: seq<Contact>, i: nat, upToDate: bool)
    requires i < |k.ports| == |contacts| && Known(k, g.reps) && Distinct(k.ports)
    ensures var g' := ContactOne(g, k, i, contacts[i]);
            SomeAck(g.reps, k, contacts, upToDate, i)
            <==> (!Skips(k, i) && (Ack(g.reps[k.ports[i]], contacts[i]) == k.u.id) == upToDate)
                 || SomeAck(g'.reps, k, contacts, upToDate, i + 1)
  {
    var g' := ContactOne(g, k, i, contacts[i]);
    assert forall m :: i < m < |k.ports| ==> g'.reps[k.ports[m]] == g.reps[k.ports[m]];
  }

  /** The two flags of a loop that gets to its end sum up what the peers said. */
  lemma {:induction false} FoldFlags(g: Progress, k: Call, contacts: seq<Contact>, i: nat)
    requires i <= |k.ports| == |contacts| && Known(k, g.reps) && Distinct(k.ports)
    requires !ContactFrom(g, k, contacts, i).aborted
    ensures var e := ContactFrom(g, k, contacts, i);
            && e.someFresh == (g.someFresh || SomeAck(g.reps, k, contacts, true, i))
            && e.someStale == (g.someStale || SomeAck(g.reps, k, contacts, false, i))
    decreases |k.ports| - i
  {
    if i < |k.ports| && !g.aborted {
      AckNext(g, k, contacts, i, true);
      AckNext(g, k, contacts, i, false);
      FoldFlags(ContactOne(g, k, i, contacts[i]), k, contacts, i + 1);
    }
  }

  /**
   * A call that does not return 1 returns 0, 6, 8 or 9, and which one says what its coordinator was
   * and what the contacted peers acknowledged, whoever closed the connection on it.
   */
  lemma CallReportsAcks(reps: Cluster, k: Call, contacts: seq<Contact>)
    requires CallOk(k, reps) && |contacts| == |k.ports| && FinalCode(reps, k, contacts) != 1
    ensures var code, stale := FinalCode(reps, k, contacts), reps[k.c].version != k.u.id;
            && (code == 0 <==> stale && !SomeAck(reps, k, contacts, true, 0))
            && (code == 8 <==> stale && SomeAck(reps, k, contacts, true, 0))
            && (code == 9 <==> !stale && SomeAck(reps, k, contacts, false, 0))
            && (code == 6 <==> !stale && !SomeAck(reps, k, contacts, false, 0))
  {
    FoldFlags(Progress(reps, false, false, false), k, contacts, 0);
  }

  /** The code that the versions of the coordinator and of the contacted peers call for. */
  ghost function CodeFor(reps: Cluster, k: Call): int
    requires k.c in reps
  {
    if reps[k.c].version != k.u.id then (if SomePeer(reps, k, true) then 8 else 0)
    else if SomePeer(reps, k, false) then 9 else 6
  }

  /**
   * The code diagnoses the replicas that the call started from if and only if the peers' versions and
   * what was heard of them agree on whether any is fresh, asked by a stale coordinator, or whether any
   * is stale, asked by a fresh one. They do when every acknowledgement heard is the peer's version,
   * above all when no peer hangs up before sending it.
   */
  lemma CallDiagnosesStart(reps: Cluster, k: Call, contacts: seq<Contact>)
    requires CallOk(k, reps) && |contacts| == |k.ports| && FinalCode(reps, k, contacts) != 1
    ensures var upToDate := reps[k.c].version != k.u.id;
            FinalCode(reps, k, contacts) == CodeFor(reps, k)
            <==> (SomeAck(reps, k, contacts, upToDate, 0) <==> SomePeer(reps, k, upToDate))
    ensures (forall i :: 0 <= i < |k.ports| && !Skips(k, i) ==>
               Ack(reps[k.ports[i]], contacts[i]) == reps[k.ports[i]].version) ==>
              FinalCode(reps, k, contacts) == CodeFor(reps, k)
  {
    CallReportsAcks(reps, k, contacts);
  }

  /** The loop over two peers, unrolled. */
  lemma LoopOfTwo(reps: Cluster, k: Call, contacts: seq<Contact>)
    requires |k.ports| == |contacts| == 2 && Known(k, reps)
    ensures ContactAll(reps, k, contacts)
         == var g := ContactOne(Progress(reps, false, false, false), k, 0, contacts[0]);
            if g.aborted then g else ContactOne(g, k, 1, contacts[1])
  {
    var g := ContactOne(Progress(reps, false, false, false), k, 0, contacts[0]);
    if g.aborted {
      assert ContactFrom(g, k, contacts, 1) == g;
    } else {
      var g' := ContactOne(g, k, 1, contacts[1]);
      assert ContactFrom(g', k, contacts, 2) == g' && ContactFrom(g, k, contacts, 1) == g';
    }
  }

  /**
   * For instance: server 1 coordinates and no peer has the update, but server 2 hangs up while the
   * coordinator's variable holds the new id. The call returns 8, for a peer that was fresh.
   */
  lemma HangUpMisdiagnoses(u: Pushable, before: Replica)
    requires before.version != u.id
    ensures var reps, k := map[1 := before, 2 := before], Call(1, u, [1, 2], 1, 0);
            var contacts := [Whole, HangsUp(Some(u.id))];
            CallOk(k, reps) && FinalCode(reps, k, contacts) == 8 && !SomePeer(reps, k, true) && CodeFor(reps, k) == 0
  {
    var reps: Cluster, k := map[1 := before, 2 := before], Call(1, u, [1, 2], 1, 0);
    var contacts := [Whole, HangsUp(Some(u.id))];
    assert !ContactOne(Progress(reps, false, false, false), k, 0, Whole).aborted;
    LoopOfTwo(reps, k, contacts);
  }
}
