/** What one call of `update_hosts` makes of the replicas that interrupted attempts have left. */
module Recovery {
  import opened Bytes
  import opened Replicas
  import opened Wire
  import opened Protocol
  import opened Attempts

  /** Every listed server and the coordinator hold the replica from before the update or after it. */
  ghost predicate Interrupted(reps: Cluster, k: Call, before: Replica) {
    && CallOk(k, reps) && reps[k.c] in {before, Apply(k.u, before)}
    && forall i :: 0 <= i < |k.ports| ==> reps[k.ports[i]] in {before, Apply(k.u, before)}
  }

  /** The update is in at the coordinator and at every listed server. */
  ghost predicate AllIn(reps: Cluster, k: Call, before: Replica)
    requires CallOk(k, reps)
  {
    reps[k.c] == Apply(k.u, before) && forall i :: 0 <= i < |k.ports| ==> reps[k.ports[i]] == Apply(k.u, before)
  }

  /** A peer other than the coordinator that still lacks the update is passed over, or closes its connection. */
  ghost predicate Missed(reps: Cluster, k: Call, contacts: seq<Contact>, i: nat)
    requires CallOk(k, reps) && i < |k.ports| == |contacts|
  {
    k.ports[i] != k.c && reps[k.ports[i]].version != k.u.id && (Skips(k, i) || contacts[i].HangsUp?)
  }

  /** The loop keeps every replica one of the two. */
  lemma {:induction false} FoldKeepsTwo(g: Progress, k: Call, contacts: seq<Contact>, i: nat, before: Replica)
    requires i <= |k.ports| == |contacts| && Interrupted(g.reps, k, before)
    ensures Interrupted(ContactFrom(g, k, contacts, i).reps, k, before)
    decreases |k.ports| - i
  {
    if i < |k.ports| && !g.aborted {
      ApplyTwice(k.u, before);
      FoldKeepsTwo(ContactOne(g, k, i, contacts[i]), k, contacts, i + 1, before);
    }
  }

  /** A server that has the update is not written again. */
  lemma {:induction false} FoldKeepsFresh(g: Progress, k: Call, contacts: seq<Contact>, i: nat, p: Port)
    requires i <= |k.ports| == |contacts| && Known(k, g.reps) && p in g.reps && g.reps[p].version == k.u.id
    ensures ContactFrom(g, k, contacts, i).reps[p] == g.reps[p]
    decreases |k.ports| - i
  {
    if i < |k.ports| && !g.aborted {
      FoldKeepsFresh(ContactOne(g, k, i, contacts[i]), k, contacts, i + 1, p);
    }
  }

  /** A loop that gets to its end has applied the update once to every stale peer it reached, and nothing else. */
  lemma {:induction false} FoldAt(g: Progress, k: Call, contacts: seq<Contact>, i: nat, m: nat)
    requires i <= |k.ports| == |contacts| && Known(k, g.reps) && Distinct(k.ports) && m < |k.ports|
    requires !ContactFrom(g, k, contacts, i).aborted
    ensures var r, p := g.reps[k.ports[m]], k.ports[m];
            ContactFrom(g, k, contacts, i).reps[p]
            == if m < i || Skips(k, m) || contacts[m].HangsUp? || r.version == k.u.id then r else Apply(k.u, r)
    decreases |k.ports| - i
  {
    if i < |k.ports| && !g.aborted {
      FoldAt(ContactOne(g, k, i, contacts[i]), k, contacts, i + 1, m);
    }
  }

  /**
   * A call made after any interrupted attempts leaves every listed server and the coordinator in one
   * of the two replicas again. One that does not return 1 leaves them all in the second if and only
   * if it missed no peer; which ones it misses shows in the replicas it starts from and the contacts.
   */
  lemma CallRecovers(reps: Cluster, k: Call, contacts: seq<Contact>, before: Replica)
    requires Interrupted(reps, k, before) && k.u.id != before.version && |contacts| == |k.ports|
    ensures Interrupted(FinalReplicas(reps, k, contacts), k, before)
    ensures FinalCode(reps, k, contacts) != 1 ==>
              (AllIn(FinalReplicas(reps, k, contacts), k, before)
               <==> forall i :: 0 <= i < |k.ports| ==> !Missed(reps, k, contacts, i))
  {
    var start := Progress(reps, false, false, false);
    FoldKeepsTwo(start, k, contacts, 0, before);
    ApplyTwice(k.u, before);
    if FinalCode(reps, k, contacts) != 1 {
      var after := FinalReplicas(reps, k, contacts);
      if reps[k.c].version == k.u.id {
        FoldKeepsFresh(start, k, contacts, 0, k.c);
      }
      assert after[k.c] == Apply(k.u, before);
      forall i | 0 <= i < |k.ports|
        ensures after[k.ports[i]] == Apply(k.u, before) <==> !Missed(reps, k, contacts, i)
      {
        FoldAt(start, k, contacts, 0, i);
      }
    }
  }

  // ---------- what one call does to each peer, from its own arguments ----------

  /** A peer with the call's own port or at the position `fail` is not touched by the loop. */
  lemma {:induction false} FoldPasses(g: Progress, k: Call, contacts: seq<Contact>, i: nat, m: nat)
    requires i <= |k.ports| == |contacts| && Known(k, g.reps) && Distinct(k.ports) && m < |k.ports|
    requires k.ports[m] == k.own || m == k.fail
    ensures ContactFrom(g, k, contacts, i).reps[k.ports[m]] == g.reps[k.ports[m]]
    decreases |k.ports| - i
  {
    if i < |k.ports| && !g.aborted {
      FoldPasses(ContactOne(g, k, i, contacts[i]), k, contacts, i + 1, m);
    }
  }

  /** Contact that ends the call: the peer at `i` is asked, and its version or its reply to a push is lost. */
  lemma {:induction false} FoldLosesOne(g: Progress, k: Call, contacts: seq<Contact>, i: nat)
    requires i <= |k.ports| == |contacts| && Known(k, g.reps) && Distinct(k.ports) && !g.aborted
    ensures ContactFrom(g, k, contacts, i).aborted
            <==> exists m :: i <= m < |k.ports| && k.ports[m] != k.own && m != k.fail
                   && (contacts[m].NoVersion? || (contacts[m].NoReply? && g.reps[k.ports[m]].version != k.u.id))
    decreases |k.ports| - i
  {
    if i < |k.ports| {
      var g' := ContactOne(g, k, i, contacts[i]);
      assert forall m :: i < m < |k.ports| ==> g'.reps[k.ports[m]] == g.reps[k.ports[m]];
      if !g'.aborted {
        FoldLosesOne(g', k, contacts, i + 1);
      }
    }
  }

  /** A coordinator that is not listed is written by the call's own last step or not at all. */
  lemma {:induction false} FoldUnlisted(g: Progress, k: Call, contacts: seq<Contact>, i: nat, p: Port)
    requires i <= |k.ports| == |contacts| && Known(k, g.reps) && p in g.reps && p !in k.ports
    ensures ContactFrom(g, k, contacts, i).reps[p] == g.reps[p]
    decreases |k.ports| - i
  {
    if i < |k.ports| && !g.aborted {
      FoldUnlisted(ContactOne(g, k, i, contacts[i]), k, contacts, i + 1, p);
    }
  }

  /** A coordinator passed over or unlisted is as it was after a call that returns 1, and at the id after any other. */
  lemma CoordinatorEndsAs(reps: Cluster, k: Call, contacts: seq<Contact>)
    requires CallOk(k, reps) && |contacts| == |k.ports|
    requires forall i :: 0 <= i < |k.ports| && k.ports[i] == k.c ==> k.ports[i] == k.own || i == k.fail
    ensures FinalCode(reps, k, contacts) == 1 ==> FinalReplicas(reps, k, contacts)[k.c] == reps[k.c]
    ensures FinalCode(reps, k, contacts) != 1 ==> FinalReplicas(reps, k, contacts)[k.c].version == k.u.id
  {
    var start := Progress(reps, false, false, false);
    if i :| 0 <= i < |k.ports| && k.ports[i] == k.c {
      FoldPasses(start, k, contacts, 0, i);
    } else {
      FoldUnlisted(start, k, contacts, 0, k.c);
    }
  }

  /** A call returns 1 if and only if a peer that it asks is lost before its version or after a push. */
  lemma CodeOneIsALoss(reps: Cluster, k: Call, contacts: seq<Contact>)
    requires CallOk(k, reps) && |contacts| == |k.ports|
    ensures FinalCode(reps, k, contacts) == 1
            <==> exists m :: 0 <= m < |k.ports| && k.ports[m] != k.own && m != k.fail
                   && (contacts[m].NoVersion? || (contacts[m].NoReply? && reps[k.ports[m]].version != k.u.id))
  {
    FoldLosesOne(Progress(reps, false, false, false), k, contacts, 0);
  }

  /**
   * A listed server other than the coordinator keeps its replica if the call passes over it, by own
   * port or by position. If it is asked, is stale and answers to the end, a call that does not return
   * 1 leaves it with exactly the update's change and version.
   */
  lemma PeerEndsAs(reps: Cluster, k: Call, contacts: seq<Contact>, m: nat)
    requires CallOk(k, reps) && |contacts| == |k.ports| && m < |k.ports| && k.ports[m] != k.c
    ensures k.ports[m] == k.own || m == k.fail ==>
              FinalReplicas(reps, k, contacts)[k.ports[m]] == reps[k.ports[m]]
    ensures k.ports[m] != k.own && m != k.fail && contacts[m].Whole? && reps[k.ports[m]].version != k.u.id
            && FinalCode(reps, k, contacts) != 1 ==>
              var u, was, end := k.u, reps[k.ports[m]].table, FinalReplicas(reps, k, contacts)[k.ports[m]];
              && end.version == u.id
              && (if u.remove then u.domain !in end.table else u.domain in end.table && end.table[u.domain] == u.ip)
              && forall d :: d != u.domain ==>
                   (d in end.table <==> d in was) && (d in was ==> end.table[d] == was[d])
  {
    var start := Progress(reps, false, false, false);
    if k.ports[m] == k.own || m == k.fail {
      FoldPasses(start, k, contacts, 0, m);
    } else if FinalCode(reps, k, contacts) != 1 {
      FoldAt(start, k, contacts, 0, m);
    }
  }

  /** What follows for every listed server at once. */
  lemma PeersEndAs(reps: Cluster, k: Call, contacts: seq<Contact>)
    requires CallOk(k, reps) && |contacts| == |k.ports|
    ensures forall m :: 0 <= m < |k.ports| && (k.ports[m] == k.own || m == k.fail) && k.ports[m] != k.c ==>
              FinalReplicas(reps, k, contacts)[k.ports[m]] == reps[k.ports[m]]
    ensures FinalCode(reps, k, contacts) != 1 ==>
              forall m :: 0 <= m < |k.ports| && k.ports[m] != k.own && m != k.fail && contacts[m].Whole? ==>
                FinalReplicas(reps, k, contacts)[k.ports[m]].version == k.u.id
  {
    forall m | 0 <= m < |k.ports| && (k.ports[m] == k.own || m == k.fail) && k.ports[m] != k.c
      ensures FinalReplicas(reps, k, contacts)[k.ports[m]] == reps[k.ports[m]]
    {
      PeerEndsAs(reps, k, contacts, m);
    }
    if FinalCode(reps, k, contacts) != 1 {
      forall m | 0 <= m < |k.ports| && k.ports[m] != k.own && m != k.fail && contacts[m].Whole?
        ensures FinalReplicas(reps, k, contacts)[k.ports[m]].version == k.u.id
      {
        FoldAt(Progress(reps, false, false, false), k, contacts, 0, m);
      }
    }
  }

  /**
   * For instance: three stale servers, the first of them coordinating, and `fail` at the third. The call
   * returns 0 with the update in at servers 1 and 2, and server 3 is as it was.
   */
  lemma FailLeavesOneStale(u: Pushable, before: Replica)
    requires before.version != u.id
    ensures var reps, k := map[1 := before, 2 := before, 3 := before], Call(1, u, [1, 2, 3], 1, 2);
            var contacts := [Whole, Whole, Whole];
            var after := map[1 := Apply(u, before), 2 := Apply(u, before), 3 := before];
            FinalCode(reps, k, contacts) == 0 && FinalReplicas(reps, k, contacts) == after
  {
    var reps: Cluster, k := map[1 := before, 2 := before, 3 := before], Call(1, u, [1, 2, 3], 1, 2);
    var contacts := [Whole, Whole, Whole];
    CodeOneIsALoss(reps, k, contacts);
    CallReportsAcks(reps, k, contacts);
    PeerEndsAs(reps, k, contacts, 2);
    var start := Progress(reps, false, false, false);
    FoldAt(start, k, contacts, 0, 0);
    FoldAt(start, k, contacts, 0, 1);
  }

  /** For instance: server 1 coordinates, server 2 closes its connection unserved, and the call still returns 0. */
  lemma HangUpIsTakenForAPush(u: Pushable, before: Replica)
    requires before.version != u.id
    ensures var reps, k, contacts := map[1 := before, 2 := before], Call(1, u, [1, 2], 1, 0), [Whole, HangsUp(None)];
            FinalCode(reps, k, contacts) == 0 && FinalReplicas(reps, k, contacts)[2] == before
  {
    var reps: Cluster, k, contacts := map[1 := before, 2 := before], Call(1, u, [1, 2], 1, 0), [Whole, HangsUp(None)];
    LoopOfTwo(reps, k, contacts);
  }
}
