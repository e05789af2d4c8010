/** `update_hosts` itself: the loop over the peers, on the servers' own objects and bytes. */
module UpdateHosts {
  import opened Bytes
  import opened Replicas
  import opened Protocol
  import opened Wire
  import opened Attempts
  import opened Recovery
  import opened Net
  import C = Coms

  /** The frame, laid out at the start of a receive buffer. */
  method FrameInBuffer(u: Pushable) returns (buffer: array<byte>)
    ensures fresh(buffer) && buffer.Length == 128
    ensures ParseFrame(buffer[..]) == Some(u)
  {
    var frame: bytes := [if u.remove then ONE else ZERO, SPACE] + u.domain + [SPACE] + u.ip + [SPACE, u.id, NUL];
    buffer := new byte[BUFFER_BYTES];
    C.Recv(buffer, frame);
    ghost var junk := buffer[|frame|..];
    assert buffer[..] == frame + junk;
    FrameRoundTrip(u, junk);
  }

  /** Send the frame to one peer, which handles it. */
  method Push(net: map<Port, C.Coms>, p: Port, u: Pushable)
    requires p in net && NetOk(net)
    modifies net[p]
    ensures View(net) == old(View(net))[p := Apply(u, old(View(net))[p])]
  {
    ghost var before := View(net);
    var buffer := FrameInBuffer(u);
    var _ := net[p].RecieveUpdate(buffer);
    OnlyOneChanged(net, p, before);
  }

  /** One turn of the loop: ask a peer for its version and push the update if it is stale. */
  method ContactPeer(net: map<Port, C.Coms>, k: Call, i: nat, how: Contact, someFresh: bool, someStale: bool)
    returns (someFresh': bool, someStale': bool, lost: bool)
    requires NetOk(net) && i < |k.ports| && k.ports[i] in net
    modifies net.Values
    ensures Progress(View(net), someFresh', someStale', lost)
         == ContactOne(Progress(old(View(net)), someFresh, someStale, false), k, i, how)
    ensures k.ports[i] == k.own || i == k.fail ==>
              View(net) == old(View(net)) && someFresh' == someFresh && someStale' == someStale && !lost
    ensures k.ports[i] != k.own && i != k.fail && how.Whole? ==>
              && !lost && net[k.ports[i]].versionNum == k.u.id
              && someFresh' == (someFresh || old(net[k.ports[i]].versionNum) == k.u.id)
              && someStale' == (someStale || old(net[k.ports[i]].versionNum) != k.u.id)
    ensures k.ports[i] != k.own && i != k.fail && how.NoReply? && old(net[k.ports[i]].versionNum) != k.u.id ==>
              lost && if how.applied then net[k.ports[i]].versionNum == k.u.id else View(net) == old(View(net))
    ensures k.ports[i] != k.own && i != k.fail && (how.NoVersion? || how.HangsUp?) ==>
              View(net) == old(View(net)) && lost == how.NoVersion?
  {
    someFresh', someStale', lost := someFresh, someStale, false;
    if k.ports[i] == k.own || i == k.fail {
      return;
    }
    if how.NoVersion? {
      lost := true;
      return;
    }
    var ack := if how.HangsUp? && how.ack.Some? then how.ack.value else net[k.ports[i]].versionNum;
    if ack == k.u.id {
      someFresh' := true;
      return;
    }
    someStale' := true;
    if how != NoReply(false) && !how.HangsUp? {
      Push(net, k.ports[i], k.u);
      assert View(net)[k.ports[i]].version == k.u.id;
    }
    lost := how.NoReply?;
  }

  /** The loop over the listed peers; a lost contact ends it. */
  method ContactPeers(net: map<Port, C.Coms>, k: Call, contacts: seq<Contact>)
    returns (someFresh: bool, someStale: bool, lost: bool)
    requires NetOk(net) && |contacts| == |k.ports| && Known(k, View(net))
    modifies net.Values
    ensures Progress(View(net), someFresh, someStale, lost) == ContactAll(old(View(net)), k, contacts)
  {
    ghost var reps := View(net);
    someFresh, someStale, lost := false, false, false;
    var i := 0;
    while i < |k.ports| && !lost
      invariant 0 <= i <= |k.ports|
      invariant ContactAll(reps, k, contacts)
             == ContactFrom(Progress(View(net), someFresh, someStale, lost), k, contacts, i)
    {
      someFresh, someStale, lost := ContactPeer(net, k, i, contacts[i], someFresh, someStale);
      i := i + 1;
    }
  }

  /**
   * Push one update to the servers the router listed, from `coms` listening on `k.c`. The local copy
   * is written last. Code 3 is refused before any session; code 1 is a lost contact, with the router
   * while its list is read (`listArrives` is false) or with a peer.
   */
  method UpdateHosts(coms: C.Coms, net: map<Port, C.Coms>, k: Call, listArrives: bool, contacts: seq<Contact>)
    returns (code: int)
    requires k.c in net && net[k.c] == coms && NetOk(net) && |contacts| == |k.ports|
    requires forall i :: 0 <= i < |k.ports| ==> k.ports[i] in net
    modifies net.Values
    ensures k.fail == -1 ==> code == 3 && View(net) == old(View(net))
    ensures k.fail != -1 && !listArrives ==> code == 1 && View(net) == old(View(net))
    ensures k.fail != -1 && listArrives && Distinct(k.ports) ==>
              forall m :: 0 <= m < |k.ports| && (k.ports[m] == k.own || m == k.fail) && k.ports[m] != k.c ==>
                net[k.ports[m]].View() == old(net[k.ports[m]].View())
    ensures k.fail != -1 && listArrives && Distinct(k.ports) && code != 1 ==>
              forall m :: 0 <= m < |k.ports| && k.ports[m] != k.own && m != k.fail && contacts[m].Whole? ==>
                net[k.ports[m]].versionNum == k.u.id
    ensures k.fail != -1 && listArrives ==>
              && code == FinalCode(old(View(net)), k, contacts)
              && View(net) == FinalReplicas(old(View(net)), k, contacts)
  {
    if k.fail == -1 {
      return 3;
    }
    if !listArrives {
      return 1;
    }
    ghost var reps := View(net);
    if Distinct(k.ports) {
      PeersEndAs(reps, k, contacts);
    }
    var thisStale := coms.versionNum != k.u.id;
    assert thisStale == (View(net)[k.c].version != k.u.id);
    var someFresh, someStale, lost := ContactPeers(net, k, contacts);
    if lost {
      return 1;
    }
    if thisStale {
      CommitLocally(net, k.c, k.u);
    }
    if thisStale && !someFresh {
      return 0;
    } else if !thisStale && someStale {
      return 9;
    } else if thisStale && someFresh {
      return 8;
    } else if !thisStale && !someStale {
      return 6;
    }
    return 10;
  }

  /** The coordinator's own write. */
  method CommitLocally(net: map<Port, C.Coms>, c: Port, u: Pushable)
    requires c in net && NetOk(net)
    modifies net[c]
    ensures View(net) == old(View(net))[c := Apply(u, old(View(net))[c])]
  {
    ghost var before := View(net);
    net[c].ActuallyUpdate(u.remove, u.domain, u.ip, u.id);
    OnlyOneChanged(net, c, before);
  }
}
