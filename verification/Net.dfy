/** The servers' objects, found by port as the source connects to them. */
module Net {
  import opened Replicas
  import opened Protocol
  import C = Coms

  /** A port leads to one server, and no server has two. */
  ghost predicate NetOk(net: map<Port, C.Coms>) {
    forall p, q :: p in net && q in net && p != q ==> net[p] != net[q]
  }

  ghost function View(net: map<Port, C.Coms>): Cluster
    reads net.Values
  {
    map p | p in net :: net[p].View()
  }

  lemma OnlyOneChanged(net: map<Port, C.Coms>, p: Port, before: Cluster)
    requires p in net && before.Keys == net.Keys
    requires forall q :: q in net && q != p ==> net[q].View() == before[q]
    ensures View(net) == before[p := net[p].View()]
  {
  }
}
