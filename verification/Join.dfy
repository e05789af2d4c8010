/** `update_and_online`: a new server copies the table of one of the listed ones and is listed itself. */
module Join {
  import opened Bytes
  import opened Replicas
  import opened Wire
  import opened Protocol
  import opened Net
  import C = Coms

  /** The joiner takes this donor's transfer for a success. */
  predicate Succeeds(fault: C.Fault, donor: Replica) {
    C.TransferCode(fault, |donor.table| % 0x100) == 0
  }

  /** Neither the count nor the version of this donor's transfer is lost on the way. */
  predicate Arrives(fault: C.Fault, donor: Replica) {
    !C.LosesCount(fault) && !C.LosesVersion(fault, |donor.table| % 0x100)
  }

  /** What a joiner holds after a transfer it takes for a success, the donor's table walked in `order`. */
  function Gets(order: seq<bytes>, donor: Replica, fault: C.Fault): Replica
    requires Copy(order, donor).Some?
  {
    if C.LosesCount(fault) then Replica(map[], fault.ver)
    else if Arrives(fault, donor) then Copy(order, donor).value
    else Copy(order, donor).value.(version := fault.ver)
  }

  /**
   * When that is what the donor holds: the table is small enough to be counted, or empty if the count
   * is lost, and a version that never arrived happens to be in the joiner's variable already.
   */
  predicate GetsAll(donor: Replica, fault: C.Fault) {
    if Arrives(fault, donor) then |donor.table| <= 255
    else fault.ver == donor.version && if C.LosesCount(fault) then donor.table == map[] else |donor.table| <= 255
  }

  /** The transfer succeeded and left `got`, which is all the donor holds exactly when `GetsAll` says so. */
  ghost predicate Transferred(order: seq<bytes>, donor: Replica, fault: C.Fault, got: Replica) {
    && Succeeds(fault, donor) && Copy(order, donor).Some?
    && got == Gets(order, donor, fault) && (got == donor <==> GetsAll(donor, fault))
  }

  lemma GetsExactly(order: seq<bytes>, donor: Replica, fault: C.Fault)
    requires Transferable(donor.table) && IsOrder(order, donor.table)
    ensures Copy(order, donor).Some?
    ensures Gets(order, donor, fault) == donor <==> GetsAll(donor, fault)
  {
    TransferExact(order, donor);
  }

  /**
   * One donor's transfer, which leaves the joiner with `got`. The joiner's table is cleared before the
   * request, so that is what it sends if it asks itself.
   */
  method CopyFrom(net: map<Port, C.Coms>, j: Port, p: Port, fault: C.Fault)
    returns (ok: bool, ghost order: seq<bytes>, ghost got: Replica)
    requires NetOk(net) && j in net && p in net && Transferable(Sent(View(net), j, p).table)
    modifies net[j]
    ensures View(net) == old(View(net))[j := got]
    ensures var donor := Sent(old(View(net)), j, p);
            (ok <==> Succeeds(fault, donor)) && (ok ==> Transferred(order, donor, fault, got))
    ensures !ok ==> got.version == old(View(net))[j].version
  {
    ghost var before := View(net);
    net[j].ipHash := map[];
    var stream;
    stream, order := net[p].SendEntireFile();
    GetsExactly(order, net[p].View(), fault);
    var code := net[j].RequestHosts(stream, fault);
    ok, got := code == 0, net[j].View();
    OnlyOneChanged(net, j, before);
  }

  /** For instance: with no entry counted, or with the version lost, code 0 ends what is not the donor's copy. */
  lemma LossesGoUnnoticed(order: seq<bytes>, name: bytes, ip: bytes)
    requires Plain(name) && Plain(ip) && |name| + |ip| + 2 <= BUFFER_BYTES && order == [name]
    ensures var donor := Replica(map[name := ip], 7);
            var noCount, noVersion := C.Fault(0, false, true, 0, 7), C.Fault(2, false, false, 0, 9);
            && Copy(order, donor) == Some(donor) && Succeeds(noCount, donor) && Succeeds(noVersion, donor)
            && Gets(order, donor, noCount) == Replica(map[], 7)
            && Gets(order, donor, noVersion) == Replica(map[name := ip], 9)
  {
    var donor := Replica(map[name := ip], 7);
    assert donor.table - {name} == map[] && order[1..] == [];
    assert IsOrder(order, donor.table);
    OrderLength(order, donor.table);
    TransferExact(order, donor);
  }

  lemma Overwrites(reps: Cluster, j: Port, a: Replica, b: Replica)
    ensures reps[j := a][j := b] == reps[j := b]
  {
  }

  // ---------- the steps of a join ----------

  /** The step system's state while `j` asks the donor at `i`. */
  ghost function Asking(s: State, j: Port, i: nat, reps: Cluster): State {
    s.(session := Joining(j, s.members, i, None), replicas := reps)
  }

  /** `steps` lead from `s` to `j` asking the donor at `i`. */
  ghost predicate LeadsTo(s: State, steps: seq<Step>, j: Port, i: nat, reps: Cluster) {
    Executes(s, steps) && After(s, steps) == Asking(s, j, i, reps)
  }

  /** What the joiner holds after transfers that failed and left these tables. */
  function Left(joiner: Replica, tables: seq<Table>): Replica {
    if tables == [] then joiner else Replica(tables[|tables| - 1], joiner.version)
  }

  function FailSteps(j: Port, tables: seq<Table>): seq<Step> {
    if tables == [] then [BeginJoin(j)]
    else FailSteps(j, tables[..|tables| - 1]) + [DonorFails(tables[|tables| - 1])]
  }

  lemma {:induction false} FailsLead(s: State, j: Port, tables: seq<Table>)
    requires Can(s, BeginJoin(j)) && |tables| <= |s.members|
    ensures LeadsTo(s, FailSteps(j, tables), j, |tables|, s.replicas[j := Left(s.replicas[j], tables)])
  {
    if tables == [] {
      OneStep(s, BeginJoin(j));
      assert s.replicas[j := s.replicas[j]] == s.replicas;
    } else {
      var n := |tables| - 1;
      FailsLead(s, j, tables[..n]);
      ExtendRun(s, FailSteps(j, tables[..n]), DonorFails(tables[n]));
      Overwrites(s.replicas, j, Left(s.replicas[j], tables[..n]), Left(s.replicas[j], tables));
    }
  }

  lemma DonorCopiesNext(s: State, steps: seq<Step>, j: Port, i: nat, reps: Cluster, order: seq<bytes>, got: Replica)
    requires s.session.Closed? && LeadsTo(s, steps, j, i, reps) && i < |s.members| && j in reps
    requires s.members[i] in reps && s.members[i] !in s.wire
    requires Copy(order, Sent(reps, j, s.members[i])) == Some(got)
    ensures var steps' := steps + [DonorCopies(order)] + [HandOver];
            && Executes(s, steps')
            && After(s, steps') == s.(replicas := reps[j := got], members := s.members + [j])
  {
    ExtendRun(s, steps, DonorCopies(order));
    ExtendRun(s, steps + [DonorCopies(order)], HandOver);
  }

  lemma NobodyLeft(s: State, steps: seq<Step>, j: Port, i: nat, reps: Cluster)
    requires s.session.Closed? && LeadsTo(s, steps, j, i, reps)
    ensures Executes(s, steps + [GiveUp]) && After(s, steps + [GiveUp]) == s.(replicas := reps)
  {
    ExtendRun(s, steps, GiveUp);
  }

  /** The router is free, lists `ports`, and each of these servers is free to answer. */
  ghost predicate MayJoin(s: State, j: Port, ports: seq<Port>, reps: Cluster) {
    && s.session.Closed? && s.members == ports && s.replicas == reps && j in reps && |ports| < 255
    && forall i :: 0 <= i < |ports| ==> ports[i] in reps && ports[i] !in s.wire
  }

  /** Ask one listed server after another until a transfer succeeds; the failed ones left `tables`. */
  method AskDonors(net: map<Port, C.Coms>, j: Port, ports: seq<Port>, faults: seq<C.Fault>, ghost reps: Cluster)
    returns (found: bool, ghost tables: seq<Table>, ghost order: seq<bytes>, ghost got: Replica)
    requires NetOk(net) && |faults| == |ports| && j in net && reps == View(net)
    requires forall i :: 0 <= i < |ports| ==> ports[i] in net && Transferable(Sent(reps, j, ports[i]).table)
    modifies net[j]
    ensures View(net) == reps[j := got] && |tables| <= |ports|
    ensures forall i :: 0 <= i < |tables| ==> !Succeeds(faults[i], Sent(reps, j, ports[i]))
    ensures var n := |tables|;
            if found then n < |ports| && Transferred(order, Sent(reps, j, ports[n]), faults[n], got)
            else n == |ports| && got == Left(reps[j], tables)
  {
    found, tables, order, got := false, [], [], reps[j];
    for i := 0 to |ports|
      invariant !found && |tables| == i && got == Left(reps[j], tables) && View(net) == reps[j := got]
      invariant forall k :: 0 <= k < i ==> !Succeeds(faults[k], Sent(reps, j, ports[k]))
    {
      ghost var had := got;
      assert Sent(reps[j := had], j, ports[i]) == Sent(reps, j, ports[i]);
      found, order, got := CopyFrom(net, j, ports[i], faults[i]);
      Overwrites(reps, j, had, got);
      if found {
        return;
      }
      tables := tables + [got.table];
    }
  }

  /**
   * The whole call, `listArrives` when the router's list does. What failed transfers left behind is
   * gone: the joiner holds what the first one that succeeded carried. From any state `s` of the step
   * system that `net` is in, with the router free, the call is a run: it opens the join, drops the
   * donors that fail, and either copies and lists the joiner or gives up. The run ends in the servers'
   * own replicas, except that a loss of count or version that went unnoticed is no step of it and shows
   * in the joiner alone.
   */
  method UpdateAndOnline(net: map<Port, C.Coms>, j: Port, ports: seq<Port>, faults: seq<C.Fault>, listArrives: bool,
                         ghost s: State)
    returns (code: byte, ghost from: nat, ghost order: seq<bytes>, ghost got: Replica, ghost steps: seq<Step>)
    requires NetOk(net) && |faults| == |ports| && MayJoin(s, j, ports, View(net))
    requires forall i :: 0 <= i < |ports| ==> Transferable(Sent(s.replicas, j, ports[i]).table)
    modifies net[j]
    ensures View(net) == s.replicas[j := got] && Executes(s, steps)
    ensures code == 0 || code == 1
    ensures code == 0 ==>
              && from < |ports| && (forall i :: 0 <= i < from ==> !Succeeds(faults[i], Sent(s.replicas, j, ports[i])))
              && var donor := Sent(s.replicas, j, ports[from]);
              && Transferred(order, donor, faults[from], got)
              && After(s, steps) == s.(replicas := s.replicas[j := Copy(order, donor).value], members := ports + [j])
    ensures code == 1 ==>
              && (listArrives ==> forall i :: 0 <= i < |ports| ==> !Succeeds(faults[i], Sent(s.replicas, j, ports[i])))
              && (!listArrives ==> got == s.replicas[j]) && got.version == s.replicas[j].version
              && After(s, steps) == s.(replicas := View(net))
  {
    ghost var tables := [];
    var found := false;
    order, got := [], s.replicas[j];
    if listArrives {
      found, tables, order, got := AskDonors(net, j, ports, faults, s.replicas);
    }
    from := |tables|;
    FailsLead(s, j, tables);
    ghost var had := s.replicas[j := Left(s.replicas[j], tables)];
    steps := FailSteps(j, tables);
    if !found {
      NobodyLeft(s, steps, j, from, had);
      steps := steps + [GiveUp];
      return 1, from, order, got, steps;
    }
    ghost var copy := Copy(order, Sent(s.replicas, j, ports[from])).value;
    DonorCopiesNext(s, steps, j, from, had, order, copy);
    Overwrites(s.replicas, j, had[j], copy);
    steps := steps + [DonorCopies(order)] + [HandOver];
    code := 0;
  }
}
