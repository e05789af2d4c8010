/**
 * The replication protocol as a step system: the router's session lock, its member list, every
 * server's replica, the frames on the wire, and the program counter of the server that holds the
 * session. A run is a sequence of steps, each enabled in the state it is taken from.
 */
module Protocol {
  import opened Bytes
  import opened Replicas
  import opened Wire

  /** A server is named by its TCP port, which is all the router tells a coordinator about it. */
  type Port = word

  type Cluster = map<Port, Replica>

  /** One call of `update_hosts`: who coordinates, the update, the ports the router sent, whom to skip. */
  datatype Call = Call(c: Port, u: Pushable, ports: seq<Port>, own: Port, fail: int)

  /** What the holder of the router's `tcp_mutex` is doing. */
  datatype Session =
    | Closed
    | Updating(call: Call, pos: nat, awaiting: bool, committed: bool,
               thisStale: bool, someFresh: bool, someStale: bool, start: Cluster)
    | Joining(joiner: Port, donors: seq<Port>, tried: nat, donor: Option<Port>)

  /**
   * `base` and `history` record where the tables started and every update begun since; `settled`
   * says that some attempt at the newest one completed without skipping a peer; `code` is what the
   * last completed update returned. `wire` holds a frame sent to a server and not yet handled by it:
   * a server handles one connection at a time, so there is at most one.
   */
  datatype State = State(session: Session, members: seq<Port>, replicas: Cluster,
                         wire: map<Port, Pushable>, base: Replica, history: seq<Pushable>,
                         settled: bool, code: Option<int>)

  datatype Step =
    | Boot(p: Port)
    | BeginUpdate(k: Call)
    | Skip
    | Query
    | PushDone
    | Abort
    | CommitLocal
    | FinishUpdate
    | Deliver(p: Port)
    | Drop(p: Port)
    | BeginJoin(j: Port)
    | DonorFails(partial: Table)
    | DonorCopies(order: seq<bytes>)
    | HandOver
    | GiveUp
    | RemoveServer(p: Port)

  // ---------- vocabulary ----------

  /** The replica every listed server holds once the newest update is in. */
  function Newest(s: State): Replica {
    Replay(s.base, s.history)
  }

  /** The replica every listed server held before the newest update. */
  function Previous(s: State): Replica
    requires s.history != []
  {
    Replay(s.base, s.history[..|s.history| - 1])
  }

  function Current(s: State): Pushable
    requires s.history != []
  {
    s.history[|s.history| - 1]
  }

  /** The call passes over the peer at `i`. */
  predicate Skips(k: Call, i: nat)
    requires i < |k.ports|
  {
    k.ports[i] == k.own || i == k.fail
  }

  /** The coordinator is the only listed server, if any, that the call passes over. */
  predicate SkipsNoPeer(k: Call) {
    forall i :: 0 <= i < |k.ports| && Skips(k, i) ==> k.ports[i] == k.c
  }

  /** It passes over exactly its coordinator, wherever listed. */
  predicate SkipsExactly(k: Call) {
    forall i :: 0 <= i < |k.ports| ==> (Skips(k, i) <==> k.ports[i] == k.c)
  }

  /** Some peer that the call contacts holds (`upToDate`) or lacks the update's id in `reps`. */
  ghost predicate SomePeer(reps: Cluster, k: Call, upToDate: bool) {
    exists i :: 0 <= i < |k.ports| && !Skips(k, i) && k.ports[i] in reps
                && (reps[k.ports[i]].version == k.u.id) == upToDate
  }

  predicate Distinct(ps: seq<Port>) {
    forall i, j :: 0 <= i < j < |ps| ==> ps[i] != ps[j]
  }

  /** `ps` without `p`, the others in their old order. */
  function Without(ps: seq<Port>, p: Port): (r: seq<Port>)
    ensures forall q :: q in r <==> q in ps && q != p
    ensures Distinct(ps) ==> Distinct(r)
  {
    if ps == [] then []
    else
      var last := |ps| - 1;
      var rest := Without(ps[..last], p);
      assert forall q :: q in ps <==> q in ps[..last] || q == ps[last];
      assert Distinct(ps) ==> Distinct(ps[..last]) && ps[last] !in rest;
      if ps[last] == p then rest else rest + [ps[last]]
  }

  /**
   * What the server at `p` sends a joiner `j`. A joiner clears its table before it asks, so one that is
   * still listed and asks itself is sent no entry, and the version it has.
   */
  function Sent(reps: Cluster, j: Port, p: Port): Replica
    requires p in reps
  {
    if p == j then Replica(map[], reps[p].version) else reps[p]
  }

  /** The return value of a completed `update_hosts`, branch for branch. */
  function ReturnCode(thisStale: bool, someFresh: bool, someStale: bool): int {
    if thisStale && !someFresh then 0
    else if !thisStale && someStale then 9
    else if thisStale && someFresh then 8
    else if !thisStale && !someStale then 6
    else 10
  }

  // ---------- steps ----------

  /** An interrupted update is retried before another starts, and consecutive ids differ. */
  predicate MayStart(s: State, u: Pushable) {
    || (s.history != [] && u == Current(s))
    || (s.settled && u.id != Newest(s).version)
  }

  predicate Can(s: State, step: Step) {
    var ss := s.session;
    match step
    case Boot(p) => p !in s.replicas
    case BeginUpdate(k) =>
      ss.Closed? && k.ports == s.members && k.c in s.replicas && k.fail != -1 && MayStart(s, k.u)
    case Skip => ss.Updating? && ss.pos < |ss.call.ports| && !ss.awaiting && Skips(ss.call, ss.pos)
    case Query =>
      && ss.Updating? && ss.pos < |ss.call.ports| && !ss.awaiting && !Skips(ss.call, ss.pos)
      && ss.call.ports[ss.pos] in s.replicas && ss.call.ports[ss.pos] !in s.wire
    case PushDone =>
      ss.Updating? && ss.pos < |ss.call.ports| && ss.awaiting && ss.call.ports[ss.pos] !in s.wire
    case Abort => ss.Updating?
    case CommitLocal =>
      ss.Updating? && ss.pos == |ss.call.ports| && !ss.awaiting && !ss.committed && ss.call.c in s.replicas
    case FinishUpdate => ss.Updating? && ss.committed
    case Deliver(p) => p in s.wire && p in s.replicas
    case Drop(p) =>
      p in s.wire && !(ss.Updating? && ss.awaiting && ss.pos < |ss.call.ports| && ss.call.ports[ss.pos] == p)
    case BeginJoin(j) => ss.Closed? && j in s.replicas && |s.members| < 255
    case DonorFails(_) =>
      ss.Joining? && ss.donor.None? && ss.tried < |ss.donors| && ss.joiner in s.replicas
    case DonorCopies(order) =>
      && ss.Joining? && ss.donor.None? && ss.tried < |ss.donors|
      && ss.donors[ss.tried] in s.replicas && ss.donors[ss.tried] !in s.wire
      && Copy(order, Sent(s.replicas, ss.joiner, ss.donors[ss.tried])).Some? && ss.joiner in s.replicas
    case HandOver => ss.Joining? && ss.donor.Some?
    case GiveUp => ss.Joining?
    case RemoveServer(p) => ss.Closed? && p in s.members
  }

  function Do(s: State, step: Step): State
    requires Can(s, step)
  {
    var ss := s.session;
    match step
    case Boot(p) => s.(replicas := s.replicas[p := Replica(map[], 0)])
    case BeginUpdate(k) =>
      var retry := s.history != [] && k.u == Current(s);
      s.(session := Updating(k, 0, false, false, s.replicas[k.c].version != k.u.id, false, false, s.replicas),
         history := if retry then s.history else s.history + [k.u],
         settled := retry && s.settled)
    case Skip => s.(session := ss.(pos := ss.pos + 1))
    case Query =>
      var p := ss.call.ports[ss.pos];
      if s.replicas[p].version == ss.call.u.id then
        s.(session := ss.(pos := ss.pos + 1, someFresh := true))
      else
        s.(session := ss.(awaiting := true, someStale := true), wire := s.wire[p := ss.call.u])
    case PushDone => s.(session := ss.(pos := ss.pos + 1, awaiting := false))
    case Abort => s.(session := Closed)
    case CommitLocal =>
      var c := ss.call.c;
      s.(session := ss.(committed := true),
         replicas := if ss.thisStale then s.replicas[c := Apply(ss.call.u, s.replicas[c])] else s.replicas)
    case FinishUpdate =>
      s.(session := Closed,
         settled := s.settled || SkipsNoPeer(ss.call),
         code := Some(ReturnCode(ss.thisStale, ss.someFresh, ss.someStale)))
    case Deliver(p) =>
      s.(replicas := s.replicas[p := Apply(s.wire[p], s.replicas[p])], wire := s.wire - {p})
    case Drop(p) => s.(wire := s.wire - {p})
    case BeginJoin(j) => s.(session := Joining(j, s.members, 0, None))
    case DonorFails(partial) =>
      s.(session := ss.(tried := ss.tried + 1),
         replicas := s.replicas[ss.joiner := Replica(partial, s.replicas[ss.joiner].version)])
    case DonorCopies(order) =>
      s.(session := ss.(donor := Some(ss.donors[ss.tried])),
         replicas := s.replicas[ss.joiner := Copy(order, Sent(s.replicas, ss.joiner, ss.donors[ss.tried])).value])
    case HandOver => s.(session := Closed, members := s.members + [ss.joiner])
    case GiveUp => s.(session := Closed)
    case RemoveServer(p) => s.(members := Without(s.members, p))
  }

  // ---------- runs ----------

  /** Every listed server starts from the same hosts file, each entry fit to be sent, at version 0. */
  ghost predicate Init(s: State) {
    && s.session.Closed? && Distinct(s.members) && s.wire == map[]
    && s.history == [] && s.settled && s.code.None?
    && s.base.version == 0 && Transferable(s.base.table)
    && forall p :: p in s.members ==> p in s.replicas && s.replicas[p] == s.base
  }

  ghost predicate Executes(s: State, steps: seq<Step>)
    decreases |steps|
  {
    steps == [] || (Can(s, steps[0]) && Executes(Do(s, steps[0]), steps[1..]))
  }

  ghost function After(s: State, steps: seq<Step>): State
    requires Executes(s, steps)
    decreases |steps|
  {
    if steps == [] then s else After(Do(s, steps[0]), steps[1..])
  }

  /** The donor whose table the joiner has copied has few enough entries for the 8-bit count. */
  ghost predicate CopiedFew(s: State) {
    var ss := s.session;
    ss.Joining? && ss.donor.Some? && ss.donor.value in s.replicas ==>
      |Sent(s.replicas, ss.joiner, ss.donor.value).table| <= 255
  }

  /**
   * What no server checks before a step, and every step of a run must meet for the listed servers to
   * agree: a coordinator has no frame of a different update waiting for it, a joiner is not listed
   * and has no frame waiting for it, and one that is listed has copied a table that fits the count.
   */
  ghost predicate Orderly(s: State, step: Step) {
    match step
    case BeginUpdate(k) => k.c in s.wire ==> s.wire[k.c] == k.u
    case BeginJoin(j) => j !in s.members && j !in s.wire
    case HandOver => CopiedFew(s)
    case _ => true
  }

  ghost predicate OrderlyRun(s: State, steps: seq<Step>)
    requires Executes(s, steps)
    decreases |steps|
  {
    steps == [] || (Orderly(s, steps[0]) && OrderlyRun(Do(s, steps[0]), steps[1..]))
  }

  lemma {:induction false} ExecutesConcat(s: State, a: seq<Step>, b: seq<Step>)
    requires Executes(s, a) && Executes(After(s, a), b)
    ensures Executes(s, a + b) && After(s, a + b) == After(After(s, a), b)
    decreases |a|
  {
    if a == [] {
      assert a + b == b;
    } else {
      ExecutesConcat(Do(s, a[0]), a[1..], b);
      assert (a + b)[1..] == a[1..] + b;
    }
  }

  lemma OneStep(s: State, x: Step)
    requires Can(s, x)
    ensures Executes(s, [x]) && After(s, [x]) == Do(s, x)
  {
  }

  /** One more step at the end of a run. */
  lemma ExtendRun(s: State, steps: seq<Step>, x: Step)
    requires Executes(s, steps) && Can(After(s, steps), x)
    ensures Executes(s, steps + [x]) && After(s, steps + [x]) == Do(After(s, steps), x)
  {
    OneStep(After(s, steps), x);
    ExecutesConcat(s, steps, [x]);
  }

  lemma TwoSteps(s: State, x: Step, y: Step)
    requires Can(s, x) && Can(Do(s, x), y)
    ensures Executes(s, [x, y]) && After(s, [x, y]) == Do(Do(s, x), y)
  {
    assert [x, y][1..] == [y];
    OneStep(Do(s, x), y);
  }

  lemma ThreeSteps(s: State, x: Step, y: Step, z: Step)
    requires Can(s, x) && Can(Do(s, x), y) && Can(Do(Do(s, x), y), z)
    ensures Executes(s, [x, y, z]) && After(s, [x, y, z]) == Do(Do(Do(s, x), y), z)
  {
    assert [x, y, z][1..] == [y, z];
    TwoSteps(Do(s, x), y, z);
  }

  /** Every step but the closing ones leaves an open update session open. */
  predicate KeepsSession(step: Step) {
    !(step.Abort? || step.FinishUpdate?)
  }
}
