/**
 * The scoreboard as a reorder buffer: what one request or answer does to (queue, log), and what the
 * log is after any history, stated from the history alone.
 */
module Reorder {
  import opened Bytes

  /** A clock reading; the model never computes with it. */
  type Time = real

  const QUEUE_LIMIT: nat := 0xFFFF

  datatype Row = Row(startTime: Time, id: word, dnsId: byte, rrlRemoved: byte,
                     received: bool, finishTime: Time, found: byte)

  datatype Event =
    | Request(id: word, dnsId: byte, rrlRemoved: byte, startTime: Time)
    | Answer(id: word, valid: byte, now: Time)

  datatype Board = Board(queue: seq<Row>, log: seq<Row>)

  function NewRow(e: Event): Row
    requires e.Request?
  {
    Row(e.startTime, e.id, e.dnsId, e.rrlRemoved, false, 0.0, 0)
  }

  function Answered(r: Row, e: Event): Row
    requires e.Answer?
  {
    if r.id == e.id then r.(finishTime := e.now, received := true, found := e.valid) else r
  }

  function Marked(q: seq<Row>, e: Event): (r: seq<Row>)
    requires e.Answer?
    ensures |r| == |q|
  {
    seq(|q|, i requires 0 <= i < |q| => Answered(q[i], e))
  }

  /** `k` is the least prefix of `q` whose removal leaves at most 0xFFFF rows and an unanswered front. */
  predicate IsFlushLen(q: seq<Row>, k: nat) {
    && k <= |q| && |q| - k <= QUEUE_LIMIT && (k < |q| ==> !q[k].received)
    && forall j :: 0 <= j < k ==> q[j].received || |q| - j > QUEUE_LIMIT
  }

  function FlushLen(q: seq<Row>): (k: nat)
    ensures IsFlushLen(q, k)
  {
    FlushFrom(q, 0)
  }

  function FlushFrom(q: seq<Row>, i: nat): (k: nat)
    requires i <= |q| && forall j :: 0 <= j < i ==> q[j].received || |q| - j > QUEUE_LIMIT
    ensures IsFlushLen(q, k)
    decreases |q| - i
  {
    if i < |q| && (q[i].received || |q| - i > QUEUE_LIMIT) then FlushFrom(q, i + 1) else i
  }

  /** `FlushLen` is the only length with its two properties. */
  lemma FlushLenIs(q: seq<Row>, k: nat)
    requires IsFlushLen(q, k)
    ensures FlushLen(q) == k
  {
    var l := FlushLen(q);
    assert l < k ==> l < |q|;
  }

  function Handle(b: Board, e: Event): Board {
    match e
    case Request(_, _, rrlRemoved, _) =>
      if rrlRemoved != 0 then b.(log := b.log + [NewRow(e)]) else b.(queue := b.queue + [NewRow(e)])
    case Answer(_, _, _) =>
      var q := Marked(b.queue, e);
      var k := FlushLen(q);
      Board(q[k..], b.log + q[..k])
  }

  /**
   * What one answer means, row by row: every queued row with its id takes the outcome, whether the flush
   * logs it or not, and no other row changes; the log only grows; and what is flushed is the shortest
   * prefix that leaves an unanswered front and at most 0xFFFF rows.
   */
  lemma AnswerMeans(b: Board, id: word, valid: byte, now: Time)
    ensures var b' := Handle(b, Answer(id, valid, now));
            && |b.log| <= |b'.log| && b'.log[..|b.log|] == b.log && |b'.log| + |b'.queue| == |b.log| + |b.queue|
            && (forall i :: 0 <= i < |b.queue| ==>
                  var was, r := b.queue[i], (b'.log + b'.queue)[|b.log| + i];
                  r == if was.id == id then was.(received := true, finishTime := now, found := valid) else was)
            && |b'.queue| <= 0xFFFF && (b'.queue != [] ==> !b'.queue[0].received)
            && forall i :: |b.log| <= i < |b'.log| ==> b'.log[i].received || |b'.log| + |b'.queue| - i > 0xFFFF
  {
    var q := Marked(b.queue, Answer(id, valid, now));
    var k := FlushLen(q);
    assert b.log + q[..k] + q[k..] == b.log + q;
    forall i | |b.log| <= i < |b.log| + k ensures (b.log + q[..k])[i] == q[i - |b.log|] {
    }
  }

  function Run(h: seq<Event>): Board {
    if h == [] then Board([], []) else Handle(Run(h[..|h| - 1]), h[|h| - 1])
  }

  /** What closing does: the rest of the queue goes to the log as it stands. */
  function Destroyed(b: Board): Board {
    Board([], b.log + b.queue)
  }

  // ---------- the history's own terms ----------

  predicate Queues(e: Event) {
    e.Request? && e.rrlRemoved == 0
  }

  /** The positions of the requests the scoreboard queued or, `limited`, logged at once; oldest first. */
  function Queued(h: seq<Event>, limited: bool := false): (ps: seq<nat>)
    ensures forall i :: 0 <= i < |ps| ==> ps[i] < |h| && h[ps[i]].Request? && (h[ps[i]].rrlRemoved != 0) == limited
  {
    if h == [] then []
    else
      var n := |h| - 1;
      var ps := Queued(h[..n], limited);
      if h[n].Request? && (h[n].rrlRemoved != 0) == limited then ps + [n] else ps
  }

  /** They are all of them. */
  lemma {:induction false} QueuedAreAll(h: seq<Event>, limited: bool, p: nat)
    requires p < |h| && h[p].Request? && (h[p].rrlRemoved != 0) == limited
    ensures p in Queued(h, limited)
    decreases |h|
  {
    if p < |h| - 1 {
      QueuedAreAll(h[..|h| - 1], limited, p);
    } else {
      assert Queued(h, limited)[|Queued(h, limited)| - 1] == p;
    }
  }

  /** Each once, in the order they came. */
  lemma {:induction false} QueuedInOrder(h: seq<Event>, limited: bool)
    ensures forall i, j :: 0 <= i < j < |Queued(h, limited)| ==> Queued(h, limited)[i] < Queued(h, limited)[j]
    decreases |h|
  {
    if h != [] {
      QueuedInOrder(h[..|h| - 1], limited);
    }
  }

  /** A matching answer arrived after the request at `p` was queued. */
  ghost predicate AnsweredSince(h: seq<Event>, p: nat)
    requires p < |h| && Queues(h[p])
  {
    exists j :: p < j < |h| && h[j].Answer? && h[j].id == h[p].id
  }

  /** The row of the request at `p` as the answers since have left it: the newest one wins. */
  function RowOf(h: seq<Event>, p: nat): Row
    requires p < |h| && Queues(h[p])
    decreases |h|
  {
    var n := |h| - 1;
    if n == p then NewRow(h[p])
    else if h[n].Answer? then Answered(RowOf(h[..n], p), h[n])
    else RowOf(h[..n], p)
  }

  /** The longest prefix of queued requests all of which have been answered since. */
  ghost function DonePrefix(h: seq<Event>): (m: nat)
    ensures m <= |Queued(h)|
    ensures forall i :: 0 <= i < m ==> AnsweredSince(h, Queued(h)[i])
    ensures m < |Queued(h)| ==> !AnsweredSince(h, Queued(h)[m])
  {
    DoneFrom(h, 0)
  }

  ghost function DoneFrom(h: seq<Event>, i: nat): (m: nat)
    requires i <= |Queued(h)|
    ensures i <= m <= |Queued(h)|
    ensures forall j :: i <= j < m ==> AnsweredSince(h, Queued(h)[j])
    ensures m < |Queued(h)| ==> !AnsweredSince(h, Queued(h)[m])
    decreases |Queued(h)| - i
  {
    if i < |Queued(h)| && AnsweredSince(h, Queued(h)[i]) then DoneFrom(h, i + 1) else i
  }

  // ---------- how the history's terms move with one event ----------

  lemma QueuedExtend(g: seq<Event>, e: Event)
    ensures Queued(g + [e]) == if Queues(e) then Queued(g) + [|g|] else Queued(g)
  {
    assert (g + [e])[..|g|] == g;
  }

  lemma RunExtend(g: seq<Event>, e: Event)
    ensures Run(g + [e]) == Handle(Run(g), e)
  {
    assert (g + [e])[..|g|] == g;
  }

  lemma RowExtend(g: seq<Event>, e: Event, p: nat)
    requires p < |g| && Queues(g[p])
    ensures RowOf(g + [e], p) == if e.Answer? then Answered(RowOf(g, p), e) else RowOf(g, p)
  {
    assert (g + [e])[..|g|] == g;
  }

  lemma SinceExtend(g: seq<Event>, e: Event, p: nat)
    requires p < |g| && Queues(g[p])
    ensures AnsweredSince(g + [e], p) <==> AnsweredSince(g, p) || (e.Answer? && e.id == g[p].id)
  {
    var h := g + [e];
    if j :| p < j < |h| && h[j].Answer? && h[j].id == h[p].id {
      assert j < |g| ==> g[j] == h[j];
    }
    if j :| p < j < |g| && g[j].Answer? && g[j].id == g[p].id {
      assert h[j] == g[j];
    }
    assert h[|g|] == e;
  }

  /** A row holds its request's fields, and says it was answered exactly when a matching answer came since. */
  lemma {:induction false} RowOfReceived(h: seq<Event>, p: nat)
    requires p < |h| && Queues(h[p])
    ensures var r, e := RowOf(h, p), h[p];
            && r.startTime == e.startTime && r.id == e.id && r.dnsId == e.dnsId && r.rrlRemoved == 0
            && (r.received <==> exists j :: p < j < |h| && h[j].Answer? && h[j].id == e.id)
            && (!r.received ==> r.finishTime == 0.0 && r.found == 0)
    decreases |h|
  {
    if p < |h| - 1 {
      var g, e := h[..|h| - 1], h[|h| - 1];
      assert h == g + [e];
      RowOfReceived(g, p);
      assert AnsweredSince(g, p) <==> exists j :: p < j < |g| && g[j].Answer? && g[j].id == g[p].id;
      SinceExtend(g, e, p);
    }
  }

  /** The newest matching answer, at `j`, gives the row its outcome. */
  lemma {:induction false} RowOfLast(h: seq<Event>, p: nat, j: nat)
    requires p < j < |h| && Queues(h[p]) && h[j].Answer? && h[j].id == h[p].id
    requires forall i :: j < i < |h| && h[i].Answer? ==> h[i].id != h[p].id
    ensures RowOf(h, p).received && RowOf(h, p).finishTime == h[j].now && RowOf(h, p).found == h[j].valid
    decreases |h|
  {
    var g := h[..|h| - 1];
    RowOfReceived(g, p);
    if j < |h| - 1 {
      RowOfLast(g, p, j);
      RowOfReceived(h, p);
    }
  }

  /** After a request, the first queued request not answered before is not answered now. */
  lemma NextUnanswered(g: seq<Event>, e: Event)
    requires e.Request? && DonePrefix(g) < |Queued(g + [e])|
    ensures !AnsweredSince(g + [e], Queued(g + [e])[DonePrefix(g)])
  {
    var h, d := g + [e], DonePrefix(g);
    QueuedExtend(g, e);
    if d < |Queued(g)| {
      assert Queued(h)[d] == Queued(g)[d];
      SinceExtend(g, e, Queued(g)[d]);
    } else {
      assert Queued(h)[d] == |g|;
    }
  }

  /** Nothing falls out of the answered prefix, and a request leaves it as it is. */
  lemma DoneExtend(g: seq<Event>, e: Event)
    ensures DonePrefix(g) <= DonePrefix(g + [e])
    ensures e.Request? ==> DonePrefix(g) == DonePrefix(g + [e])
  {
    var h := g + [e];
    QueuedExtend(g, e);
    var d, d' := DonePrefix(g), DonePrefix(h);
    if d' < d {
      SinceExtend(g, e, Queued(g)[d']);
    }
    if e.Request? && d < |Queued(h)| {
      NextUnanswered(g, e);
    }
  }

  // ---------- the log is the longest answered prefix ----------

  /** How many queued requests wait behind the answered prefix. */
  ghost function Pending(h: seq<Event>): nat {
    |Queued(h)| - DonePrefix(h)
  }

  /** Queued request number `i`'s row as it was when the answered prefix first covered it. */
  ghost function LogRow(h: seq<Event>, i: nat): Row
    requires i < DonePrefix(h)
    decreases |h|
  {
    if i < DonePrefix(h[..|h| - 1]) then LogRow(h[..|h| - 1], i) else RowOf(h, Queued(h)[i])
  }

  lemma LogRowExtend(g: seq<Event>, e: Event, i: nat)
    requires i < DonePrefix(g + [e])
    ensures LogRow(g + [e], i) == if i < DonePrefix(g) then LogRow(g, i) else RowOf(g + [e], Queued(g + [e])[i])
  {
    assert (g + [e])[..|g|] == g;
  }

  /** The rows of requests that were queued or, `limited`, dropped by rate limiting. */
  function Kept(rows: seq<Row>, limited: bool := false): seq<Row> {
    if rows == [] then []
    else
      var last := rows[|rows| - 1];
      if (last.rrlRemoved != 0) == limited then Kept(rows[..|rows| - 1], limited) + [last]
      else Kept(rows[..|rows| - 1], limited)
  }

  /** Which rows these are: one by one, by their rate-limiting mark. */
  lemma KeptOne(r: Row, limited: bool)
    ensures Kept([r], limited) == if (r.rrlRemoved != 0) == limited then [r] else []
  {
    assert [r][..0] == [];
  }

  lemma {:induction false} KeptConcat(a: seq<Row>, b: seq<Row>, limited: bool := false)
    ensures Kept(a + b, limited) == Kept(a, limited) + Kept(b, limited)
  {
    if b == [] {
      assert a + b == a;
    } else {
      assert (a + b)[..|a + b| - 1] == a + b[..|b| - 1];
      KeptConcat(a, b[..|b| - 1], limited);
    }
  }

  lemma {:induction false} KeptAll(rows: seq<Row>)
    requires forall i :: 0 <= i < |rows| ==> rows[i].rrlRemoved == 0
    ensures Kept(rows) == rows && Kept(rows, true) == []
  {
    if rows != [] {
      KeptAll(rows[..|rows| - 1]);
    }
  }

  /** What one event adds to the kept part of the log. */
  lemma KeptHandle(b: Board, e: Event)
    requires forall i :: 0 <= i < |b.queue| ==> b.queue[i].rrlRemoved == 0
    ensures Kept(Handle(b, e).log)
         == if e.Request? then Kept(b.log)
            else Kept(b.log) + Marked(b.queue, e)[..FlushLen(Marked(b.queue, e))]
    ensures Kept(Handle(b, e).log, true)
         == if e.Request? && e.rrlRemoved != 0 then Kept(b.log, true) + [NewRow(e)] else Kept(b.log, true)
  {
    if e.Request? {
      KeptConcat(b.log, [NewRow(e)]);
      KeptConcat(b.log, [NewRow(e)], true);
      KeptOne(NewRow(e), false);
      KeptOne(NewRow(e), true);
    } else {
      var q := Marked(b.queue, e);
      KeptConcat(b.log, q[..FlushLen(q)]);
      KeptConcat(b.log, q[..FlushLen(q)], true);
      KeptAll(q[..FlushLen(q)]);
    }
  }

  ghost predicate QueueIsPending(h: seq<Event>, q: seq<Row>) {
    |q| == Pending(h) && forall i :: 0 <= i < |q| ==> q[i] == RowOf(h, Queued(h)[DonePrefix(h) + i])
  }

  ghost predicate LogIsDone(h: seq<Event>, l: seq<Row>) {
    |l| == DonePrefix(h) && forall i :: 0 <= i < |l| ==> l[i] == LogRow(h, i)
  }

  lemma PendingRowsKept(h: seq<Event>, q: seq<Row>)
    requires QueueIsPending(h, q)
    ensures forall i :: 0 <= i < |q| ==> q[i].rrlRemoved == 0
  {
    forall i | 0 <= i < |q| ensures q[i].rrlRemoved == 0 {
      RowOfReceived(h, Queued(h)[DonePrefix(h) + i]);
    }
  }

  /** The waiting rows are untouched by a request. */
  lemma RequestWaits(g: seq<Event>, e: Event, q: seq<Row>, i: nat)
    requires e.Request? && QueueIsPending(g, q) && i < |q|
    ensures DonePrefix(g) + i < |Queued(g + [e])| && q[i] == RowOf(g + [e], Queued(g + [e])[DonePrefix(g) + i])
  {
    QueuedExtend(g, e);
    RowExtend(g, e, Queued(g)[DonePrefix(g) + i]);
  }

  lemma RequestQueue(g: seq<Event>, e: Event, q: seq<Row>)
    requires e.Request? && QueueIsPending(g, q)
    ensures QueueIsPending(g + [e], if Queues(e) then q + [NewRow(e)] else q)
  {
    DoneExtend(g, e);
    QueuedExtend(g, e);
    NewRowOf(g, e);
    var q' := if Queues(e) then q + [NewRow(e)] else q;
    forall i | 0 <= i < |q'| ensures q'[i] == RowOf(g + [e], Queued(g + [e])[DonePrefix(g + [e]) + i]) {
      if i < |q| {
        RequestWaits(g, e, q, i);
      }
    }
  }

  lemma NewRowOf(g: seq<Event>, e: Event)
    ensures Queues(e) ==> RowOf(g + [e], |g|) == NewRow(e)
  {
  }

  lemma RequestLog(g: seq<Event>, e: Event, l: seq<Row>)
    requires e.Request? && LogIsDone(g, l)
    ensures LogIsDone(g + [e], l)
  {
    DoneExtend(g, e);
    forall i | 0 <= i < |l| ensures LogRow(g + [e], i) == LogRow(g, i) {
      LogRowExtend(g, e, i);
    }
  }

  /** One answer flushes exactly the rows by which the answered prefix grows. */
  lemma AnswerFlushes(g: seq<Event>, e: Event, b: Board)
    requires e.Answer? && QueueIsPending(g, b.queue) && |b.queue| <= QUEUE_LIMIT
    ensures DonePrefix(g) <= DonePrefix(g + [e])
    ensures var q := Marked(b.queue, e);
            && FlushLen(q) == DonePrefix(g + [e]) - DonePrefix(g)
            && forall i :: 0 <= i < |q| ==> q[i] == RowOf(g + [e], Queued(g + [e])[DonePrefix(g) + i])
  {
    var h := g + [e];
    var d, d', q := DonePrefix(g), DonePrefix(h), Marked(b.queue, e);
    QueuedExtend(g, e);
    DoneExtend(g, e);
    forall i | 0 <= i < |q|
      ensures q[i] == RowOf(h, Queued(h)[d + i]) && (q[i].received <==> AnsweredSince(h, Queued(h)[d + i]))
    {
      RowExtend(g, e, Queued(g)[d + i]);
      RowOfReceived(h, Queued(h)[d + i]);
    }
    FlushLenIs(q, d' - d);
  }

  /** Cutting the answered rows off the marked queue `q` restores both halves. */
  lemma AnswerCuts(g: seq<Event>, e: Event, q: seq<Row>, k: nat, l: seq<Row>)
    requires e.Answer? && LogIsDone(g, l) && |q| == Pending(g)
    requires DonePrefix(g) + k == DonePrefix(g + [e]) && k <= |q|
    requires forall i :: 0 <= i < |q| ==> q[i] == RowOf(g + [e], Queued(g + [e])[DonePrefix(g) + i])
    ensures QueueIsPending(g + [e], q[k..]) && LogIsDone(g + [e], l + q[..k])
  {
    var d := DonePrefix(g);
    QueuedExtend(g, e);
    forall i | 0 <= i < d + k ensures (l + q[..k])[i] == LogRow(g + [e], i) {
      LogRowExtend(g, e, i);
      if i >= d {
        assert (l + q[..k])[i] == q[i - d];
      }
    }
  }

  lemma EventStep(g: seq<Event>, e: Event, b: Board)
    requires QueueIsPending(g, b.queue) && LogIsDone(g, Kept(b.log)) && (e.Answer? ==> Pending(g) <= QUEUE_LIMIT)
    ensures QueueIsPending(g + [e], Handle(b, e).queue) && LogIsDone(g + [e], Kept(Handle(b, e).log))
  {
    PendingRowsKept(g, b.queue);
    KeptHandle(b, e);
    if e.Request? {
      RequestQueue(g, e, b.queue);
      RequestLog(g, e, Kept(b.log));
    } else {
      AnswerFlushes(g, e, b);
      AnswerCuts(g, e, Marked(b.queue, e), FlushLen(Marked(b.queue, e)), Kept(b.log));
    }
  }

  /**
   * When no answer ever finds more than 0xFFFF rows waiting, after any history the log (rate-limited
   * rows aside) is the longest prefix of the queued requests all of which have been answered since, each
   * row as the answers had left it when the prefix first reached it, and the queue is the rest, each row
   * as the answers leave it now.
   */
  lemma {:induction false} LogIsLongestAnsweredPrefix(h: seq<Event>)
    requires forall t :: 0 <= t < |h| && h[t].Answer? ==> |Queued(h[..t])| - DonePrefix(h[..t]) <= 0xFFFF
    ensures LogIsDone(h, Kept(Run(h).log)) && QueueIsPending(h, Run(h).queue)
    decreases |h|
  {
    if h != [] {
      var g, e := h[..|h| - 1], h[|h| - 1];
      assert h == g + [e];
      assert forall t | 0 <= t < |g| :: g[..t] == h[..t] && g[t] == h[t];
      LogIsLongestAnsweredPrefix(g);
      EventStep(g, e, Run(g));
      RunExtend(g, e);
    }
  }

  // ---------- conservation, overflow or not ----------

  /** `r` is the row of the request at `p`, scored only if a matching answer came. */
  ghost predicate RowFor(r: Row, h: seq<Event>, p: nat)
    requires p < |h| && Queues(h[p])
  {
    && r.startTime == h[p].startTime && r.id == h[p].id && r.dnsId == h[p].dnsId && r.rrlRemoved == 0
    && if r.received then AnsweredSince(h, p) else r.finishTime == 0.0 && r.found == 0
  }

  /** `rows` are those of the queued requests of `h` in order, each exactly once. */
  ghost predicate AreTheRequests(rows: seq<Row>, h: seq<Event>) {
    |rows| == |Queued(h)| && forall i :: 0 <= i < |rows| ==> RowFor(rows[i], h, Queued(h)[i])
  }

  /** `rows` are those of the rate-limited requests of `h` in order, each exactly once. */
  ghost predicate AreTheLimited(rows: seq<Row>, h: seq<Event>) {
    |rows| == |Queued(h, true)| && forall i :: 0 <= i < |rows| ==> rows[i] == NewRow(h[Queued(h, true)[i]])
  }

  /** The log and queue of a board conserve the requests, and no answered row waits at the front. */
  ghost predicate Conserves(b: Board, h: seq<Event>) {
    && AreTheRequests(Kept(b.log) + b.queue, h) && AreTheLimited(Kept(b.log, true), h)
    && (b.queue == [] || !b.queue[0].received)
    && forall i :: 0 <= i < |b.queue| ==> b.queue[i].rrlRemoved == 0
  }

  lemma RowForExtend(r: Row, g: seq<Event>, e: Event, p: nat)
    requires p < |g| && Queues(g[p]) && RowFor(r, g, p)
    ensures RowFor(r, g + [e], p)
    ensures e.Answer? ==> RowFor(Answered(r, e), g + [e], p)
  {
    SinceExtend(g, e, p);
  }

  lemma AnswerConserves(g: seq<Event>, e: Event, front: seq<Row>, q: seq<Row>, k: nat)
    requires e.Answer? && AreTheRequests(front + q, g) && k <= |q|
    ensures AreTheRequests(front + Marked(q, e)[..k] + Marked(q, e)[k..], g + [e])
  {
    var rows, rows' := front + q, front + Marked(q, e);
    QueuedExtend(g, e);
    assert front + Marked(q, e)[..k] + Marked(q, e)[k..] == rows';
    forall i | 0 <= i < |rows'| ensures RowFor(rows'[i], g + [e], Queued(g + [e])[i]) {
      assert rows'[i] == if i < |front| then rows[i] else Answered(rows[i], e);
      RowForExtend(rows[i], g, e, Queued(g)[i]);
    }
  }

  lemma RequestConserves(g: seq<Event>, e: Event, front: seq<Row>, q: seq<Row>)
    requires e.Request? && AreTheRequests(front + q, g)
    ensures AreTheRequests(front + (if Queues(e) then q + [NewRow(e)] else q), g + [e])
  {
    var rows := front + q;
    var rows' := if Queues(e) then rows + [NewRow(e)] else rows;
    QueuedExtend(g, e);
    assert front + (q + [NewRow(e)]) == rows + [NewRow(e)];
    forall i | 0 <= i < |rows'| ensures RowFor(rows'[i], g + [e], Queued(g + [e])[i]) {
      if i < |rows| {
        RowForExtend(rows[i], g, e, Queued(g)[i]);
      }
    }
  }

  lemma LimitedConserves(g: seq<Event>, e: Event, rows: seq<Row>)
    requires AreTheLimited(rows, g)
    ensures AreTheLimited(if e.Request? && e.rrlRemoved != 0 then rows + [NewRow(e)] else rows, g + [e])
  {
    assert (g + [e])[..|g|] == g;
  }

  lemma ConservesAnswer(g: seq<Event>, e: Event, b: Board)
    requires Conserves(b, g) && e.Answer?
    ensures Conserves(Handle(b, e), g + [e])
  {
    var q := Marked(b.queue, e);
    var k := FlushLen(q);
    KeptHandle(b, e);
    LimitedConserves(g, e, Kept(b.log, true));
    AnswerConserves(g, e, Kept(b.log), b.queue, k);
  }

  lemma ConservesRequest(g: seq<Event>, e: Event, b: Board)
    requires Conserves(b, g) && e.Request?
    ensures Conserves(Handle(b, e), g + [e])
  {
    KeptHandle(b, e);
    LimitedConserves(g, e, Kept(b.log, true));
    RequestConserves(g, e, Kept(b.log), b.queue);
  }

  lemma {:induction false} EveryBoardConserves(h: seq<Event>)
    ensures Conserves(Run(h), h)
    decreases |h|
  {
    if h != [] {
      var g, e := h[..|h| - 1], h[|h| - 1];
      assert h == g + [e];
      EveryBoardConserves(g);
      RunExtend(g, e);
      if e.Answer? {
        ConservesAnswer(g, e, Run(g));
      } else {
        ConservesRequest(g, e, Run(g));
      }
    }
  }

  /**
   * Overflow or not, after any history the kept rows of the log, followed by the queue, are the queued
   * requests, in order and each once, with what the request said; a row without a matching answer
   * since has no outcome, and no answered row waits at the front. The other rows of the log are the
   * rate-limited requests, in order and each once, as they came.
   */
  lemma Conservation(h: seq<Event>)
    ensures var b := Run(h);
            var rows := Kept(b.log) + b.queue;
            && |rows| == |Queued(h)| && (b.queue != [] ==> !b.queue[0].received)
            && forall i :: 0 <= i < |rows| ==>
                 var r, p := rows[i], Queued(h)[i];
                 && r.startTime == h[p].startTime && r.id == h[p].id && r.dnsId == h[p].dnsId
                 && r.rrlRemoved == h[p].rrlRemoved == 0
                 && ((forall j :: p < j < |h| && h[j].Answer? ==> h[j].id != h[p].id) ==>
                       !r.received && r.finishTime == 0.0 && r.found == 0)
    ensures var rows := Kept(Run(h).log, true);
            && |rows| == |Queued(h, true)|
            && forall i :: 0 <= i < |rows| ==>
                 var e := h[Queued(h, true)[i]];
                 rows[i] == Row(e.startTime, e.id, e.dnsId, e.rrlRemoved, false, 0.0, 0)
  {
    EveryBoardConserves(h);
    var rows := Kept(Run(h).log) + Run(h).queue;
    forall i | 0 <= i < |rows| ensures RowFor(rows[i], h, Queued(h)[i]) {
    }
  }

  /** Closing logs every queued request, in order, each exactly once, by appending what is still queued. */
  lemma DestroyLogsEverything(h: seq<Event>)
    ensures var b, end := Run(h), Destroyed(Run(h));
            && end.queue == [] && end.log == b.log + b.queue
            && Kept(end.log) == Kept(b.log) + b.queue && |Kept(end.log)| == |Queued(h)|
  {
    EveryBoardConserves(h);
    KeptConcat(Run(h).log, Run(h).queue);
    KeptAll(Run(h).queue);
  }

  /**
   * If no answer found more than 0xFFFF rows waiting, closing logs each row still queued as the answers
   * left it, behind an unanswered front or not.
   */
  lemma ClosingKeepsOutcomes(h: seq<Event>, i: nat)
    requires forall t :: 0 <= t < |h| && h[t].Answer? ==> |Queued(h[..t])| - DonePrefix(h[..t]) <= 0xFFFF
    requires DonePrefix(h) <= i < |Queued(h)|
    ensures |Kept(Destroyed(Run(h)).log)| == |Queued(h)|
    ensures Kept(Destroyed(Run(h)).log)[i] == RowOf(h, Queued(h)[i])
  {
    DestroyLogsEverything(h);
    LogIsLongestAnsweredPrefix(h);
    WaitingRowAt(h, Kept(Run(h).log), Run(h).queue, i);
  }

  lemma WaitingRowAt(h: seq<Event>, l: seq<Row>, q: seq<Row>, i: nat)
    requires LogIsDone(h, l) && QueueIsPending(h, q) && DonePrefix(h) <= i < |Queued(h)|
    ensures |l + q| == |Queued(h)| && (l + q)[i] == RowOf(h, Queued(h)[i])
  {
    var n := i - DonePrefix(h);
    assert (l + q)[i] == q[n] && q[n] == RowOf(h, Queued(h)[DonePrefix(h) + n]);
  }

  /** The answer at `t` found request number `i` in a queue of more than 0xFFFF rows counted from it. */
  ghost predicate PushedOut(h: seq<Event>, t: nat, i: nat)
    requires t < |h|
  {
    var b := Run(h[..t]);
    h[t].Answer? && |Kept(b.log)| <= i && |b.queue| - (i - |Kept(b.log)|) > QUEUE_LIMIT
  }

  lemma {:induction false} UnansweredWasPushedOut(h: seq<Event>, i: nat)
    requires i < |Kept(Run(h).log)| && !Kept(Run(h).log)[i].received
    ensures exists t :: 0 <= t < |h| && PushedOut(h, t, i)
    decreases |h|
  {
    if h == [] {
      assert false;
    } else {
      var g, e := h[..|h| - 1], h[|h| - 1];
      var b := Run(g);
      assert h == g + [e];
      RunExtend(g, e);
      EveryBoardConserves(g);
      KeptHandle(b, e);
      if i < |Kept(b.log)| {
        UnansweredWasPushedOut(g, i);
        var t :| 0 <= t < |g| && PushedOut(g, t, i);
        assert g[..t] == h[..t];
        assert PushedOut(h, t, i);
      } else {
        assert PushedOut(h, |g|, i);
      }
    }
  }

  /** A request row logged unanswered before closing was pushed out of a queue of more than 0xFFFF rows. */
  lemma UnansweredOnlyByOverflow(h: seq<Event>, i: nat) returns (t: nat)
    requires i < |Kept(Run(h).log)| && !Kept(Run(h).log)[i].received
    ensures t < |h| && h[t].Answer? && |Kept(Run(h[..t]).log)| <= i
    ensures |Run(h[..t]).queue| - (i - |Kept(Run(h[..t]).log)|) > 0xFFFF
  {
    UnansweredWasPushedOut(h, i);
    t :| 0 <= t < |h| && PushedOut(h, t, i);
  }
}
