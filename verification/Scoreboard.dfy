/** The scoreboard object: a queue marked entry by entry, flushed from the front into the results log. */
module Scoring {
  import opened Bytes
  import opened Reorder

  class Scoreboard {
    var queue: seq<Row>
    var log: seq<Row>

    ghost function View(): Board
      reads this
    {
      Board(queue, log)
    }

    constructor ()
      ensures View() == Run([])
    {
      queue, log := [], [];
    }

    method WriteResults(row: Row)
      modifies this`log
      ensures log == old(log) + [row]
    {
      log := log + [row];
    }

    /** The generator reports a request it has sent. */
    method RecieveGeneratedReq(id: word, dnsId: byte, rrlRemoved: byte, elapsedTime: Time)
      modifies this
      ensures var row := Row(elapsedTime, id, dnsId, rrlRemoved, false, 0.0, 0);
              if rrlRemoved != 0 then log == old(log) + [row] && queue == old(queue)
              else queue == old(queue) + [row] && log == old(log)
      ensures View() == Handle(old(View()), Request(id, dnsId, rrlRemoved, elapsedTime))
    {
      var results := Row(elapsedTime, id, dnsId, rrlRemoved, false, 0.0, 0);
      if rrlRemoved != 0 {
        WriteResults(results);
        return;
      }
      queue := queue + [results];
    }

    /** Mark every queued row with the id. */
    method MarkRows(id: word, validTrans: byte, now: Time) returns (found: bool)
      modifies this`queue
      ensures queue == Marked(old(queue), Answer(id, validTrans, now))
      ensures found <==> exists i :: 0 <= i < |old(queue)| && old(queue)[i].id == id
    {
      ghost var marked := Marked(queue, Answer(id, validTrans, now));
      var i := 0;
      found := false;
      while i < |queue|
        invariant 0 <= i <= |queue| == |marked|
        invariant queue[..i] == marked[..i] && queue[i..] == old(queue)[i..]
        invariant found <==> exists j :: 0 <= j < i && old(queue)[j].id == id
      {
        assert queue[i] == queue[i..][0] == old(queue)[i];
        if queue[i].id == id {
          queue := queue[i := queue[i].(finishTime := now, received := true, found := validTrans)];
          found := true;
        }
        i := i + 1;
      }
      assert queue == marked;
    }

    /** Log rows off the front while it is answered or the queue too long. */
    method FlushFront()
      modifies this
      ensures var k := FlushLen(old(queue)); queue == old(queue)[k..] && log == old(log) + old(queue)[..k]
    {
      ghost var k := 0;
      while |queue| > 0 && (queue[0].received || |queue| > 0xFFFF)
        invariant 0 <= k <= |old(queue)| && queue == old(queue)[k..] && log == old(log) + old(queue)[..k]
        invariant forall j :: 0 <= j < k ==> old(queue)[j].received || |old(queue)| - j > 0xFFFF
      {
        assert old(queue)[..k + 1] == old(queue)[..k] + [old(queue)[k]];
        WriteResults(queue[0]);
        queue := queue[1..];
        k := k + 1;
      }
      FlushLenIs(old(queue), k);
    }

    /** Both loops, under the lock. */
    method MarkAndFlush(id: word, validTrans: byte, now: Time) returns (found: bool)
      modifies this
      ensures View() == Handle(old(View()), Answer(id, validTrans, now))
      ensures found <==> exists i :: 0 <= i < |old(queue)| && old(queue)[i].id == id
    {
      found := MarkRows(id, validTrans, now);
      FlushFront();
    }

    /**
     * An answer arrives: every row with its id takes the outcome, wherever it is logged or queued
     * afterwards, and then the shortest prefix is logged that leaves an unanswered front and at most
     * 0xFFFF rows.
     */
    method RecieveDnsAnswer(id: word, validTrans: byte, now: Time) returns (code: byte)
      modifies this
      ensures View() == Handle(old(View()), Answer(id, validTrans, now))
      ensures code == 0 <==> exists i :: 0 <= i < |old(queue)| && old(queue)[i].id == id
      ensures code <= 1
      ensures |old(log)| <= |log| && log[..|old(log)|] == old(log) && |log| + |queue| == |old(log)| + |old(queue)|
      ensures forall i :: 0 <= i < |old(queue)| ==>
                var was, r := old(queue)[i], (log + queue)[|old(log)| + i];
                r == if was.id == id then was.(received := true, finishTime := now, found := validTrans) else was
      ensures |queue| <= 0xFFFF && (queue != [] ==> !queue[0].received)
      ensures forall i :: |old(log)| <= i < |log| ==> log[i].received || |log| + |queue| - i > 0xFFFF
    {
      var found := MarkAndFlush(id, validTrans, now);
      AnswerMeans(old(View()), id, validTrans, now);
      code := if found then 0 else 1;
    }

    /** Closing: everything still queued is logged as it stands. */
    method Destroy()
      modifies this
      ensures log == old(log) + old(queue) && queue == []
      ensures View() == Destroyed(old(View()))
    {
      ghost var k := 0;
      while |queue| > 0
        invariant 0 <= k <= |old(queue)| && queue == old(queue)[k..] && log == old(log) + old(queue)[..k]
      {
        WriteResults(queue[0]);
        assert old(queue)[..k + 1] == old(queue)[..k] + [old(queue)[k]];
        queue := queue[1..];
        k := k + 1;
      }
    }
  }
}
