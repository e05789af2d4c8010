/** The router: its member array, the liveness sweep that shortens it, and request forwarding. */
module Routing {
  import opened Bytes
  import opened Membership
  import opened Scheduling

  /** A block of `n` servers with the contents of `a` as far as both reach. */
  method Realloc(a: array<Server>, n: nat) returns (b: array<Server>)
    ensures fresh(b) && b.Length == n
    ensures forall i :: 0 <= i < n && i < a.Length ==> b[i] == a[i]
  {
    b := new Server[n];
    for i := 0 to if n < a.Length then n else a.Length
      invariant forall k :: 0 <= k < i ==> b[k] == a[k]
    {
      b[i] := a[i];
    }
  }

  /** Strike one pong off the first `k` silent ids, closing the gap in place. */
  method StrikeOff(offline: array<byte>, k: nat, b: byte) returns (k': nat)
    requires k <= offline.Length
    modifies offline
    ensures k' <= k && offline[..k'] == Strike(old(offline[..k]), b)
  {
    ghost var was := offline[..k];
    k' := k;
    var i := 0;
    while i < k
      invariant 0 <= i <= k == k' && offline[..k] == was && b !in was[..i]
    {
      if b == offline[i] {
        var j := i + 1;
        while j < k
          invariant i < j <= k
          invariant offline[..i] == was[..i] && offline[j..k] == was[j..]
          invariant forall m :: i <= m < j - 1 ==> offline[m] == was[m + 1]
        {
          offline[j - 1] := offline[j];
          j := j + 1;
        }
        StrikeAt(was, b, i);
        k' := k - 1;
        assert offline[..k'] == was[..i] + was[i + 1..];
        return;
      }
      i := i + 1;
    }
    StrikeAt(was, b, k);
  }

  /**
   * Close the gap over the first server with the id, in one loop that steps back once, on the match,
   * and from then on moves every server one place down.
   */
  method RemoveInPlace(servers: array<Server>, dnsId: byte) returns (deleted: bool, serverCnt: nat)
    modifies servers
    ensures deleted <==> HasId(old(servers[..]), dnsId)
    ensures serverCnt == servers.Length - (if deleted then 1 else 0)
    ensures servers[..serverCnt] == RemoveFirst(old(servers[..]), dnsId)
  {
    ghost var was := servers[..];
    serverCnt := servers.Length;
    deleted := false;
    var i := 0;
    ghost var m: nat := 0;
    while i < serverCnt
      invariant 0 <= m <= i <= serverCnt <= |was| && forall k :: 0 <= k < m ==> was[k].id != dnsId
      invariant !deleted ==> m == i && serverCnt == |was| && servers[..] == was
      invariant deleted ==> serverCnt == |was| - 1 && was[m].id == dnsId
      invariant deleted ==> servers[..i] == was[..m] + was[m + 1..i + 1] && servers[i..] == was[i..]
      decreases if deleted then 0 else 1, serverCnt - i
    {
      if deleted {
        servers[i] := servers[i + 1];
        assert servers[..i + 1] == servers[..i] + [was[i + 1]];
        assert was[m + 1..i + 2] == was[m + 1..i + 1] + [was[i + 1]];
      } else if servers[i].id == dnsId {
        i := i - 1;
        serverCnt := serverCnt - 1;
        deleted := true;
      }
      i := i + 1;
      m := if deleted then m else i;
    }
    RemoveFirstAt(was, dnsId, m);
  }

  /** What forwarding a request comes to. */
  datatype Forwarding = DividesByZero | Forwarded(code: byte, target: Server, dnsId: byte)

  class Router {
    const mode: Mode
    var servers: array<Server>
    var serverCnt: byte
    var currServer: byte
    /** A failed removal returned with `mutex` and `tcp_mutex` still locked. */
    var held: bool

    ghost predicate Valid()
      reads this
    {
      serverCnt == servers.Length
    }

    ghost function Contents(): seq<Server>
      reads this, servers
    {
      servers[..]
    }

    constructor (mode: Mode)
      ensures Valid() && Contents() == [] && currServer == 0 && !held && this.mode == mode && fresh(servers)
    {
      this.mode := mode;
      servers := new Server[0];
      serverCnt, currServer, held := 0, 0, false;
    }

    /**
     * The count is 8 bits wide: the 256th server wraps it to 0, the list is lost, and the server is
     * written `outside` it, one place before its start.
     */
    method AddDnsServer(dns: Server) returns (outside: bool)
      requires Valid() && !held
      modifies this`servers, this`serverCnt
      ensures Valid() && fresh(servers)
      ensures outside <==> old(serverCnt) == 255
      ensures Contents() == if outside then [] else old(Contents()) + [dns]
    {
      serverCnt := (serverCnt + 1) % 0x100;
      servers := Realloc(servers, serverCnt);
      if serverCnt == 0 {
        return true;
      }
      servers[serverCnt - 1] := dns;
      return false;
    }

    /**
     * One TCP session: the port list goes out, and what comes back is nothing or a server to add,
     * which happens before the session lock is given up. Nothing is removed in between.
     */
    method CheckTcpConnections(result: Option<Server>) returns (ports: seq<word>, outside: bool)
      requires Valid() && !held
      modifies this`servers, this`serverCnt
      ensures Valid()
      ensures |ports| == |old(Contents())| && forall i :: 0 <= i < |ports| ==> ports[i] == old(Contents())[i].tcpPort
      ensures outside <==> result.Some? && old(serverCnt) == 255
      ensures Contents() == if outside then [] else old(Contents()) + (if result.Some? then [result.value] else [])
    {
      ports, outside := [], false;
      var i := 0;
      while i < serverCnt
        invariant Valid() && servers == old(servers) && Contents() == old(Contents()) && serverCnt == old(serverCnt)
        invariant |ports| == i <= serverCnt && forall k :: 0 <= k < i ==> ports[k] == servers[k].tcpPort
      {
        ports := ports + [servers[i].tcpPort];
        i := i + 1;
      }
      if result.Some? {
        outside := AddDnsServer(result.value);
      }
    }

    /** Remove one server; a call that does not find it keeps the mutexes. */
    method RemoveServer(dnsId: byte) returns (code: byte)
      requires Valid() && !held
      modifies this`servers, this`serverCnt, this`held, servers
      ensures Valid() && (servers == old(servers) || fresh(servers))
      ensures Contents() == RemoveFirst(old(Contents()), dnsId)
      ensures code == (if HasId(old(Contents()), dnsId) then 0 else 1) && held == (code != 0)
    {
      held := true;
      var deleted, cnt := RemoveInPlace(servers, dnsId);
      serverCnt := cnt;
      if !deleted {
        return 1;
      }
      servers := Realloc(servers, serverCnt);
      assert servers[..] == old(servers)[..serverCnt];
      held := false;
      return 0;
    }

    /** The ids of the listed servers that no pong mentions: every id, then one struck per pong. */
    method SilentIds(pongs: seq<byte>) returns (offline: array<byte>, cnt: nat)
      requires Valid()
      ensures fresh(offline) && cnt <= offline.Length
      ensures offline[..cnt] == StrikeAll(IdBytes(Contents()), pongs)
    {
      offline, cnt := new byte[serverCnt], serverCnt;
      for i := 0 to serverCnt
        invariant forall k :: 0 <= k < i ==> offline[k] == IdByte(servers[k])
      {
        offline[i] := servers[i].id % 0x100;
      }
      assert offline[..cnt] == IdBytes(Contents());
      assert pongs[..0] == [];
      for p := 0 to |pongs|
        invariant cnt <= offline.Length
        invariant offline[..cnt] == StrikeAll(IdBytes(Contents()), pongs[..p])
      {
        assert pongs[..p + 1][..p] == pongs[..p];
        cnt := StrikeOff(offline, cnt, pongs[p]);
      }
      assert pongs[..|pongs|] == pongs;
    }

    /**
     * The sweep after its sleep: `startingCnt` is the count before it and `pongs` the bytes that
     * arrived. Once a removal has kept the mutexes the next one never gets them: the model stops there.
     */
    method QueryResponseTime(startingCnt: byte, pongs: seq<byte>) returns (code: byte)
      requires Valid() && !held
      modifies this`servers, this`serverCnt, this`held, servers
      ensures Valid()
      ensures code == (if startingCnt == old(serverCnt) then 0 else 1)
      ensures code == 1 ==> Contents() == old(Contents()) && !held
      ensures code == 0 ==>
                var off := StrikeAll(IdBytes(old(Contents())), pongs);
                && Contents() == Sweep(old(Contents()), off)
                && held == !SweepFinds(old(Contents()), off)
      ensures code == 0 && DistinctIdBytes(old(Contents())) ==>
                && (Contents() == Select(old(Contents()), pongs, true) <==> SilentFit(old(Contents()), pongs))
                && (held <==> !SilentFit(old(Contents()), pongs))
    {
      ghost var was := servers[..];
      var offline, cnt := SilentIds(pongs);
      ghost var off := offline[..cnt];
      if startingCnt != serverCnt {
        return 1;
      }
      code := 0;
      var i := 0;
      while i < cnt && !held
        invariant 0 <= i <= cnt && Valid() && offline[..cnt] == off
        invariant servers == old(servers) || fresh(servers)
        invariant !held ==> Sweep(was, off) == Sweep(Contents(), off[i..])
        invariant !held ==> SweepFinds(was, off) == SweepFinds(Contents(), off[i..])
        invariant held ==> Contents() == Sweep(was, off) && !SweepFinds(was, off)
      {
        assert off[i..][0] == off[i] && off[i..][1..] == off[i + 1..];
        ghost var before := Contents();
        var _ := RemoveServer(offline[i]);
        if held {
          RemoveAbsent(before, off[i]);
        }
        i := i + 1;
      }
      if DistinctIdBytes(was) {
        SweepIsFilter(was, pongs);
      }
    }

    /**
     * Pick a server for a request, advance the counter, and send: the result's id is reported in 8
     * bits, and the code is the one sending ended with. Nothing is counted as rate limited. With no
     * server listed, either mode divides by zero before the test for that.
     */
    method ForwardRequest(sendError: byte) returns (outcome: Forwarding, rrlRemoved: byte)
      requires Valid() && !held
      modifies this`currServer
      ensures outcome.DividesByZero? <==> Contents() == []
      ensures outcome.Forwarded? ==>
                var n := serverCnt;
                && outcome == Forwarded(sendError, Contents()[Choice(mode, n, old(currServer))], IdByte(outcome.target))
                && currServer == Next(mode, n, old(currServer))
      ensures outcome.Forwarded? && mode == OVERLOAD ==>
                var n, c := serverCnt, old(currServer);
                && outcome.target == Contents()[if c < n then c else 0]
                && currServer == if n <= 128 then (c + 1) % (2 * n) else (c + 1) % 256
      ensures outcome.Forwarded? && mode == ROUND_ROBIN ==>
                outcome.target == Contents()[old(currServer) % serverCnt]
                && currServer == (old(currServer) + 1) % serverCnt
      ensures outcome.Forwarded? ==> outcome.dnsId == outcome.target.id % 256
      ensures outcome.DividesByZero? ==> currServer == old(currServer)
      ensures rrlRemoved == 0
    {
      rrlRemoved := 0;
      if serverCnt == 0 {
        return DividesByZero, rrlRemoved;
      }
      CounterSettles(mode, serverCnt, currServer);
      var chosen: byte;
      match mode {
        case ROUND_ROBIN =>
          chosen := currServer % serverCnt;
          currServer := (1 + currServer) % serverCnt;
        case OVERLOAD =>
          if currServer >= serverCnt {
            chosen := 0;
            currServer := ((1 + currServer) % (serverCnt * 2)) % 0x100;
          } else {
            chosen := currServer;
            currServer := currServer + 1;
          }
      }
      outcome := Forwarded(sendError, servers[chosen], servers[chosen].id % 0x100);
    }
  }

  lemma {:induction false} RemoveAbsent(vs: seq<Server>, id: byte)
    requires !HasId(vs, id)
    ensures RemoveFirst(vs, id) == vs
  {
    RemoveFirstAt(vs, id, |vs|);
  }
}
