/** One server's communications module: its table, its version, its hosts file, and both ends of the transfers. */
module Coms {
  import opened Bytes
  import opened Replicas
  import opened Wire
  import opened HostsFile

  /**
   * Where a transfer loses contact, if it does. Exchange 0 is the request and the count, exchange i
   * the i-th entry, and the one after the entries the version; the joiner's message (`sending`) or the
   * donor's is the one that fails. Losing the count or the version goes unnoticed: the joiner goes on
   * with what its uninitialised variables hold, `cnt` and `ver`. A joiner without the count finds out
   * at its next message, or at the next it waits for if that message still gets `buffered`.
   */
  datatype Fault = Fault(exchange: nat, sending: bool, buffered: bool, cnt: byte, ver: byte)

  predicate LosesCount(fault: Fault) {
    fault.exchange == 0 && !fault.sending
  }

  /** Of a transfer that announces `cnt` entries. */
  predicate LosesVersion(fault: Fault, cnt: byte) {
    fault.exchange == cnt as nat + 1 && !fault.sending
  }

  /** The value `request_hosts` returns when the donor announces `cnt` entries. */
  function TransferCode(fault: Fault, cnt: byte): byte {
    if LosesCount(fault) then
      if fault.cnt == 0 then (if fault.buffered then 0 else 4) else (if fault.buffered then 3 else 2)
    else if fault.exchange == 0 then 1
    else if fault.exchange <= cnt then (if fault.sending then 2 else 3)
    else if fault.exchange == cnt as nat + 1 && fault.sending then 4
    else 0
  }

  /**
   * The same, fault by fault: 0 exactly when the loss, if any, comes after the last thing the joiner
   * checks, or the count is lost, found to be 0, and the request for the version still gets away.
   */
  lemma CodeFromFault(fault: Fault, cnt: byte)
    ensures var code, at, after := TransferCode(fault, cnt), fault.exchange, fault.exchange - cnt;
            && (code == 0 <==> after > 1 || (after == 1 && at > 0 && !fault.sending)
                               || (at == 0 && !fault.sending && fault.cnt == 0 && fault.buffered))
            && (code == 1 <==> at == 0 && fault.sending)
            && (code == 2 <==> (0 < at <= cnt && fault.sending)
                               || (at == 0 && !fault.sending && fault.cnt > 0 && !fault.buffered))
            && (code == 3 <==> (0 < at <= cnt && !fault.sending)
                               || (at == 0 && !fault.sending && fault.cnt > 0 && fault.buffered))
            && (code == 4 <==> (at > 0 && after == 1 && fault.sending)
                               || (at == 0 && !fault.sending && fault.cnt == 0 && !fault.buffered))
  {
  }

  /** What follows a parseable entry in the receive buffer makes no difference. */
  lemma EntryIgnoresJunk(s: bytes, junk: bytes)
    requires ParseEntry(s).Some?
    ensures ParseEntry(s + junk) == ParseEntry(s)
  {
    var p := Find(s, SPACE, 1);
    FindExtend(s, junk, SPACE, 1);
    var t := s[p := NUL];
    assert (s + junk)[p := NUL] == t + junk;
    FindWithin(t, NUL, 0, p);
    FindExtend(t, junk, NUL, 0);
    FindExtend(t, junk, NUL, p + 1);
    assert CString(t + junk, 0) == CString(t, 0);
    assert CString(t + junk, p + 1) == CString(t, p + 1);
  }

  /** A message arrives whole at the start of the buffer; the rest of the buffer is as it was. */
  method Recv(buffer: array<byte>, message: bytes)
    requires |message| <= buffer.Length
    modifies buffer
    ensures buffer[..] == message + old(buffer[|message|..])
  {
    for i := 0 to |message|
      invariant buffer[..i] == message[..i] && buffer[i..] == old(buffer[i..])
    {
      buffer[i] := message[i];
    }
    assert buffer[..] == buffer[..|message|] + buffer[|message|..];
  }

  /** Cut one received entry at its separator, in place, and read both halves. */
  method WalkEntry(buffer: array<byte>) returns (domain: bytes, ip: bytes)
    requires ParseEntry(buffer[..]).Some?
    modifies buffer
    ensures Some((domain, ip)) == old(ParseEntry(buffer[..]))
  {
    ghost var s: bytes := buffer[..];
    var p := SkipToSpace(buffer, 1);
    buffer[p] := NUL;
    assert buffer[..] == s[p := NUL];
    FindWithin(buffer[..], NUL, 0, p);
    domain := ReadString(buffer, 0);
    ip := ReadString(buffer, p + 1);
  }

  /** Receive one entry and cut it. */
  method RecvEntry(buffer: array<byte>, message: bytes) returns (domain: bytes, ip: bytes)
    requires |message| <= buffer.Length && ParseEntry(message).Some?
    modifies buffer
    ensures Some((domain, ip)) == ParseEntry(message)
  {
    Recv(buffer, message);
    ghost var junk := buffer[|message|..];
    EntryIgnoresJunk(message, junk);
    assert buffer[..] == message + junk;
    domain, ip := WalkEntry(buffer);
  }

  lemma RestShrinks(rest: Table, d: bytes)
    requires d in rest
    ensures |rest - {d}| < |rest|
  {
  }

  /** Any way of walking `rest` completes the walk `order`. */
  ghost predicate Completes(order: seq<bytes>, rest: Table, t: Table) {
    forall o :: IsOrder(o, rest) ==> IsOrder(order + o, t)
  }

  lemma CompletesStep(order: seq<bytes>, rest: Table, t: Table, d: bytes)
    requires Completes(order, rest, t) && d in rest
    ensures Completes(order + [d], rest - {d}, t)
  {
    forall o | IsOrder(o, rest - {d}) ensures IsOrder(order + [d] + o, t) {
      assert IsOrder([d] + o, rest);
      assert order + [d] + o == order + ([d] + o);
    }
  }

  /** Walk a hash table in whatever order it has. */
  method WalkOrder(t: Table) returns (order: seq<bytes>)
    ensures IsOrder(order, t)
  {
    order := [];
    var rest := t;
    assert forall o: seq<bytes> :: [] + o == o;
    while rest != map[]
      invariant Completes(order, rest, t)
      decreases |rest|
    {
      var domain :| domain in rest;
      CompletesStep(order, rest, t, domain);
      RestShrinks(rest, domain);
      order := order + [domain];
      rest := rest - {domain};
    }
    assert IsOrder([], rest) && order + [] == order;
  }

  /** The file's text: one line for every entry met on the walk. */
  method PrintTable(t: Table) returns (text: bytes, order: seq<bytes>)
    ensures IsOrder(order, t) && text == Printed(order, t)
  {
    order := WalkOrder(t);
    text := [];
    ghost var rest := t;
    for i := 0 to |order|
      invariant IsOrder(order[i..], rest) && forall d :: d in rest ==> d in t && rest[d] == t[d]
      invariant text + Printed(order[i..], rest) == Printed(order, t)
    {
      var domain := order[i];
      assert order[i..][0] == domain && order[i..][1..] == order[i + 1..];
      text := text + Line(domain, t[domain]);
      rest := rest - {domain};
    }
  }

  /** The entry messages: one for every entry met on the walk. */
  method EntryMessages(t: Table) returns (msgs: seq<bytes>, order: seq<bytes>)
    ensures IsOrder(order, t) && msgs == Entries(order, t)
  {
    order := WalkOrder(t);
    msgs := [];
    ghost var rest := t;
    for i := 0 to |order|
      invariant IsOrder(order[i..], rest) && forall d :: d in rest ==> d in t && rest[d] == t[d]
      invariant msgs + Entries(order[i..], rest) == Entries(order, t)
    {
      var domain := order[i];
      assert order[i..][0] == domain && order[i..][1..] == order[i + 1..];
      msgs := msgs + [Entry(domain, t[domain])];
      rest := rest - {domain};
    }
  }

  class Coms {
    const id: byte
    var ipHash: Table
    var versionNum: byte
    /** The contents of this server's hosts file. */
    var file: bytes

    ghost function View(): Replica
      reads this
    {
      Replica(ipHash, versionNum)
    }

    constructor (id: byte, translations: seq<(bytes, bytes)>)
      ensures this.id == id && View() == Replica(Load(map[], translations), 0)
      ensures forall d :: d in ipHash <==> LastPair(translations, d) > 0
      ensures forall d :: d in ipHash ==> ipHash[d] == translations[LastPair(translations, d) - 1].1
    {
      this.id := id;
      ipHash, versionNum, file := map[], 0, [];
      new;
      var i := 0;
      while i < |translations|
        invariant 0 <= i <= |translations| && versionNum == 0 && this.id == id
        invariant Load(map[], translations) == Load(ipHash, translations[i..])
      {
        ipHash := ipHash[translations[i].0 := translations[i].1];
        i := i + 1;
      }
      LoadedMeans(translations, ipHash);
    }

    /** Rewrite the whole file, walking the hash table in whatever order it has. */
    method WriteHostsFile()
      modifies this`file
      ensures exists order :: IsOrder(order, ipHash) && file == Printed(order, ipHash)
      ensures CleanTable(ipHash) ==> ReloadsTo(file, ipHash)
    {
      var order;
      file, order := PrintTable(ipHash);
      if CleanTable(ipHash) {
        WrittenFileReloads(order, ipHash);
      }
    }

    method ActuallyUpdate(remove: bool, domain: bytes, ip: bytes, id: byte)
      modifies this
      ensures versionNum == id
      ensures if remove then domain !in ipHash else domain in ipHash && ipHash[domain] == ip
      ensures forall d :: d != domain ==> (d in ipHash <==> d in old(ipHash))
      ensures forall d :: d != domain && d in ipHash ==> ipHash[d] == old(ipHash)[d]
      ensures View() == Apply(Update(remove, domain, ip, id), old(View()))
      ensures CleanTable(ipHash) ==> ReloadsTo(file, ipHash)
    {
      versionNum := id;
      if remove {
        ipHash := ipHash - {domain};
      } else {
        ipHash := ipHash[domain := ip];
      }
      WriteHostsFile();
    }

    /**
     * The peer's side of a push, once the frame has arrived whole in its buffer. A walk that leaves the
     * buffer is where the model stops.
     */
    method RecieveUpdate(buffer: array<byte>) returns (inside: bool)
      requires buffer.Length == 128
      modifies this, buffer
      ensures inside <==> old(ParseFrame(buffer[..])).Some?
      ensures View() == if inside then Apply(old(ParseFrame(buffer[..]).value), old(View())) else old(View())
      ensures if inside then CleanTable(ipHash) ==> ReloadsTo(file, ipHash) else file == old(file)
    {
      var u := WalkFrame(buffer);
      inside := u.Some?;
      if inside {
        ActuallyUpdate(u.value.remove, u.value.domain, u.value.ip, u.value.id);
      }
    }

    method TranslateIp(domain: bytes) returns (ip: Option<bytes>)
      ensures ip.Some? <==> domain in ipHash
      ensures ip.Some? ==> ip.value == ipHash[domain]
    {
      if domain in ipHash {
        return Some(ipHash[domain]);
      }
      return None;
    }

    /** The donor's side of a table transfer: everything it sends. */
    method SendEntireFile() returns (stream: seq<bytes>, ghost order: seq<bytes>)
      ensures IsOrder(order, ipHash) && stream == Transfer(order, View())
      ensures |stream| == |ipHash| + 2 && stream[0] == [|ipHash| % 256] && stream[|ipHash| + 1] == [versionNum]
      ensures |order| == |ipHash| && forall i, j :: 0 <= i < j < |order| ==> order[i] != order[j]
      ensures forall i :: 0 <= i < |order| ==>
                order[i] in ipHash && stream[i + 1] == order[i] + [32] + ipHash[order[i]] + [0]
      ensures Transferable(ipHash) ==>
                Received(stream).Some? && (Received(stream) == Some(View()) <==> |ipHash| <= 255)
    {
      var msgs;
      msgs, order := EntryMessages(ipHash);
      var transCnt: byte := |ipHash| % 0x100;
      stream := [[transCnt]] + msgs + [[versionNum]];
      assert stream == Transfer(order, View());
      OrderLength(order, ipHash);
      forall i | 0 <= i < |order| ensures order[i] in ipHash && msgs[i] == order[i] + [32] + ipHash[order[i]] + [0] {
        EntriesAt(order, ipHash, i);
      }
      forall i, j | 0 <= i < j < |order| ensures order[i] != order[j] {
        OrderDistinct(order, ipHash, i, j);
      }
      if Transferable(ipHash) {
        TransferExact(order, View());
      }
    }

    /**
     * The receiver's side: clear the table, then load what arrives. A failure leaves the old version
     * and exactly the entries that came before it: receiving the rest from there would complete the
     * transfer. Success is the whole transfer unless the count or the version was lost.
     */
    method RequestHosts(stream: seq<bytes>, fault: Fault) returns (code: byte)
      requires Received(stream).Some?
      modifies this
      ensures file == old(file) && code == TransferCode(fault, stream[0][0])
      ensures code != 0 ==> versionNum == old(versionNum)
      ensures fault.exchange == 0 ==> ipHash == map[] && (code == 0 ==> versionNum == fault.ver)
      ensures 0 < fault.exchange && code != 0 ==>
                && fault.exchange <= |stream|
                && Received(stream)
                   == Receive(ParseEntry, ipHash, stream[0][0] as int + 1 - fault.exchange, stream[fault.exchange..])
      ensures 0 < fault.exchange && code == 0 ==>
                && ipHash == Received(stream).value.table
                && versionNum == if fault.exchange == stream[0][0] as int + 1 then fault.ver
                                 else Received(stream).value.version
    {
      ipHash := map[];
      if fault.exchange == 0 {
        code := AfterFirstLoss(fault);
        return;
      }
      ghost var got;
      code, got := ReceiveEntries(stream, fault);
      if code != 0 {
        return;
      }
      var transCnt: nat := stream[0][0];
      if fault.exchange == transCnt + 1 && fault.sending {
        return 4;
      }
      assert stream[transCnt + 1..][0] == stream[transCnt + 1];
      var ver := if fault.exchange == transCnt + 1 then fault.ver else stream[transCnt + 1][0];
      versionNum := ver;
    }

    /** Load the entries, up to the exchange that fails if one of theirs does. */
    method ReceiveEntries(stream: seq<bytes>, fault: Fault) returns (code: byte, ghost got: nat)
      requires Received(stream).Some? && fault.exchange > 0 && ipHash == map[]
      modifies this`ipHash
      ensures got + 1 < |stream| && got <= stream[0][0]
      ensures Received(stream) == Receive(ParseEntry, ipHash, stream[0][0] - got, stream[got + 1..])
      ensures code == 0 ==> got == stream[0][0] && fault.exchange > got
      ensures code != 0 ==> got + 1 == fault.exchange <= stream[0][0] && code == if fault.sending then 2 else 3
    {
      var transCnt: nat := stream[0][0];
      var buffer := new byte[BUFFER_BYTES];
      var i := 0;
      while i < transCnt
        invariant 0 <= i <= transCnt && fault.exchange > i && i + 1 < |stream|
        invariant Received(stream) == Receive(ParseEntry, ipHash, transCnt - i, stream[i + 1..])
      {
        if fault.exchange == i + 1 {
          return if fault.sending then 2 else 3, i;
        }
        assert stream[i + 1..][0] == stream[i + 1] && stream[i + 1..][1..] == stream[i + 2..];
        var domain, ip := RecvEntry(buffer, stream[i + 1]);
        ipHash := ipHash[domain := ip];
        i := i + 1;
      }
      code, got := 0, i;
    }

    /** No request got through, or no count came back. */
    method AfterFirstLoss(fault: Fault) returns (code: byte)
      requires fault.exchange == 0
      modifies this`versionNum
      ensures code == TransferCode(fault, 0)
      ensures versionNum == if code == 0 then fault.ver else old(versionNum)
    {
      if fault.sending {
        return 1;
      }
      var transCnt := fault.cnt;
      if transCnt > 0 {
        return if fault.buffered then 3 else 2;
      }
      if !fault.buffered {
        return 4;
      }
      versionNum := fault.ver;
      return 0;
    }
  }
}
