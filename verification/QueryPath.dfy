/** A query's way through the system: crafted, looked up at a server, answered, and scored. */
module QueryPath {
  import opened Bytes
  import opened Replicas
  import opened Dns
  import opened Reorder
  import opened Scoring
  import C = Coms

  /** The id the router's liveness sweep uses; a server answers it with its own id in one byte. */
  const SWEEP_ID: word := 0x8000

  /** `Overrun`: the response is written past the end of its buffer, and the model says no more. */
  datatype Reply = Nothing | Pong(idByte: byte) | Response(message: bytes) | Overrun

  /** A response that echoes `domain` fits its buffer. */
  predicate ResponseFits(domain: bytes) {
    17 + |domain| <= MAX_DNS_BYTES
  }

  /** What a server with this id and table does with a message. */
  ghost predicate Serves(id: word, table: Table, s: bytes, code: byte, reply: Reply) {
    match Reading(s)
    case None => code == 1 && reply == Nothing
    case Some(said) =>
      if said.header.qr == 1 then code == 2 && reply == Nothing
      else if Value(said.header.id) == SWEEP_ID then code == 0 && reply == Pong(id % 0x100)
      else if !ResponseFits(said.domain) then code == 0 && reply == Overrun
      else
        && code == 0 && reply.Response? && |reply.message| == 17 + |said.domain|
        && Reading(reply.message)
           == Some(Said(Announced(false, Value(said.header.id), said.domain in table), said.domain))
  }

  /** The reply to a response that was read: what it says, from the bytes alone. */
  lemma ResponseFromBytes(s: bytes, message: bytes, resolved: bool)
    requires ParseCode(s) == 0 && |message| == 17 + |DomainOf(s)|
    requires Reading(message) == Some(Said(Announced(false, Value(HeaderOf(s).id), resolved), DomainOf(s)))
    ensures var n := |DomainOf(s)|;
            && message[0] as int * 256 + message[1] == s[0] as int * 256 + s[1] && message[2] / 128 == 1
            && message[3] % 16 == (if resolved then 0 else 3)
            && message[12..12 + n] == DomainOf(s) && message[12 + n] == 0
  {
    HeaderFromBytes(s);
    HeaderFromBytes(message);
    QuestionFromBytes(message);
    ShortBijection(Value(HeaderOf(s).id), Short(0, 0));
  }

  /**
   * What a server does with any datagram, from the bytes alone: nothing with code 1 if there is no whole
   * header or no terminated name with both codes; nothing with code 2 if it is itself a response; its id
   * byte if the id is 0x8000; and otherwise a response with the same id and name, whose result code says
   * whether the name is in the table, or an overrun if that response would be longer than 64 bytes.
   */
  lemma ServedFromBytes(id: word, table: Table, s: bytes, code: byte, reply: Reply)
    requires Serves(id, table, s, code, reply)
    ensures !(exists k :: 12 <= k && k + 4 <= |s| && s[k] == 0) ==> code == 1 && reply == Nothing
    ensures forall k :: 12 <= k && k + 4 <= |s| && s[k] == 0 && 0 !in s[12..k] ==>
              var name := s[12..k];
              if s[2] >= 128 then code == 2 && reply == Nothing
              else if s[0] == 0x80 && s[1] == 0 then code == 0 && reply == Pong(id % 256)
              else if k + 5 > 64 then code == 0 && reply == Overrun
              else
                && code == 0 && reply.Response? && |reply.message| == k + 5
                && reply.message[0] as int * 256 + reply.message[1] == s[0] as int * 256 + s[1]
                && reply.message[2] / 128 == 1
                && reply.message[3] % 16 == (if name in table then 0 else 3)
                && reply.message[12..k] == name && reply.message[k] == 0
  {
    VerdictFromBytes(s);
    if ParseCode(s) == 0 {
      HeaderFromBytes(s);
      QuestionFromBytes(s);
      var n := |DomainOf(s)|;
      if reply.Response? {
        ResponseFromBytes(s, reply.message, DomainOf(s) in table);
      }
      forall k | 12 <= k && k + 4 <= |s| && s[k] == 0 && 0 !in s[12..k] ensures k == 12 + n {
        forall j | 12 <= j < k ensures s[j] != 0 {
          assert s[j] == s[12..k][j - 12];
        }
        FindIs(s, NUL, HEADER_BYTES, k);
      }
    }
  }

  /** The router's sweep gets the id byte, an ordinary query a response, and a response nothing. */
  lemma CraftedIsServed(id: word, table: Table, s: bytes, query: bool, qid: word, domain: bytes, resolved: bool,
                        code: byte, reply: Reply)
    requires IsCrafted(s, query, qid, domain, resolved) && 0 !in domain && Serves(id, table, s, code, reply)
    ensures !query ==> code == 2 && reply == Nothing
    ensures query && qid == 0x8000 ==> code == 0 && reply == Pong(id % 256)
    ensures query && qid != 0x8000 ==> code == 0 && if |domain| <= 47 then reply.Response? else reply == Overrun
  {
    CraftedBytes(s, query, qid, domain, resolved);
    ServedFromBytes(id, table, s, code, reply);
    assert s[12 + |domain|] == 0 && s[12..12 + |domain|] == domain;
  }

  /**
   * Of the datagrams that reach a server, 64 bytes at most, an accepted one names at most 48 bytes,
   * and its response fits the 64-byte buffer if and only if the name is not that long.
   */
  lemma AcceptedNameFits(s: bytes)
    requires |s| <= 64 && ParseCode(s) == 0
    ensures |DomainOf(s)| <= 48
    ensures ResponseFits(DomainOf(s)) <==> |DomainOf(s)| != 48
    ensures ResponseFits(DomainOf(s)) <==> 17 + |DomainOf(s)| <= 64
  {
    AcceptedIsWellBounded(s);
  }

  /** For instance: 64 bytes of 65, the one at 60 zero, are a query whose response overruns, at every server. */
  lemma OverrunningDatagram() returns (s: bytes)
    ensures s == seq(64, j => if j == 60 then 0 else 65)
    ensures ParseCode(s) == 0 && |DomainOf(s)| == 48
    ensures forall id, table, code, reply :: Serves(id, table, s, code, reply) ==> code == 0 && reply == Overrun
  {
    s := seq(64, j => if j == 60 then 0 else 65);
    FindIs(s, NUL, HEADER_BYTES, 60);
    assert Reading(s) == Some(Said(HeaderOf(s), DomainOf(s)));
    assert HeaderOf(s).qr == 0 && Value(HeaderOf(s).id) != SWEEP_ID;
  }

  /** The bytes of a message crafted in a 64-byte buffer. */
  method Craft(query: bool, id: word, domain: bytes, ip: Option<bytes>) returns (message: bytes)
    requires NUL !in domain && ResponseFits(domain)
    ensures |message| == 17 + |domain| && Reading(message) == Some(Said(Announced(query, id, ip.Some?), domain))
  {
    var buffer := new byte[MAX_DNS_BYTES];
    var n := CraftMessage(buffer, query, id, domain, ip);
    return buffer[..n];
  }

  class DnsServer {
    const id: word
    const coms: C.Coms

    constructor (id: word, coms: C.Coms)
      ensures this.id == id && this.coms == coms
    {
      this.id, this.coms := id, coms;
    }

    /** Handle one datagram. */
    method RecieveRequest(message: array<byte>, messageBytes: byte, past: byte) returns (code: byte, reply: Reply)
      requires messageBytes <= message.Length
      ensures Serves(id, coms.ipHash, message[..messageBytes], code, reply)
    {
      ghost var s := message[..messageBytes];
      var dnsQuery := new Message();
      var error := ParseMessage(message, dnsQuery, messageBytes, past);
      if error != 0 {
        return 1, Nothing;
      }
      if dnsQuery.header.qr == 1 {
        return 2, Nothing;
      }
      AcceptedIsWellBounded(s);
      var resultIp := coms.TranslateIp(dnsQuery.domain);
      if Value(dnsQuery.header.id) == SWEEP_ID {
        return 0, Pong(id % 0x100);
      }
      if !ResponseFits(dnsQuery.domain) {
        return 0, Overrun;
      }
      var response := Craft(false, Value(dnsQuery.header.id), dnsQuery.domain, resultIp);
      return 0, Response(response);
    }
  }

  /**
   * The scoreboard's side: the same message object is reused, and the parser's verdict is ignored,
   * so a message shorter than a header is scored with the header of the one before.
   */
  method HandleResponse(board: Scoreboard, message: Message, buffer: array<byte>, messageBytes: byte, past: byte,
                        now: Time)
    requires messageBytes <= buffer.Length
    modifies board, message
    ensures var h := if messageBytes >= HEADER_BYTES then HeaderOf(buffer[..messageBytes]) else old(message.header);
            var verdict := if h.rcode == NO_SUCH_NAME then 0 else 1;
            board.View() == Handle(old(board.View()), Answer(Value(h.id), verdict, now))
    ensures messageBytes >= 12 ==>
              var verdict := if buffer[3] % 16 == 3 then 0 else 1;
              board.View() == Handle(old(board.View()), Answer(buffer[0] as int * 256 + buffer[1], verdict, now))
  {
    var error := ParseMessage(buffer, message, messageBytes, past);
    if messageBytes >= 12 {
      HeaderFromBytes(buffer[..messageBytes]);
    }
    var _ := board.RecieveDnsAnswer(Value(message.header.id), if message.header.rcode == 3 then 0 else 1, now);
  }

  /** A message arrives in a 64-byte receive buffer. */
  method Deliver(message: bytes) returns (buffer: array<byte>)
    requires |message| <= MAX_DNS_BYTES
    ensures fresh(buffer) && buffer.Length == MAX_DNS_BYTES && buffer[..|message|] == message
  {
    buffer := new byte[MAX_DNS_BYTES];
    Memcpy(buffer, 0, message);
    assert buffer[..|message|] == message;
  }

  /** The query for a name reaches a server: the sweep's id gets a pong, any other a response saying
      whether the name was in the server's table, id and name echoed. */
  method AskServer(server: DnsServer, id: word, domain: bytes, past: byte) returns (reply: Reply)
    requires NUL !in domain && |domain| <= 47
    ensures id == 0x8000 ==> reply == Pong(server.id % 0x100)
    ensures id != 0x8000 ==>
              && reply.Response? && |reply.message| <= 64
              && Reading(reply.message) == Some(Said(Announced(false, id, domain in server.coms.ipHash), domain))
  {
    var query := Craft(true, id, domain, None);
    var received := Deliver(query);
    ShortBijection(id, Short(0, 0));
    var code;
    code, reply := server.RecieveRequest(received, |query|, past);
  }

  /**
   * End to end: a query for a name, asked of a server and scored, has exactly the effect of one
   * answer with the query's id that says whether the name was in that server's table.
   */
  method AskAndScore(server: DnsServer, board: Scoreboard, message: Message, id: word, domain: bytes, past: byte,
                     now: Time)
    requires id != 0x8000 && NUL !in domain && |domain| <= 47
    modifies board, message
    ensures var verdict := if domain in old(server.coms.ipHash) then 1 else 0;
            board.View() == Handle(old(board.View()), Answer(id, verdict, now))
  {
    var reply := AskServer(server, id, domain, past);
    var received := Deliver(reply.message);
    ShortBijection(id, Short(0, 0));
    HandleResponse(board, message, received, |reply.message|, past, now);
  }
}
