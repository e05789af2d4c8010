/** The DNS message codec: a header struct copied to and from bytes on a little-endian host, and a question. */
module Dns {
  import opened Bytes

  const HEADER_BYTES: nat := 12
  const MAX_DNS_BYTES: nat := 64
  const NO_SUCH_NAME: nibble := 3

  type bit = b: int | 0 <= b < 2
  type bits3 = b: int | 0 <= b < 8
  type nibble = b: int | 0 <= b < 16

  /** A `uint16_t` as it lies in memory. */
  datatype Short = Short(first: byte, second: byte)

  /** Its value on the little-endian host. */
  function Value(s: Short): word {
    s.first + s.second * 0x100
  }

  function ShortOf(w: word): Short {
    Short(w % 0x100, w / 0x100)
  }

  /** `htons` and `ntohs`. */
  function Swap(s: Short): Short {
    Short(s.second, s.first)
  }

  lemma ShortBijection(w: word, s: Short)
    ensures Value(ShortOf(w)) == w && ShortOf(Value(s)) == s
  {
  }

  /** `header_t`: the 16-bit fields hold whatever byte order the code has put there. */
  datatype Header = Header(id: Short, qr: bit, opcode: nibble, aa: bit, tc: bit, rd: bit,
                           ra: bit, z: bits3, rcode: nibble,
                           qdcount: Short, ancount: Short, nscount: Short, arcount: Short)

  function FlagByte(qr: bit, opcode: nibble, aa: bit, tc: bit, rd: bit): byte {
    rd + 2 * tc + 4 * aa + 8 * opcode + 128 * qr
  }

  function CodeByte(ra: bit, z: bits3, rcode: nibble): byte {
    rcode + 16 * z + 128 * ra
  }

  /** Byte `j` of the struct in memory: bit-fields are allocated from the low bit up. */
  function ImageByte(h: Header, j: nat): byte {
    if j == 0 then h.id.first
    else if j == 1 then h.id.second
    else if j == 2 then FlagByte(h.qr, h.opcode, h.aa, h.tc, h.rd)
    else if j == 3 then CodeByte(h.ra, h.z, h.rcode)
    else if j == 4 then h.qdcount.first
    else if j == 5 then h.qdcount.second
    else if j == 6 then h.ancount.first
    else if j == 7 then h.ancount.second
    else if j == 8 then h.nscount.first
    else if j == 9 then h.nscount.second
    else if j == 10 then h.arcount.first
    else h.arcount.second
  }

  function Image(h: Header): (r: bytes)
    ensures |r| == HEADER_BYTES
  {
    seq(HEADER_BYTES, j requires 0 <= j => ImageByte(h, j))
  }

  function FromImage(b: bytes): Header
    requires |b| >= HEADER_BYTES
  {
    Header(Short(b[0], b[1]),
           b[2] / 128, b[2] / 8 % 16, b[2] / 4 % 2, b[2] / 2 % 2, b[2] % 2,
           b[3] / 128, b[3] / 16 % 8, b[3] % 16,
           Short(b[4], b[5]), Short(b[6], b[7]), Short(b[8], b[9]), Short(b[10], b[11]))
  }

  function FlipHeaderEndian(h: Header): Header {
    h.(id := Swap(h.id), qdcount := Swap(h.qdcount), ancount := Swap(h.ancount),
       nscount := Swap(h.nscount), arcount := Swap(h.arcount))
  }

  lemma FlagByteFields(qr: bit, opcode: nibble, aa: bit, tc: bit, rd: bit)
    ensures var b := FlagByte(qr, opcode, aa, tc, rd);
            b / 128 == qr && b / 8 % 16 == opcode && b / 4 % 2 == aa && b / 2 % 2 == tc && b % 2 == rd
  {
    var b := FlagByte(qr, opcode, aa, tc, rd);
    var b1, b2, b3 := tc + 2 * aa + 4 * opcode + 64 * qr, aa + 2 * opcode + 32 * qr, opcode + 16 * qr;
    assert b == 2 * b1 + rd && b1 == 2 * b2 + tc && b2 == 2 * b3 + aa;
    assert b / 2 == b1 && b % 2 == rd;
    assert b1 / 2 == b2 && b1 % 2 == tc && b / 4 == b2;
    assert b2 / 2 == b3 && b2 % 2 == aa && b / 8 == b3;
    assert b3 / 16 == qr && b3 % 16 == opcode && b / 128 == qr;
  }

  lemma CodeByteFields(ra: bit, z: bits3, rcode: nibble)
    ensures var b := CodeByte(ra, z, rcode); b / 128 == ra && b / 16 % 8 == z && b % 16 == rcode
  {
    var b, high := CodeByte(ra, z, rcode), z + 8 * ra;
    assert b == 16 * high + rcode;
    assert b / 16 == high && b % 16 == rcode;
    assert high / 8 == ra && high % 8 == z;
    assert b / 128 == high / 8;
  }

  /** Every header can be read back from its image. */
  lemma ImageIsReadBack(h: Header)
    ensures FromImage(Image(h)) == h
  {
    FlagByteFields(h.qr, h.opcode, h.aa, h.tc, h.rd);
    CodeByteFields(h.ra, h.z, h.rcode);
  }

  /** What the sender's header says, in host order. */
  function Announced(query: bool, id: word, resolved: bool): Header {
    Header(ShortOf(id), if query then 0 else 1, 0, 0, 0, 1, 0, 0,
           if !query && !resolved then NO_SUCH_NAME else 0,
           Short(1, 0), Short(0, 0), Short(0, 0), Short(0, 0))
  }

  // ---------- what a received message says ----------

  function ParseCode(s: bytes): byte {
    if |s| < HEADER_BYTES then 2 else if Find(s, NUL, HEADER_BYTES) + 4 > |s| then 3 else 0
  }

  function HeaderOf(s: bytes): Header
    requires |s| >= HEADER_BYTES
  {
    FlipHeaderEndian(FromImage(s))
  }

  function DomainOf(s: bytes): bytes
    requires |s| >= HEADER_BYTES
  {
    CString(s, HEADER_BYTES)
  }

  /** What an accepted message says. */
  datatype Said = Said(header: Header, domain: bytes)

  function Reading(s: bytes): Option<Said> {
    if ParseCode(s) == 0 then Some(Said(HeaderOf(s), DomainOf(s))) else None
  }

  /** Both question codes are read at the offset after the terminator. */
  function CodesOf(s: bytes): word
    requires ParseCode(s) == 0
  {
    var at := Find(s, NUL, HEADER_BYTES) + 1;
    Value(Short(s[at + 1], s[at]))
  }

  /**
   * Whatever bytes arrive, an accepted message has its terminator inside it, its domain holds no
   * terminator, and everything the result is made of lies before the end of the message.
   */
  lemma AcceptedIsWellBounded(s: bytes)
    requires ParseCode(s) == 0
    ensures var k := HEADER_BYTES + |DomainOf(s)|;
            && k + 4 <= |s| && s[k] == NUL && DomainOf(s) == s[HEADER_BYTES..k]
            && NUL !in DomainOf(s) && CodesOf(s) == Value(Short(s[k + 2], s[k + 1]))
  {
    FindFirst(s, NUL, HEADER_BYTES);
  }

  /** The parser's verdict, from the bytes alone: 2 without a whole header, 0 with a name and both codes, or 3. */
  lemma VerdictFromBytes(s: bytes)
    ensures ParseCode(s) == 2 <==> |s| < 12
    ensures ParseCode(s) == 0 <==> exists k :: 12 <= k && k + 4 <= |s| && s[k] == 0
    ensures ParseCode(s) in {0, 2, 3}
  {
    if |s| >= 12 {
      FindFirst(s, NUL, HEADER_BYTES);
      if k :| 12 <= k && k + 4 <= |s| && s[k] == 0 {
        FindWithin(s, NUL, HEADER_BYTES, k);
      }
      assert ParseCode(s) == 0 ==> s[Find(s, NUL, HEADER_BYTES)] == 0;
    }
  }

  /** What an accepted message's name and codes are, from the bytes alone. */
  lemma QuestionFromBytes(s: bytes)
    requires ParseCode(s) == 0
    ensures var n := |DomainOf(s)|;
            && n + 16 <= |s| && DomainOf(s) == s[12..12 + n] && 0 !in DomainOf(s) && s[12 + n] == 0
            && CodesOf(s) == s[13 + n] as int * 256 + s[14 + n]
  {
    AcceptedIsWellBounded(s);
  }

  /** Where each field of the header comes from, the high byte of a 16-bit field first. */
  lemma HeaderFromBytes(s: bytes)
    requires |s| >= 12
    ensures var h := HeaderOf(s);
            && Value(h.id) == s[0] as int * 256 + s[1] && h.qr == s[2] / 128 && h.opcode == s[2] / 8 % 16
            && h.aa == s[2] / 4 % 2 && h.tc == s[2] / 2 % 2 && h.rd == s[2] % 2
            && h.ra == s[3] / 128 && h.z == s[3] / 16 % 8 && h.rcode == s[3] % 16
            && Value(h.qdcount) == s[4] as int * 256 + s[5] && Value(h.ancount) == s[6] as int * 256 + s[7]
            && Value(h.nscount) == s[8] as int * 256 + s[9] && Value(h.arcount) == s[10] as int * 256 + s[11]
  {
  }

  /** Byte `j` of the header as section 4.1.1 of RFC 1035 draws it: QR is 0x80 and RD 0x01 of the
      third byte, RCODE the low nibble of the fourth, and 16-bit fields have their high byte first. */
  function WireByte(query: bool, id: word, resolved: bool, j: nat): byte {
    if j == 0 then id / 0x100
    else if j == 1 then id % 0x100
    else if j == 2 then (if query then 0x01 else 0x81)
    else if j == 3 then (if !query && !resolved then 3 else 0)
    else if j == 5 then 1
    else 0
  }

  /** What `CraftMessage` leaves in the buffer; the high bytes of both question codes are whatever was there. */
  ghost predicate IsCrafted(s: bytes, query: bool, id: word, domain: bytes, resolved: bool) {
    var k := HEADER_BYTES + |domain|;
    && |s| == k + 5
    && (forall j :: 0 <= j < HEADER_BYTES ==> s[j] == WireByte(query, id, resolved, j))
    && s[HEADER_BYTES..k] == domain && s[k] == NUL && s[k + 2] == 1 && s[k + 4] == 1
  }

  /** Byte for byte, what a crafted message is. */
  lemma CraftedBytes(s: bytes, query: bool, id: word, domain: bytes, resolved: bool)
    requires IsCrafted(s, query, id, domain, resolved)
    ensures |s| == 17 + |domain| && s[0] == id / 256 && s[1] == id % 256
    ensures s[2] == (if query then 0x01 else 0x81) && s[3] == (if query || resolved then 0 else 3)
    ensures s[4] == 0 && s[5] == 1 && forall j :: 6 <= j < 12 ==> s[j] == 0
    ensures s[12..12 + |domain|] == domain && s[12 + |domain|] == 0 && s[14 + |domain|] == 1 && s[16 + |domain|] == 1
  {
  }

  /** Read back, the bytes on the wire are the header announced, in host order. */
  lemma HeaderRoundTrip(s: bytes, query: bool, id: word, resolved: bool)
    requires |s| >= HEADER_BYTES && forall j :: 0 <= j < HEADER_BYTES ==> s[j] == WireByte(query, id, resolved, j)
    ensures HeaderOf(s) == Announced(query, id, resolved)
  {
  }

  /** Parsing a crafted message gives back the id, direction, result and domain that went in. */
  lemma MessageRoundTrip(s: bytes, query: bool, id: word, domain: bytes, resolved: bool)
    requires IsCrafted(s, query, id, domain, resolved) && NUL !in domain
    ensures ParseCode(s) == 0
    ensures Reading(s) == Some(Said(Announced(query, id, resolved), domain))
    ensures CodesOf(s) % 0x100 == 1
  {
    var k := HEADER_BYTES + |domain|;
    forall j | HEADER_BYTES <= j < k ensures s[j] != NUL {
      assert s[j] == domain[j - HEADER_BYTES];
    }
    FindIs(s, NUL, HEADER_BYTES, k);
    HeaderRoundTrip(s, query, id, resolved);
  }

  // ---------- the code ----------

  /** `message_t`, filled in place. */
  class Message {
    var header: Header
    var domain: bytes
    var qtype: word
    var qclass: word

    constructor ()
    {
      header := FromImage([0, 0, 0, 0, 0, 0, 0, 0, 0, 0, 0, 0]);
      domain, qtype, qclass := [], 0, 0;
    }
  }

  method Memcpy(buffer: array<byte>, at: nat, src: bytes)
    requires at + |src| <= buffer.Length
    modifies buffer
    ensures buffer[..] == old(buffer[..at]) + src + old(buffer[at + |src|..])
  {
    for i := 0 to |src|
      invariant buffer[..at] == old(buffer[..at]) && buffer[at..at + i] == src[..i]
      invariant buffer[at + i..] == old(buffer[at + i..])
    {
      buffer[at + i] := src[i];
    }
    assert buffer[..] == buffer[..at] + buffer[at..at + |src|] + buffer[at + |src|..];
  }

  /** The question: the name with its terminator, then two codes of which only the low bytes are set. */
  method CraftQuestion(buffer: array<byte>, at: nat, domain: bytes)
    requires at + |domain| + 5 <= buffer.Length
    modifies buffer
    ensures var end := at + |domain| + 5;
            && buffer[..at] == old(buffer[..at]) && buffer[end..] == old(buffer[end..])
            && buffer[at..end - 4] == domain + [NUL] && buffer[end - 3] == 1 && buffer[end - 1] == 1
  {
    Memcpy(buffer, at, domain + [NUL]);
    var curr := at + |domain| + 1;
    assert buffer[at..curr] == domain + [NUL];
    assert buffer[..at] == old(buffer[..at]) && buffer[curr..] == old(buffer[curr..]);
    buffer[curr + 1] := 1;
    buffer[curr + 3] := 1;
  }

  /** The header's image, then the question; the rest of the buffer stays. */
  method CopyParts(buffer: array<byte>, image: bytes, domain: bytes) returns (n: byte)
    requires |image| + |domain| + 5 <= buffer.Length && |image| + |domain| + 5 < 0x100
    modifies buffer
    ensures n == |image| + |domain| + 5 && buffer[n..] == old(buffer[n..])
    ensures buffer[..n][..|image|] == image && buffer[..n][|image|..n - 4] == domain + [NUL]
    ensures buffer[..n][n - 3] == 1 && buffer[..n][n - 1] == 1
  {
    Memcpy(buffer, 0, image);
    n := |image|;
    assert buffer[..n] == image && buffer[n..] == old(buffer[n..]);
    ghost var rest := buffer[n..];
    CraftQuestion(buffer, n, domain);
    n := n + |domain| + 1 + 4;
    assert buffer[n..] == rest[|domain| + 5..];
  }

  /** Fill the struct, with `qdcount` 0x100, which is 1 once its bytes are swapped, and take its image. */
  method CraftHeader(query: bool, id: word, resolved: bool) returns (image: bytes)
    ensures |image| == HEADER_BYTES
    ensures forall j :: 0 <= j < HEADER_BYTES ==> image[j] == WireByte(query, id, resolved, j)
  {
    var zero := Short(0, 0);
    var h := Header(Swap(ShortOf(id)), if !query then 1 else 0, 0, 0, 0, 1, 0, 0,
                    if !query && !resolved then 3 else 0, Short(0, 1), zero, zero, zero);
    image := Image(h);
  }

  /** `ip` is the lookup's result; only whether there is one matters. */
  method CraftMessage(buffer: array<byte>, query: bool, id: word, domain: bytes, ip: Option<bytes>) returns (n: byte)
    requires NUL !in domain && 17 + |domain| <= buffer.Length && 17 + |domain| < 0x100
    modifies buffer
    ensures n == 17 + |domain|
    ensures IsCrafted(buffer[..n], query, id, domain, ip.Some?)
    ensures Reading(buffer[..n]) == Some(Said(Announced(query, id, ip.Some?), domain))
    ensures buffer[n..] == old(buffer[n..])
  {
    var image := CraftHeader(query, id, ip.Some?);
    n := CopyParts(buffer, image, domain);
    ghost var s := buffer[..n];
    CraftedIs(s, image, query, id, domain, ip.Some?);
    MessageRoundTrip(s, query, id, domain, ip.Some?);
  }

  lemma CraftedIs(s: bytes, image: bytes, query: bool, id: word, domain: bytes, resolved: bool)
    requires |image| == HEADER_BYTES
    requires forall j :: 0 <= j < HEADER_BYTES ==> image[j] == WireByte(query, id, resolved, j)
    requires |s| == 17 + |domain| && s[..HEADER_BYTES] == image
    requires s[HEADER_BYTES..|s| - 4] == domain + [NUL] && s[|s| - 3] == 1 && s[|s| - 1] == 1
    ensures IsCrafted(s, query, id, domain, resolved)
  {
    var q := s[HEADER_BYTES..|s| - 4];
    assert s[HEADER_BYTES..HEADER_BYTES + |domain|] == q[..|domain|];
    assert s[HEADER_BYTES + |domain|] == q[|domain|];
    assert forall j :: 0 <= j < HEADER_BYTES ==> s[j] == image[j];
  }

  /** The message holds a terminator after its header. */
  predicate Terminated(s: bytes) {
    |s| >= HEADER_BYTES && NUL in s[HEADER_BYTES..]
  }

  /** The scan stops inside a message if and only if the message is terminated. */
  lemma ScanStopsInside(s: bytes)
    requires |s| >= HEADER_BYTES
    ensures Find(s, NUL, HEADER_BYTES) < |s| <==> Terminated(s)
  {
    FindFirst(s, NUL, HEADER_BYTES);
    if Terminated(s) {
      var j :| 0 <= j < |s[HEADER_BYTES..]| && s[HEADER_BYTES..][j] == NUL;
      FindWithin(s, NUL, HEADER_BYTES, HEADER_BYTES + j);
    }
  }

  /** For instance: 64 bytes of 65 fill the receive buffer, and the scan goes on to the byte after it. */
  lemma ScanLooksPastBuffer() returns (s: bytes)
    ensures s == seq(64, j => 65) && !Terminated(s)
    ensures ParseCode(s) == 3 && Find(s, NUL, HEADER_BYTES) == 64
  {
    s := seq(64, j => 65);
    ScanStopsInside(s);
  }

  /** The byte at `i`, `past` being the one after the buffer. */
  function ByteAt(buffer: array<byte>, i: nat, past: byte): byte
    reads buffer
  {
    if i < buffer.Length then buffer[i] else past
  }

  /**
   * The scan tests a byte before it tests the bound. `last` is where it looks last: inside the message
   * if the message is terminated, and otherwise one byte past it, whatever is there. When the message
   * fills its buffer that byte, here `past`, is beyond the buffer. It makes no difference to the result.
   */
  method ScanDomain(buffer: array<byte>, messageBytes: byte, past: byte) returns (charCnt: nat, ghost last: nat)
    requires HEADER_BYTES <= messageBytes <= buffer.Length
    ensures last == HEADER_BYTES + charCnt == Find(buffer[..messageBytes], NUL, HEADER_BYTES)
    ensures last <= messageBytes && (last < messageBytes <==> Terminated(buffer[..messageBytes]))
  {
    ghost var s := buffer[..messageBytes];
    FindFirst(s, NUL, HEADER_BYTES);
    ScanStopsInside(s);
    charCnt := 0;
    while ByteAt(buffer, HEADER_BYTES + charCnt, past) != NUL && charCnt < messageBytes - HEADER_BYTES
      invariant HEADER_BYTES + charCnt <= Find(s, NUL, HEADER_BYTES)
      decreases messageBytes - charCnt
    {
      assert Find(s, NUL, HEADER_BYTES) < |s| ==> s[Find(s, NUL, HEADER_BYTES)] == NUL;
      charCnt := charCnt + 1;
    }
    last := HEADER_BYTES + charCnt;
  }

  /** The name's bytes, copied out of the message. */
  method CopyName(buffer: array<byte>, messageBytes: nat, charCnt: nat) returns (domain: bytes)
    requires HEADER_BYTES + charCnt <= messageBytes <= buffer.Length
    ensures domain == buffer[..messageBytes][HEADER_BYTES..HEADER_BYTES + charCnt]
  {
    domain := buffer[HEADER_BYTES..HEADER_BYTES + charCnt];
    ghost var s := buffer[..messageBytes];
    forall j | 0 <= j < charCnt ensures domain[j] == s[HEADER_BYTES..HEADER_BYTES + charCnt][j] {
      assert s[HEADER_BYTES + j] == buffer[HEADER_BYTES + j];
    }
  }

  method ParseMessage(buffer: array<byte>, message: Message?, messageBytes: byte, past: byte) returns (code: byte)
    requires messageBytes <= buffer.Length
    modifies message
    ensures message == null ==> code == 1
    ensures message != null ==> code == ParseCode(buffer[..messageBytes])
    ensures message != null && code == 0 ==>
              && message.domain == DomainOf(buffer[..messageBytes])
              && message.qtype == message.qclass == CodesOf(buffer[..messageBytes])
    ensures message != null && code in {0, 3} ==> message.header == HeaderOf(buffer[..messageBytes])
    ensures message != null && code == 2 ==> message.header == old(message.header)
    ensures message != null && code != 0 ==>
              unchanged(message`domain) && unchanged(message`qtype) && unchanged(message`qclass)
  {
    if message == null {
      return 1;
    }
    if messageBytes < HEADER_BYTES {
      return 2;
    }
    message.header := FromImage(buffer[..messageBytes]);
    message.header := FlipHeaderEndian(message.header);
    var charCnt, _ := ScanDomain(buffer, messageBytes, past);
    if charCnt + 4 > messageBytes - HEADER_BYTES {
      return 3;
    }
    ghost var s := buffer[..messageBytes];
    var domain := CopyName(buffer, messageBytes, charCnt);
    message.domain := domain;
    var at := HEADER_BYTES + charCnt + 1;
    assert buffer[at] == s[at] && buffer[at + 1] == s[at + 1];
    message.qtype := Value(Swap(Short(buffer[at], buffer[at + 1])));
    message.qclass := Value(Swap(Short(buffer[at], buffer[at + 1])));
    return 0;
  }
}
