/** The two TCP formats between servers: the update frame and the whole-table transfer. */
module Wire {
  import opened Bytes
  import opened Replicas

  const BUFFER_BYTES: nat := 128
  const ONE: byte := 49
  const ZERO: byte := 48

  // ---------- update frame ----------

  /** What the coordinator sends, string terminator included. */
  function Frame(u: Update): (s: bytes)
    ensures |s| == |u.domain| + |u.ip| + 6
  {
    [if u.remove then ONE else ZERO, SPACE] + u.domain + [SPACE] + u.ip + [SPACE, u.id, NUL]
  }

  /** The updates the frame format can carry: separable fields, and short enough for the buffer. */
  type Pushable = u: Update | Plain(u.domain) && Plain(u.ip) && |u.domain| + |u.ip| + 6 <= 128
    witness Update(false, [ONE], [ONE], 1)

  /** Where the receiver's walk cuts a frame: after the flag, the domain and the address. */
  datatype Cuts = Cuts(flag: nat, domain: nat, ip: nat)

  /**
   * Three separators found from the left, each search starting one past the first byte of its
   * field; `None` when the walk runs off the end.
   */
  function FindCuts(s: bytes): Option<Cuts> {
    if |s| == 0 then None else
    var p1 := Find(s, SPACE, 1);
    if p1 + 2 > |s| then None else
    var p2 := Find(s, SPACE, p1 + 2);
    if p2 + 2 > |s| then None else
    var p3 := Find(s, SPACE, p2 + 2);
    if p3 + 2 > |s| then None else Some(Cuts(p1, p2, p3))
  }

  /** The fields of `t`, whose separators have been overwritten with terminators. */
  function Fields(t: bytes, c: Cuts): Update
    requires c.flag + 1 <= |t| && c.domain + 1 <= |t| && c.ip + 2 <= |t| && |t| > 0
  {
    Update(t[0] == ONE, CString(t, c.flag + 1), CString(t, c.domain + 1), t[c.ip + 1])
  }

  function ParseFrame(s: bytes): Option<Update> {
    match FindCuts(s)
    case None => None
    case Some(c) => Some(Fields(s[c.flag := NUL][c.domain := NUL][c.ip := NUL], c))
  }

  /** The C string at `at`, when it is `field` followed by a terminator. */
  lemma CStringIs(t: bytes, at: nat, field: bytes)
    requires at + |field| < |t| && t[at..at + |field|] == field && t[at + |field|] == NUL && NUL !in field
    ensures CString(t, at) == field
  {
    forall j | at <= j < at + |field| ensures t[j] != NUL {
      assert t[j] == field[j - at];
    }
    FindIs(t, NUL, at, at + |field|);
  }

  /** The separator after `field`, searched for from anywhere inside or just before it. */
  lemma SeparatorIs(s: bytes, at: nat, field: bytes, from: nat)
    requires at + |field| < |s| && s[at..at + |field|] == field && s[at + |field|] == SPACE && SPACE !in field
    requires at <= from <= at + |field|
    ensures Find(s, SPACE, from) == at + |field|
  {
    forall j | from <= j < at + |field| ensures s[j] != SPACE {
      assert s[j] == field[j - at];
    }
    FindIs(s, SPACE, from, at + |field|);
  }

  /** Where the fields lie in the buffer, byte for byte. */
  lemma FrameParts(u: Update, s: bytes, junk: bytes)
    requires s == Frame(u) + junk
    ensures |Frame(u)| == 6 + |u.domain| + |u.ip|
    ensures s[0] == (if u.remove then 49 else 48) && s[1] == 32
    ensures s[2..2 + |u.domain|] == u.domain && s[2 + |u.domain|] == 32
    ensures s[3 + |u.domain|..3 + |u.domain| + |u.ip|] == u.ip && s[3 + |u.domain| + |u.ip|] == 32
    ensures s[4 + |u.domain| + |u.ip|] == u.id && s[5 + |u.domain| + |u.ip|] == 0
  {
  }

  lemma FrameCuts(u: Update, s: bytes, junk: bytes)
    requires Plain(u.domain) && Plain(u.ip) && s == Frame(u) + junk
    ensures FindCuts(s) == Some(Cuts(1, 2 + |u.domain|, 3 + |u.domain| + |u.ip|))
  {
    FrameParts(u, s, junk);
    FindIs(s, SPACE, 1, 1);
    SeparatorIs(s, 2, u.domain, 3);
    SeparatorIs(s, 3 + |u.domain|, u.ip, 4 + |u.domain|);
  }

  lemma FrameFields(u: Update, t: bytes)
    requires Plain(u.domain) && Plain(u.ip) && |t| >= |Frame(u)|
    requires t[0] == if u.remove then ONE else ZERO
    requires t[2..2 + |u.domain|] == u.domain && t[2 + |u.domain|] == NUL
    requires t[3 + |u.domain|..3 + |u.domain| + |u.ip|] == u.ip && t[3 + |u.domain| + |u.ip|] == NUL
    requires t[4 + |u.domain| + |u.ip|] == u.id
    ensures Fields(t, Cuts(1, 2 + |u.domain|, 3 + |u.domain| + |u.ip|)) == u
  {
    CStringIs(t, 2, u.domain);
    CStringIs(t, 3 + |u.domain|, u.ip);
  }

  /** A buffer whose parts are those of a frame is read as that frame. */
  lemma PartsParse(u: Update, s: bytes)
    requires Plain(u.domain) && Plain(u.ip) && |s| >= |Frame(u)|
    requires FindCuts(s) == Some(Cuts(1, 2 + |u.domain|, 3 + |u.domain| + |u.ip|))
    requires s[0] == if u.remove then ONE else ZERO
    requires s[2..2 + |u.domain|] == u.domain
    requires s[3 + |u.domain|..3 + |u.domain| + |u.ip|] == u.ip
    requires s[4 + |u.domain| + |u.ip|] == u.id
    ensures ParseFrame(s) == Some(u)
  {
    var d, e := 2 + |u.domain|, 3 + |u.domain| + |u.ip|;
    var t := s[1 := NUL][d := NUL][e := NUL];
    assert t[2..d] == s[2..d];
    assert t[d + 1..e] == s[d + 1..e];
    FrameFields(u, t);
  }

  /** Whatever follows the frame in the buffer, the receiver recovers what was sent, every id byte included. */
  lemma FrameRoundTrip(u: Update, junk: bytes)
    requires Plain(u.domain) && Plain(u.ip)
    ensures ParseFrame(Frame(u) + junk) == Some(u)
  {
    var s := Frame(u) + junk;
    FrameCuts(u, s, junk);
    FrameParts(u, s, junk);
    PartsParse(u, s);
  }

  /** The field between two cuts: all of it, or up to its first terminator. */
  ghost predicate IsField(s: bytes, from: nat, cut: nat, field: bytes)
    requires from <= cut < |s|
  {
    && from + |field| <= cut && field == s[from..from + |field|] && 0 !in field
    && (from + |field| == cut || s[from + |field|] == 0)
  }

  /** The C string from `from` to a cut made at `cut`: it ends there, or at an earlier terminator. */
  lemma CutString(s: bytes, t: bytes, from: nat, cut: nat)
    requires from <= cut < |s| == |t| && s[from..cut] == t[from..cut] && t[cut] == 0
    ensures IsField(s, from, cut, CString(t, from))
  {
    FindFirst(t, NUL, from);
    FindWithin(t, NUL, from, cut);
    var n := |CString(t, from)|;
    assert t[from..from + n] == t[from..cut][..n] && s[from..from + n] == s[from..cut][..n];
    assert from + n < cut ==> s[from + n] == s[from..cut][n] && t[from + n] == t[from..cut][n];
  }

  /**
   * Where the walk cuts any bytes it can follow, frame or not: at the first separator from byte 1 on, and
   * twice at the next one that leaves at least one byte for the field before it.
   */
  lemma CutsFromBytes(s: bytes)
    requires FindCuts(s).Some?
    ensures var c := FindCuts(s).value;
            && 1 <= c.flag && c.flag + 2 <= c.domain && c.domain + 2 <= c.ip && c.ip + 1 < |s|
            && s[c.flag] == 32 && s[c.domain] == 32 && s[c.ip] == 32
            && 32 !in s[1..c.flag] && 32 !in s[c.flag + 2..c.domain] && 32 !in s[c.domain + 2..c.ip]
  {
    var c := FindCuts(s).value;
    FindFirst(s, SPACE, 1);
    FindFirst(s, SPACE, c.flag + 2);
    FindFirst(s, SPACE, c.domain + 2);
  }

  /** Three cuts leave what lies between and around them. */
  lemma CutsLeave(s: bytes, t: bytes, c: Cuts)
    requires 0 < c.flag < c.domain < c.ip && c.ip + 1 < |s| && t == s[c.flag := NUL][c.domain := NUL][c.ip := NUL]
    ensures |t| == |s| && t[0] == s[0] && t[c.ip + 1] == s[c.ip + 1] && t[c.domain] == 0 && t[c.ip] == 0
    ensures t[c.flag + 1..c.domain] == s[c.flag + 1..c.domain] && t[c.domain + 1..c.ip] == s[c.domain + 1..c.ip]
  {
  }

  /** What it makes of them: the flag, the two fields, and the byte after the last separator. */
  lemma FieldsFromBytes(s: bytes, c: Cuts)
    requires FindCuts(s) == Some(c)
    requires 1 <= c.flag && c.flag + 2 <= c.domain && c.domain + 2 <= c.ip && c.ip + 1 < |s|
    ensures ParseFrame(s).Some?
    ensures var u := ParseFrame(s).value;
            && (u.remove <==> s[0] == 49) && u.id == s[c.ip + 1]
            && IsField(s, c.flag + 1, c.domain, u.domain) && IsField(s, c.domain + 1, c.ip, u.ip)
  {
    var t := s[c.flag := NUL][c.domain := NUL][c.ip := NUL];
    CutsLeave(s, t, c);
    CutString(s, t, c.flag + 1, c.domain);
    CutString(s, t, c.domain + 1, c.ip);
    assert ParseFrame(s) == Some(Fields(t, c));
  }

  /** Advance to the next separator, as the walk's inner loops do; off the end of the buffer if there is none. */
  method SkipToSpace(buffer: array<byte>, from: nat) returns (p: nat)
    requires from <= buffer.Length
    ensures p == Find(buffer[..], SPACE, from)
  {
    p := from;
    FindFirst(buffer[..], SPACE, from);
    while p < buffer.Length && buffer[p] != SPACE
      invariant from <= p <= Find(buffer[..], SPACE, from)
    {
      p := p + 1;
    }
  }

  /** The C string that starts at `from`, read out of the buffer. */
  method ReadString(buffer: array<byte>, from: nat) returns (r: bytes)
    requires from <= buffer.Length && Find(buffer[..], NUL, from) < buffer.Length
    ensures r == CString(buffer[..], from)
  {
    var end := from;
    FindFirst(buffer[..], NUL, from);
    while buffer[end] != NUL
      invariant from <= end <= Find(buffer[..], NUL, from)
      decreases buffer.Length - end
    {
      end := end + 1;
    }
    r := buffer[from..end];
    assert buffer[..][from..end] == buffer[from..end];
  }

  /** Overwrite the next separator with a terminator, if there is one. */
  method CutNext(buffer: array<byte>, from: nat) returns (p: nat)
    requires from <= buffer.Length
    modifies buffer
    ensures p == Find(old(buffer[..]), SPACE, from) && from <= p <= buffer.Length
    ensures buffer[..] == if p < buffer.Length then old(buffer[..])[p := NUL] else old(buffer[..])
  {
    p := SkipToSpace(buffer, from);
    if p < buffer.Length {
      buffer[p] := NUL;
    }
  }

  /** The walk's three cuts, made in place from left to right; `None` when it runs off the end. */
  method CutFrame(buffer: array<byte>) returns (c: Option<Cuts>)
    requires buffer.Length > 0
    modifies buffer
    ensures c == old(FindCuts(buffer[..]))
    ensures c.Some? ==>
              && 0 < c.value.flag < c.value.domain < c.value.ip && c.value.ip + 1 < buffer.Length
              && buffer[..] == old(buffer[..])[c.value.flag := NUL][c.value.domain := NUL][c.value.ip := NUL]
  {
    ghost var s: bytes := buffer[..];
    var p1 := CutNext(buffer, 1);
    if p1 + 2 > buffer.Length {
      return None;
    }
    FindAgree(s, buffer[..], SPACE, p1 + 2);
    var p2 := CutNext(buffer, p1 + 2);
    if p2 + 2 > buffer.Length {
      return None;
    }
    FindAgree(s, buffer[..], SPACE, p2 + 2);
    var p3 := CutNext(buffer, p2 + 2);
    if p3 + 2 > buffer.Length {
      return None;
    }
    c := Some(Cuts(p1, p2, p3));
  }

  /** The fields between the cuts. */
  method ReadFields(buffer: array<byte>, remove: bool, c: Cuts) returns (u: Update)
    requires 0 < c.flag < c.domain < c.ip && c.ip + 1 < buffer.Length
    requires buffer[c.domain] == NUL && buffer[c.ip] == NUL && remove == (buffer[0] == ONE)
    ensures u == Fields(buffer[..], c)
  {
    FindWithin(buffer[..], NUL, c.flag + 1, c.domain);
    FindWithin(buffer[..], NUL, c.domain + 1, c.ip);
    var domain := ReadString(buffer, c.flag + 1);
    var ip := ReadString(buffer, c.domain + 1);
    u := Update(remove, domain, ip, buffer[c.ip + 1]);
  }

  /** What the receiver makes of the bytes in its buffer; `None` when its walk leaves the buffer. */
  method WalkFrame(buffer: array<byte>) returns (u: Option<Update>)
    requires buffer.Length > 0
    modifies buffer
    ensures u == old(ParseFrame(buffer[..]))
  {
    var remove := buffer[0] == ONE;
    var c := CutFrame(buffer);
    if c == None {
      return None;
    }
    var fields := ReadFields(buffer, remove, c.value);
    u := Some(fields);
  }

  // ---------- whole-table transfer ----------

  /** One walk order of a hash table: its keys, each once, in any order. */
  predicate IsOrder(order: seq<bytes>, t: Table)
    decreases |order|
  {
    if order == [] then t == map[] else order[0] in t && IsOrder(order[1..], t - {order[0]})
  }

  lemma {:induction false} OrderLength(order: seq<bytes>, t: Table)
    requires IsOrder(order, t)
    ensures |order| == |t|
    decreases |order|
  {
    if order != [] {
      OrderLength(order[1..], t - {order[0]});
      assert t.Keys == (t - {order[0]}).Keys + {order[0]};
    }
  }

  function Entry(domain: bytes, ip: bytes): bytes {
    domain + [SPACE] + ip + [NUL]
  }

  function Entries(order: seq<bytes>, t: Table): (r: seq<bytes>)
    requires IsOrder(order, t)
    ensures |r| == |order|
    decreases |order|
  {
    if order == [] then []
    else [Entry(order[0], t[order[0]])] + Entries(order[1..], t - {order[0]})
  }

  /** The messages a donor sends: the 8-bit count, the entries, the version. */
  function Transfer(order: seq<bytes>, r: Replica): seq<bytes>
    requires IsOrder(order, r.table)
  {
    [[|r.table| % 0x100]] + Entries(order, r.table) + [[r.version]]
  }

  /** One entry as the receiver cuts it; `None` when its walk runs off the end. */
  function ParseEntry(s: bytes): Option<(bytes, bytes)> {
    if |s| == 0 then None else
    var p := Find(s, SPACE, 1);
    if p >= |s| then None else
    var t := s[p := NUL];
    if Find(t, NUL, p + 1) >= |s| then None else
    Some((CString(t, 0), CString(t, p + 1)))
  }

  type Parser = bytes -> Option<(bytes, bytes)>

  /**
   * What the receiver makes of the messages after the count, cutting each entry with `parse`: with
   * `left` entries still to come it lays the next one over `acc`, then takes the first byte of the
   * next message as the version; `None` where it would run off a message or wait for one that never
   * comes.
   */
  function Receive(parse: Parser, acc: Table, left: nat, msgs: seq<bytes>): Option<Replica>
    decreases left
  {
    if msgs == [] || msgs[0] == [] then None
    else if left == 0 then Some(Replica(acc, msgs[0][0]))
    else if |msgs[0]| > BUFFER_BYTES || parse(msgs[0]).None? then None
    else Receive(parse, Lay(acc, parse(msgs[0]).value), left - 1, msgs[1..])
  }

  function Lay(acc: Table, kv: (bytes, bytes)): Table {
    acc[kv.0 := kv.1]
  }

  /** What the receiver ends with, starting from an empty table. */
  function Received(stream: seq<bytes>): Option<Replica> {
    if stream == [] || |stream[0]| != 1 then None else Receive(ParseEntry, map[], stream[0][0], stream[1..])
  }

  /** `parse` cuts every entry of the table where it should. */
  ghost predicate Cutter(parse: Parser, t: Table) {
    forall d :: d in t ==> parse(Entry(d, t[d])) == Some((d, t[d])) && |Entry(d, t[d])| <= BUFFER_BYTES
  }

  /** Entries that survive a transfer: separable, terminated, and no longer than the buffer. */
  ghost predicate Transferable(t: Table) {
    forall d :: d in t ==> Plain(d) && Plain(t[d]) && |d| + |t[d]| + 2 <= BUFFER_BYTES
  }

  lemma EntryRoundTrip(domain: bytes, ip: bytes)
    requires Plain(domain) && Plain(ip)
    ensures ParseEntry(Entry(domain, ip)) == Some((domain, ip))
  {
    var s := Entry(domain, ip);
    var p := |domain|;
    assert s[0..p] == domain && s[p] == SPACE;
    SeparatorIs(s, 0, domain, 1);
    var t := s[p := NUL];
    assert t[0..p] == domain && t[p + 1..p + 1 + |ip|] == ip;
    CStringIs(t, 0, domain);
    CStringIs(t, p + 1, ip);
    FindWithin(t, NUL, p + 1, p + 1 + |ip|);
  }

  /** What the receiver makes of any entry it can walk: the first separator from byte 1 on cuts it. */
  lemma EntryFromBytes(s: bytes) returns (p: nat)
    requires ParseEntry(s).Some?
    ensures 1 <= p < |s| && s[p] == 32 && 32 !in s[1..p]
    ensures var (domain, ip) := ParseEntry(s).value;
            && IsField(s, 0, p, domain)
            && p + 1 + |ip| < |s| && ip == s[p + 1..p + 1 + |ip|] && 0 !in ip && s[p + 1 + |ip|] == 0
  {
    p := Find(s, SPACE, 1);
    FindFirst(s, SPACE, 1);
    var t := s[p := NUL];
    CutString(s, t, 0, p);
    var end := Find(t, NUL, p + 1);
    FindFirst(t, NUL, p + 1);
    CutString(s, t, p + 1, end);
  }

  lemma MapShift(acc: Table, t: Table, d: bytes)
    requires d in t
    ensures acc[d := t[d]] + (t - {d}) == acc + t
  {
  }

  /** One entry of a walk, received. */
  lemma ReceiveFirst(parse: Parser, acc: Table, left: nat, domain: bytes, ip: bytes, rest: seq<bytes>)
    requires left > 0 && parse(Entry(domain, ip)) == Some((domain, ip)) && |Entry(domain, ip)| <= BUFFER_BYTES
    ensures Receive(parse, acc, left, [Entry(domain, ip)] + rest) == Receive(parse, acc[domain := ip], left - 1, rest)
  {
    assert ([Entry(domain, ip)] + rest)[1..] == rest;
  }

  lemma EntriesFirst(order: seq<bytes>, t: Table, tail: seq<bytes>)
    requires order != [] && IsOrder(order, t)
    ensures Entries(order, t) + tail
         == [Entry(order[0], t[order[0]])] + (Entries(order[1..], t - {order[0]}) + tail)
  {
  }

  /** A receiver that counts every entry of a walk lays exactly the donor's table over what it had. */
  lemma {:induction false} ReceiveAll(parse: Parser, order: seq<bytes>, t: Table, acc: Table, version: byte)
    requires Cutter(parse, t) && IsOrder(order, t)
    ensures Receive(parse, acc, |order|, Entries(order, t) + [[version]]) == Some(Replica(acc + t, version))
    decreases |order|
  {
    if order == [] {
      assert acc + t == acc;
      assert [] + [[version]] == [[version]];
    } else {
      var d := order[0];
      EntriesFirst(order, t, [[version]]);
      ReceiveAll(parse, order[1..], t - {d}, acc[d := t[d]], version);
      ReceiveFirst(parse, acc, |order|, d, t[d], Entries(order[1..], t - {d}) + [[version]]);
      MapShift(acc, t, d);
    }
  }

  /** Message by message, what a donor sends for its entries. */
  lemma {:induction false} EntriesAt(order: seq<bytes>, t: Table, i: nat)
    requires IsOrder(order, t) && i < |order|
    ensures order[i] in t && Entries(order, t)[i] == order[i] + [32] + t[order[i]] + [0]
    decreases |order|
  {
    if i > 0 {
      EntriesAt(order[1..], t - {order[0]}, i - 1);
    }
  }

  lemma {:induction false} OrderDistinct(order: seq<bytes>, t: Table, i: nat, j: nat)
    requires IsOrder(order, t) && i < j < |order|
    ensures order[i] != order[j]
    decreases |order|
  {
    if i > 0 {
      OrderDistinct(order[1..], t - {order[0]}, i - 1, j - 1);
    } else {
      OrderKey(order, t, j);
    }
  }

  lemma {:induction false} OrderKey(order: seq<bytes>, t: Table, i: nat)
    requires IsOrder(order, t) && i < |order|
    ensures order[i] in t && (i > 0 ==> order[i] != order[0])
    decreases |order|
  {
    if i > 0 {
      OrderKey(order[1..], t - {order[0]}, i - 1);
    }
  }

  /** A receiver whose count falls short ends without the entry after the last one counted, which it
      has mistaken for the version. */
  lemma {:induction false} ReceiveSome(parse: Parser, order: seq<bytes>, t: Table, acc: Table, left: nat,
                                       tail: seq<bytes>)
    requires Cutter(parse, t) && IsOrder(order, t) && left < |order| && order[left] !in acc
    ensures var got := Receive(parse, acc, left, Entries(order, t) + tail);
            got.Some? && order[left] !in got.value.table
    decreases |order|
  {
    var d := order[0];
    EntriesFirst(order, t, tail);
    if left > 0 {
      OrderKey(order, t, left);
      ReceiveSome(parse, order[1..], t - {d}, acc[d := t[d]], left - 1, tail);
      ReceiveFirst(parse, acc, left, d, t[d], Entries(order[1..], t - {d}) + tail);
    }
  }

  /** No more entries are laid than were counted. */
  lemma {:induction false} ReceiveAdds(parse: Parser, acc: Table, left: nat, msgs: seq<bytes>)
    requires Receive(parse, acc, left, msgs).Some?
    ensures |Receive(parse, acc, left, msgs).value.table| <= |acc| + left
    decreases left
  {
    if left > 0 {
      var kv := parse(msgs[0]).value;
      LaySize(acc, kv);
      ReceiveAdds(parse, Lay(acc, kv), left - 1, msgs[1..]);
    }
  }

  lemma LaySize(acc: Table, kv: (bytes, bytes))
    ensures |Lay(acc, kv)| <= |acc| + 1
  {
    assert Lay(acc, kv).Keys == acc.Keys + {kv.0};
  }

  /**
   * Whole-table transfer: whatever order the donor's hash table is walked in, the receiver can walk
   * the stream, and it ends with exactly the donor's table and version if and only if the table has
   * at most 255 entries, which is what the 8-bit count can say; above that at least 256 are missing.
   */
  lemma TransferExact(order: seq<bytes>, r: Replica)
    requires Transferable(r.table) && IsOrder(order, r.table)
    ensures Received(Transfer(order, r)).Some?
    ensures Received(Transfer(order, r)) == Some(r) <==> |r.table| <= 255
    ensures |r.table| > 255 ==> |Received(Transfer(order, r)).value.table| + 0x100 <= |r.table|
  {
    CutsEvery(r.table);
    OrderLength(order, r.table);
    var cnt: byte := |r.table| % 0x100;
    LowByte(|r.table|);
    CountedTransfer(ParseEntry, order, r, cnt);
    ReceivedIs(cnt, Entries(order, r.table), r.version);
  }

  lemma LowByte(n: nat)
    ensures if n <= 255 then n % 0x100 == n else n % 0x100 + 0x100 <= n
  {
  }

  lemma CutsEvery(t: Table)
    requires Transferable(t)
    ensures Cutter(ParseEntry, t)
  {
    forall d | d in t ensures ParseEntry(Entry(d, t[d])) == Some((d, t[d])) {
      EntryRoundTrip(d, t[d]);
    }
  }

  lemma ReceivedIs(cnt: byte, es: seq<bytes>, version: byte)
    ensures Received([[cnt]] + es + [[version]]) == Receive(ParseEntry, map[], cnt, es + [[version]])
  {
    assert ([[cnt]] + es + [[version]])[1..] == es + [[version]];
  }

  lemma CountedTransfer(parse: Parser, order: seq<bytes>, r: Replica, cnt: byte)
    requires Cutter(parse, r.table) && IsOrder(order, r.table)
    requires if |order| <= 255 then cnt == |order| else cnt + 0x100 <= |order|
    ensures var got := Receive(parse, map[], cnt, Entries(order, r.table) + [[r.version]]);
            got.Some? && if |order| <= 255 then got == Some(r) else |got.value.table| + 0x100 <= |order|
  {
    if |order| <= 255 {
      ReceiveAll(parse, order, r.table, map[], r.version);
      assert map[] + r.table == r.table;
    } else {
      OrderKey(order, r.table, cnt);
      ReceiveSome(parse, order, r.table, map[], cnt, [[r.version]]);
      ReceiveAdds(parse, map[], cnt, Entries(order, r.table) + [[r.version]]);
    }
  }

  /** What a joiner holds after copying from `donor`, whose hash table is walked in `order`. */
  function Copy(order: seq<bytes>, donor: Replica): Option<Replica> {
    if IsOrder(order, donor.table) then Received(Transfer(order, donor)) else None
  }

  // ---------- the tables that updates make ----------

  /** Applying an update changes the number of entries by one at most. */
  lemma ApplySize(u: Update, r: Replica)
    ensures |r.table| - 1 <= |Apply(u, r).table| <= |r.table| + 1
  {
    if u.remove {
      assert r.table.Keys <= Apply(u, r).table.Keys + {u.domain};
      SubsetSize(Apply(u, r).table.Keys, r.table.Keys);
      SubsetSize(r.table.Keys, Apply(u, r).table.Keys + {u.domain});
    } else {
      assert Apply(u, r).table.Keys == r.table.Keys + {u.domain};
    }
  }

  lemma {:induction false} SubsetSize<T>(a: set<T>, b: set<T>)
    requires a <= b
    ensures |a| <= |b|
  {
    if x :| x in a {
      SubsetSize(a - {x}, b - {x});
    }
  }

  /** A table that can be sent and counted is copied whole. */
  lemma CopyWhole(order: seq<bytes>, donor: Replica)
    requires Transferable(donor.table) && IsOrder(order, donor.table) && |donor.table| <= 255
    ensures Copy(order, donor) == Some(donor)
  {
    TransferExact(order, donor);
  }

  lemma ApplyTransferable(u: Pushable, r: Replica)
    requires Transferable(r.table)
    ensures Transferable(Apply(u, r).table)
  {
  }

  /** Updates that a frame can carry keep every entry within what a transfer can carry. */
  lemma {:induction false} ReplayTransferable(base: Replica, us: seq<Pushable>)
    requires Transferable(base.table)
    ensures Transferable(Replay(base, us).table)
  {
    if us != [] {
      ReplayTransferable(base, us[..|us| - 1]);
      ApplyTransferable(us[|us| - 1], Replay(base, us[..|us| - 1]));
    }
  }

  // ---------- a table too large ----------

  /** 256 different names. */
  function Name(i: nat): bytes
    requires i < 0x100
  {
    [64 + i / 16, 64 + i % 16]
  }

  function BigTable(n: nat): Table
    requires n <= 0x100
  {
    if n == 0 then map[] else BigTable(n - 1)[Name(n - 1) := [ONE]]
  }

  function BigOrder(n: nat): seq<bytes>
    requires n <= 0x100
  {
    if n == 0 then [] else [Name(n - 1)] + BigOrder(n - 1)
  }

  lemma {:induction false} BigTableHas(n: nat, d: bytes)
    requires n <= 0x100 && d in BigTable(n)
    ensures exists i :: 0 <= i < n && d == Name(i)
    ensures BigTable(n)[d] == [ONE]
  {
    if d != Name(n - 1) {
      BigTableHas(n - 1, d);
    }
  }

  lemma {:induction false} BigTableIsOrdered(n: nat)
    requires n <= 0x100
    ensures IsOrder(BigOrder(n), BigTable(n)) && |BigOrder(n)| == n
  {
    if n > 0 {
      BigTableIsOrdered(n - 1);
      if Name(n - 1) in BigTable(n - 1) {
        BigTableHas(n - 1, Name(n - 1));
      }
      assert BigTable(n) - {Name(n - 1)} == BigTable(n - 1);
      assert BigOrder(n)[1..] == BigOrder(n - 1);
    }
  }

  lemma NothingCounted(parse: Parser, order: seq<bytes>, t: Table, tail: seq<bytes>)
    requires order != [] && IsOrder(order, t) && order[0] != []
    ensures Receive(parse, map[], 0, Entries(order, t) + tail) == Some(Replica(map[], order[0][0]))
  {
    EntriesFirst(order, t, tail);
  }

  /** A transfer of 256 entries counts none: the copy is empty, its version a byte of the first name sent. */
  lemma TransferLosesEverything(order: seq<bytes>, r: Replica, first: bytes)
    requires Transferable(r.table) && IsOrder(order, r.table) && |r.table| == 0x100
    requires order != [] && order[0] == first
    ensures first != [] && Copy(order, r) == Some(Replica(map[], first[0]))
  {
    ReceivedIs(0, Entries(order, r.table), r.version);
    NothingCounted(ParseEntry, order, r.table, [[r.version]]);
  }

  lemma BigTableTransferable(n: nat)
    requires n <= 0x100
    ensures Transferable(BigTable(n)) && |BigTable(n)| == n
  {
    BigTableIsOrdered(n);
    OrderLength(BigOrder(n), BigTable(n));
    var t := BigTable(n);
    forall d | d in t ensures Plain(d) && Plain(t[d]) && |d| + |t[d]| + 2 <= BUFFER_BYTES {
      BigTableHas(n, d);
    }
  }

  /** One entry more than the count can say. */
  const TOO_MANY: nat := 0x100

  /** For instance: 256 names from [64, 64] to [79, 79], sent last name first, arrive as nothing at version 79. */
  lemma TransferOfBigTable(version: byte)
    ensures |BigTable(TOO_MANY)| == 0x100 && Transferable(BigTable(TOO_MANY))
    ensures Copy(BigOrder(TOO_MANY), Replica(BigTable(TOO_MANY), version)) == Some(Replica(map[], 79))
  {
    BigTableIsOrdered(TOO_MANY);
    BigTableTransferable(TOO_MANY);
    TransferLosesEverything(BigOrder(TOO_MANY), Replica(BigTable(TOO_MANY), version), Name(TOO_MANY - 1));
    assert Name(TOO_MANY - 1)[0] == 79;
  }
}
