/** The hosts file: what `write_hosts_file` writes and `parse_hosts_file` reads, as file contents. */
module HostsFile {
  import opened Bytes
  import opened Replicas
  import opened Wire

  const NEWLINE: byte := 10

  /** The characters a C++ input stream skips between words. */
  predicate IsSpace(b: byte) {
    b == SPACE || 9 <= b <= 13
  }

  /** Non-empty and without white space. */
  ghost predicate Word(s: bytes) {
    s != [] && forall i :: 0 <= i < |s| ==> !IsSpace(s[i])
  }

  ghost predicate CleanTable(t: Table) {
    forall d :: d in t ==> Word(d) && Word(t[d])
  }

  // ---------- writing ----------

  function Line(domain: bytes, ip: bytes): bytes {
    domain + [SPACE] + ip + [NEWLINE]
  }

  function Printed(order: seq<bytes>, t: Table): bytes
    requires IsOrder(order, t)
    decreases |order|
  {
    if order == [] then [] else Line(order[0], t[order[0]]) + Printed(order[1..], t - {order[0]})
  }

  /** Line by line, what is written. */
  lemma PrintedLines(order: seq<bytes>, t: Table)
    requires IsOrder(order, t)
    ensures order == [] ==> Printed(order, t) == []
    ensures order != [] ==>
              && order[0] in t && IsOrder(order[1..], t - {order[0]})
              && Printed(order, t) == order[0] + [32] + t[order[0]] + [10] + Printed(order[1..], t - {order[0]})
  {
  }

  // ---------- reading ----------

  /** The first position from `from` that is white space (`space`) or is not; the end when there is none. */
  function Scan(s: bytes, from: nat, space: bool): (k: nat)
    requires from <= |s|
    ensures from <= k <= |s|
    decreases |s| - from
  {
    if from == |s| || IsSpace(s[from]) == space then from else Scan(s, from + 1, space)
  }

  /** `iss >> domain >> ip`: the first two words of a line, the rest ignored. */
  function ParseLine(line: bytes): Option<(bytes, bytes)> {
    var a := Scan(line, 0, false);
    var b := Scan(line, a, true);
    var c := Scan(line, b, false);
    var d := Scan(line, c, true);
    if a == b || c == d then None else Some((line[a..b], line[c..d]))
  }

  /** The pairs of a whole file, or `None` where the program aborts: some line has fewer than two words. */
  function ParseHosts(s: bytes): Option<seq<(bytes, bytes)>>
    decreases |s|
  {
    if s == [] then Some([])
    else
      var nl := Find(s, NEWLINE, 0);
      match ParseLine(s[..nl])
      case None => None
      case Some(pair) => Prepend(pair, ParseHosts(if nl < |s| then s[nl + 1..] else []))
  }

  function Prepend<T>(x: T, o: Option<seq<T>>): Option<seq<T>> {
    match o
    case None => None
    case Some(xs) => Some([x] + xs)
  }

  /** What loading the pairs in order leaves on top of `acc`: the last of equal domains wins. */
  function Load(acc: Table, pairs: seq<(bytes, bytes)>): Table
    decreases |pairs|
  {
    if pairs == [] then acc else Load(acc[pairs[0].0 := pairs[0].1], pairs[1..])
  }

  function Pairs(order: seq<bytes>, t: Table): seq<(bytes, bytes)>
    requires IsOrder(order, t)
    decreases |order|
  {
    if order == [] then [] else [(order[0], t[order[0]])] + Pairs(order[1..], t - {order[0]})
  }

  /** How many of `pairs` reach up to and include the last that has `d`; 0 when none does. */
  function LastPair(pairs: seq<(bytes, bytes)>, d: bytes): (m: nat)
    ensures m <= |pairs| && (m > 0 ==> pairs[m - 1].0 == d) && forall i :: m <= i < |pairs| ==> pairs[i].0 != d
  {
    if pairs == [] || pairs[|pairs| - 1].0 == d then |pairs| else LastPair(pairs[..|pairs| - 1], d)
  }

  /** Loading in order: a domain gets the address of the last pair that has it, or keeps what it had. */
  lemma {:induction false} LoadMeans(acc: Table, pairs: seq<(bytes, bytes)>, m: nat, d: bytes)
    requires m <= |pairs| && (m > 0 ==> pairs[m - 1].0 == d) && forall i :: m <= i < |pairs| ==> pairs[i].0 != d
    ensures d in Load(acc, pairs) <==> m > 0 || d in acc
    ensures d in Load(acc, pairs) ==> Load(acc, pairs)[d] == if m > 0 then pairs[m - 1].1 else acc[d]
    decreases |pairs|
  {
    if pairs != [] {
      var acc' := acc[pairs[0].0 := pairs[0].1];
      LoadMeans(acc', pairs[1..], if m > 0 then m - 1 else 0, d);
    }
  }

  /** From an empty table: exactly the pairs' domains, each with the address of its last pair. */
  lemma LoadedMeans(pairs: seq<(bytes, bytes)>, t: Table)
    requires t == Load(map[], pairs)
    ensures forall d :: d in t <==> LastPair(pairs, d) > 0
    ensures forall d :: d in t ==> t[d] == pairs[LastPair(pairs, d) - 1].1
  {
    forall d: bytes ensures d in t <==> LastPair(pairs, d) > 0 {
      LoadMeans(map[], pairs, LastPair(pairs, d), d);
    }
    forall d | d in t ensures t[d] == pairs[LastPair(pairs, d) - 1].1 {
      LoadMeans(map[], pairs, LastPair(pairs, d), d);
    }
  }

  /** A file is what its first line says, and then the rest; `None` once a line has fewer than two words. */
  lemma FileIsLines(line: bytes, rest: bytes)
    requires 10 !in line
    ensures ParseHosts([]) == Some([])
    ensures line != [] ==> ParseHosts(line) == if ParseLine(line).Some? then Some([ParseLine(line).value]) else None
    ensures ParseHosts(line + [10] + rest)
         == match ParseLine(line)
            case None => None
            case Some(pair) => if ParseHosts(rest).Some? then Some([pair] + ParseHosts(rest).value) else None
  {
    var s := line + [10] + rest;
    FindIs(s, NEWLINE, 0, |line|);
    FindFirst(line, NEWLINE, 0);
    assert s[..|line|] == line && s[|line| + 1..] == rest && line[..|line|] == line;
    if ParseLine(line).Some? {
      assert [ParseLine(line).value] + [] == [ParseLine(line).value];
    }
  }

  /** A line is its first two words if any white space leads, some parts them, and the rest is cut off by some. */
  lemma LineIsWords(a: bytes, x: bytes, b: bytes, y: bytes, rest: bytes)
    requires x != [] && b != [] && y != []
    requires forall c :: c in a || c in b ==> c == 32 || 9 <= c <= 13
    requires forall c :: c in x || c in y ==> c != 32 && !(9 <= c <= 13)
    requires rest == [] || rest[0] == 32 || 9 <= rest[0] <= 13
    ensures ParseLine(a + x + b + y + rest) == Some((x, y))
  {
    var line := a + x + b + y + rest;
    var i, j := |a|, |a| + |x|;
    var k, l := j + |b|, j + |b| + |y|;
    assert line[i..j] == x && line[k..l] == y;
    SpanIs(line, a, 0, true);
    SpanIs(line, x, i, false);
    SpanIs(line, b, j, true);
    SpanIs(line, y, k, false);
    ScanIs(line, 0, i, false);
    ScanIs(line, i, j, true);
    ScanIs(line, j, k, false);
    ScanIs(line, k, l, true);
  }

  /** A line of one word at most, with white space around it or not, has no pair. */
  lemma LineIsShort(a: bytes, x: bytes, b: bytes)
    requires forall c :: c in a || c in b ==> c == 32 || 9 <= c <= 13
    requires forall c :: c in x ==> c != 32 && !(9 <= c <= 13)
    ensures ParseLine(a + x + b) == None
  {
    var line := a + x + b;
    var i, j := |a|, |a| + |x|;
    assert line[i..j] == x && line[j..|line|] == b;
    SpanIs(line, a, 0, true);
    SpanIs(line, x, i, false);
    SpanIs(line, b, j, true);
    if x == [] {
      ScanIs(line, 0, |line|, false);
    } else {
      ScanIs(line, 0, i, false);
      ScanIs(line, i, j, true);
      ScanIs(line, j, |line|, false);
    }
  }

  /** The part of `line` from `at` on is `part`, all of it white space or none. */
  lemma SpanIs(line: bytes, part: bytes, at: nat, space: bool)
    requires at + |part| <= |line| && line[at..at + |part|] == part
    requires forall c :: c in part ==> IsSpace(c) == space
    ensures forall j :: at <= j < at + |part| ==> IsSpace(line[j]) == space
  {
    forall j | at <= j < at + |part| ensures IsSpace(line[j]) == space {
      assert line[j] == part[j - at] && part[j - at] in part;
    }
  }

  // ---------- reading back what was written ----------

  lemma {:induction false} ScanIs(s: bytes, from: nat, k: nat, space: bool)
    requires from <= k <= |s| && (k < |s| ==> IsSpace(s[k]) == space)
    requires forall j :: from <= j < k ==> IsSpace(s[j]) != space
    ensures Scan(s, from, space) == k
    decreases k - from
  {
    if from < k {
      ScanIs(s, from + 1, k, space);
    }
  }

  lemma LineParses(domain: bytes, ip: bytes)
    requires Word(domain) && Word(ip)
    ensures ParseLine(domain + [SPACE] + ip) == Some((domain, ip))
  {
    var s, n := domain + [SPACE] + ip, |domain|;
    assert forall j :: n < j < |s| ==> s[j] == ip[j - n - 1];
    ScanIs(s, 0, 0, false);
    ScanIs(s, 0, n, true);
    ScanIs(s, n, n + 1, false);
    ScanIs(s, n + 1, |s|, true);
    assert s[0..n] == domain && s[n + 1..|s|] == ip;
  }

  lemma LineIsNext(domain: bytes, ip: bytes, rest: bytes)
    requires Word(domain) && Word(ip)
    ensures ParseHosts(Line(domain, ip) + rest) == Prepend((domain, ip), ParseHosts(rest))
  {
    var s, nl := Line(domain, ip) + rest, |domain| + 1 + |ip|;
    assert s[..nl] == domain + [SPACE] + ip;
    forall j | 0 <= j < nl ensures s[j] != NEWLINE {
      assert s[j] == s[..nl][j];
    }
    FindIs(s, NEWLINE, 0, nl);
    LineParses(domain, ip);
    assert s[nl + 1..] == rest;
  }

  lemma {:induction false} PrintedParses(order: seq<bytes>, t: Table)
    requires IsOrder(order, t) && CleanTable(t)
    ensures ParseHosts(Printed(order, t)) == Some(Pairs(order, t))
    decreases |order|
  {
    if order != [] {
      PrintedParses(order[1..], t - {order[0]});
      LineIsNext(order[0], t[order[0]], Printed(order[1..], t - {order[0]}));
    }
  }

  lemma {:induction false} PairsLoad(order: seq<bytes>, t: Table, acc: Table)
    requires IsOrder(order, t)
    ensures Load(acc, Pairs(order, t)) == acc + t
    decreases |order|
  {
    if order != [] {
      var d := order[0];
      PairsLoad(order[1..], t - {d}, acc[d := t[d]]);
      assert Pairs(order, t)[1..] == Pairs(order[1..], t - {d});
      MapShift(acc, t, d);
    }
  }

  /** A file that, parsed and loaded, gives the table. */
  ghost predicate ReloadsTo(file: bytes, t: Table) {
    ParseHosts(file).Some? && Load(map[], ParseHosts(file).value) == t
  }

  /** Whatever order the hash table is walked in, reading back what was written rebuilds it. */
  lemma WrittenFileReloads(order: seq<bytes>, t: Table)
    requires IsOrder(order, t) && CleanTable(t)
    ensures ReloadsTo(Printed(order, t), t)
  {
    PrintedParses(order, t);
    PairsLoad(order, t, map[]);
    assert map[] + t == t;
  }

  // ---------- the reader ----------

  /** Read two words off a line the way the string stream does. */
  method ReadPair(line: bytes) returns (pair: Option<(bytes, bytes)>)
    ensures pair == ParseLine(line)
  {
    var a := SkipWhile(line, 0, false);
    var b := SkipWhile(line, a, true);
    var c := SkipWhile(line, b, false);
    var d := SkipWhile(line, c, true);
    if a == b || c == d {
      return None;
    }
    return Some((line[a..b], line[c..d]));
  }

  method SkipWhile(line: bytes, from: nat, space: bool) returns (k: nat)
    requires from <= |line|
    ensures k == Scan(line, from, space)
  {
    k := from;
    while k < |line| && IsSpace(line[k]) != space
      invariant from <= k <= |line| && Scan(line, from, space) == Scan(line, k, space)
    {
      k := k + 1;
    }
  }

  /** Take one line off the file and read its pair. */
  method NextLine(file: bytes) returns (pair: Option<(bytes, bytes)>, rest: bytes)
    requires file != []
    ensures |rest| < |file|
    ensures ParseHosts(file) == if pair.None? then None else Prepend(pair.value, ParseHosts(rest))
  {
    var nl := Find(file, NEWLINE, 0);
    pair := ReadPair(file[..nl]);
    rest := if nl < |file| then file[nl + 1..] else [];
  }

  /** The line loop; `None` is the program's abort on a line without two words. */
  method ParseHostsFile(contents: bytes) returns (translations: Option<seq<(bytes, bytes)>>)
    ensures translations == ParseHosts(contents)
  {
    var pairs: seq<(bytes, bytes)> := [];
    var rest := contents;
    AppendNothing(ParseHosts(contents));
    while rest != []
      invariant ParseHosts(contents) == Append(pairs, ParseHosts(rest))
      decreases |rest|
    {
      var pair, next := NextLine(rest);
      if pair == None {
        return None;
      }
      AppendPrepend(pairs, pair.value, ParseHosts(next));
      pairs := pairs + [pair.value];
      rest := next;
    }
    assert pairs + [] == pairs;
    return Some(pairs);
  }

  ghost function Append<T>(xs: seq<T>, o: Option<seq<T>>): Option<seq<T>> {
    match o
    case None => None
    case Some(ys) => Some(xs + ys)
  }

  lemma AppendNothing<T>(o: Option<seq<T>>)
    ensures Append([], o) == o
  {
    if o.Some? {
      assert [] + o.value == o.value;
    }
  }

  lemma AppendPrepend<T>(xs: seq<T>, x: T, o: Option<seq<T>>)
    ensures Append(xs, Prepend(x, o)) == Append(xs + [x], o)
  {
    if o.Some? {
      assert xs + ([x] + o.value) == xs + [x] + o.value;
    }
  }
}
