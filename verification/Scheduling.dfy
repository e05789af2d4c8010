/** How the router spreads requests over a fixed list of servers. */
module Scheduling {
  import opened Bytes

  datatype Mode = OVERLOAD | ROUND_ROBIN

  /** The index a request goes to, with `n` servers and the counter at `c`. */
  function Choice(mode: Mode, n: byte, c: byte): (i: nat)
    requires n > 0
    ensures i < n
  {
    match mode
    case ROUND_ROBIN => c % n
    case OVERLOAD => if c >= n then 0 else c
  }

  /** The counter after that request, in its 8 bits. */
  function Next(mode: Mode, n: byte, c: byte): byte
    requires n > 0
  {
    match mode
    case ROUND_ROBIN => (1 + c) % n
    case OVERLOAD => if c >= n then ((1 + c) % (n * 2)) % 0x100 else c + 1
  }

  /** How many of `k` consecutive requests, the counter starting at `c`, go to index `j`. */
  function Hits(mode: Mode, n: byte, c: byte, k: nat, j: nat): nat
    requires n > 0
    decreases k
  {
    if k == 0 then 0
    else (if Choice(mode, n, c) == j then 1 else 0) + Hits(mode, n, Next(mode, n, c), k - 1, j)
  }

  /** The counter after `k` requests. */
  function Counter(mode: Mode, n: byte, c: byte, k: nat): byte
    requires n > 0
    decreases k
  {
    if k == 0 then c else Counter(mode, n, Next(mode, n, c), k - 1)
  }

  lemma {:induction false} HitsSplit(mode: Mode, n: byte, c: byte, a: nat, b: nat, j: nat)
    requires n > 0
    ensures Hits(mode, n, c, a + b, j) == Hits(mode, n, c, a, j) + Hits(mode, n, Counter(mode, n, c, a), b, j)
    decreases a
  {
    if a > 0 {
      HitsSplit(mode, n, Next(mode, n, c), a - 1, b, j);
    }
  }

  lemma ModUnique(a: nat, n: nat, q: nat, r: nat)
    requires 0 <= r < n && a == q * n + r
    ensures a % n == r && a / n == q
  {
    MulMonotone(a / n + 1, q, n);
    MulMonotone(q + 1, a / n, n);
  }

  lemma MulMonotone(x: int, y: int, n: nat)
    ensures x <= y ==> x * n <= y * n
    ensures (x - 1) * n == x * n - n
  {
    if x <= y {
      assert y * n - x * n == (y - x) * n;
    }
  }

  /** How long the pattern is: the 8-bit counter cuts OVERLOAD's short above 128 servers. */
  function Period(mode: Mode, n: byte): nat {
    match mode
    case ROUND_ROBIN => n
    case OVERLOAD => if n <= 128 then 2 * n else 0x100
  }

  lemma NextWithinPeriod(mode: Mode, n: byte, c: byte)
    requires n > 0 && c < Period(mode, n)
    ensures Next(mode, n, c) == if c + 1 == Period(mode, n) then 0 else c + 1
  {
    var m: nat := if mode == OVERLOAD then n * 2 else n;
    if c + 1 == m {
      ModUnique(c + 1, m, 1, 0);
    } else {
      ModUnique(c + 1, m, 0, c + 1);
    }
  }

  /**
   * From any counter value, wherever an earlier list left it, the counter after a request is one more,
   * modulo the length of the pattern, and so inside the pattern.
   */
  lemma CounterSettles(mode: Mode, n: byte, c: byte)
    requires n > 0
    ensures Next(mode, n, c) == (c + 1) % if mode == ROUND_ROBIN then n else if n <= 128 then 2 * n else 256
    ensures Next(mode, n, c) < Period(mode, n)
  {
    if mode == OVERLOAD {
      var m: nat := if n <= 128 then 2 * n else 256;
      if c < n {
        if c + 1 < m {
          ModUnique(c + 1, m, 0, c + 1);
        }
      } else if n > 128 {
        ModUnique(c + 1, n * 2, 0, c + 1);
      }
    }
  }

  /**
   * OVERLOAD sends a request to a server other than the first only when the counter is that server's
   * index: whoever finds the counter at or past the count, settled or not, goes to the first.
   */
  lemma OverloadPicks(n: byte, c: byte, j: nat)
    requires n > 0
    ensures Hits(OVERLOAD, n, c, 1, j) == if j == (if c < n then c else 0) then 1 else 0
    ensures Choice(OVERLOAD, n, c) == if c < n then c else 0
  {
    assert Hits(OVERLOAD, n, Next(OVERLOAD, n, c), 0, j) == 0;
  }

  /** From `c` to the end of the period the counter just counts up. */
  lemma {:induction false} CountsUp(mode: Mode, n: byte, c: byte, a: nat)
    requires n > 0 && c < Period(mode, n) && c + a <= Period(mode, n)
    ensures Counter(mode, n, c, a) == if c + a == Period(mode, n) then 0 else c + a
    decreases a
  {
    if a > 0 {
      NextWithinPeriod(mode, n, c);
      if c + 1 < Period(mode, n) {
        CountsUp(mode, n, c + 1, a - 1);
      }
    }
  }

  /** The requests from `c` to the end of the period that go to `j`. */
  lemma {:induction false} HitsToEnd(mode: Mode, n: byte, c: byte, j: nat)
    requires n > 0 && c < Period(mode, n) && j < n
    ensures Hits(mode, n, c, Period(mode, n) - c, j)
         == (if c <= j then 1 else 0)
            + (if mode == OVERLOAD && j == 0 then Period(mode, n) - (if c > n then c else n) else 0)
    decreases Period(mode, n) - c
  {
    var p := Period(mode, n);
    NextWithinPeriod(mode, n, c);
    if mode == ROUND_ROBIN {
      ModUnique(c, n, 0, c);
    }
    assert Choice(mode, n, c) == if c >= n then 0 else c;
    assert Hits(mode, n, c, p - c, j)
        == (if Choice(mode, n, c) == j then 1 else 0) + Hits(mode, n, Next(mode, n, c), p - c - 1, j);
    if c + 1 < p {
      HitsToEnd(mode, n, c + 1, j);
    }
  }

  /** The share of index `j` in one period, wherever in it the window starts. */
  lemma HitsPerPeriod(mode: Mode, n: byte, c: byte, j: nat)
    requires n > 0 && c < Period(mode, n) && j < n
    ensures Counter(mode, n, c, Period(mode, n)) == c
    ensures Hits(mode, n, c, Period(mode, n), j)
         == if mode == OVERLOAD && j == 0 then Period(mode, n) - n + 1 else 1
  {
    var p := Period(mode, n);
    CountsUp(mode, n, c, p - c);
    CountsUp(mode, n, 0, c);
    HitsSplit(mode, n, c, p - c, c, j);
    HitsSplit(mode, n, 0, c, p - c, j);
    HitsToEnd(mode, n, 0, j);
    CounterSplit(mode, n, c, p - c, c);
  }

  lemma {:induction false} CounterSplit(mode: Mode, n: byte, c: byte, a: nat, b: nat)
    requires n > 0
    ensures Counter(mode, n, c, a + b) == Counter(mode, n, Counter(mode, n, c, a), b)
    decreases a
  {
    if a > 0 {
      CounterSplit(mode, n, Next(mode, n, c), a - 1, b);
    }
  }

  /** Above 128 servers, 2n requests from counter 0 reach the second server twice. */
  lemma WindowHitsTwice(n: byte)
    requires n > 128
    ensures Hits(OVERLOAD, n, 0, 2 * n, 1) >= 2
  {
    HitsPerPeriod(OVERLOAD, n, 0, 1);
    HitsSplit(OVERLOAD, n, 0, 0x100, 2 * n - 0x100, 1);
    HitsSplit(OVERLOAD, n, 0, 2, 2 * n - 0x102, 1);
  }

  /**
   * OVERLOAD: with n servers, every window of 2n consecutive requests sends n + 1 of them to the first
   * server and one to each other, for n up to 128 and for no larger n. There the 8-bit counter wraps, the
   * pattern has length 256, and the first server gets what a window of 256 leaves from the others' one each.
   */
  lemma OverloadShare(n: byte)
    requires n > 0
    ensures n <= 128
            <==> forall c: byte, j: nat :: c < (if n <= 128 then 2 * n else 256) && j < n ==>
                   Hits(OVERLOAD, n, c, 2 * n, j) == if j == 0 then n + 1 else 1
    ensures n > 128 ==> forall c: byte, j: nat :: j < n ==>
              Hits(OVERLOAD, n, c, 256, j) == if j == 0 then 256 - n + 1 else 1
  {
    if n <= 128 {
      forall c: byte, j: nat | c < 2 * n && j < n
        ensures Hits(OVERLOAD, n, c, 2 * n, j) == if j == 0 then n + 1 else 1
      {
        HitsPerPeriod(OVERLOAD, n, c, j);
      }
    } else {
      forall c: byte, j: nat | j < n
        ensures Hits(OVERLOAD, n, c, 256, j) == if j == 0 then 256 - n + 1 else 1
      {
        HitsPerPeriod(OVERLOAD, n, c, j);
      }
      WindowHitsTwice(n);
    }
  }

  /** A counter left past the pattern by a longer list costs one request, which goes to the first server. */
  lemma UnsettledShare(n: byte, c: byte, j: nat)
    requires 0 < n <= 128 && c >= 2 * n && j < n
    ensures Hits(OVERLOAD, n, c, 1 + 2 * n, j) == if j == 0 then n + 2 else 1
  {
    CounterSettles(OVERLOAD, n, c);
    OverloadPicks(n, c, j);
    HitsPerPeriod(OVERLOAD, n, Next(OVERLOAD, n, c), j);
    assert Hits(OVERLOAD, n, c, 1 + 2 * n, j)
        == (if Choice(OVERLOAD, n, c) == j then 1 else 0) + Hits(OVERLOAD, n, Next(OVERLOAD, n, c), 2 * n, j);
  }

  /** `h` is k/n rounded down or up. */
  ghost predicate Even(h: int, k: int, n: int) {
    (h - 1) * n < k < (h + 1) * n
  }

  lemma {:induction false} RoundRobinEven(n: byte, c: byte, k: nat, j: nat)
    requires 0 < n && c < n && j < n
    ensures Even(Hits(ROUND_ROBIN, n, c, k, j), k, n)
  {
    HitsPerPeriod(ROUND_ROBIN, n, c, j);
    var h := Hits(ROUND_ROBIN, n, c, k, j);
    if k < n {
      HitsSplit(ROUND_ROBIN, n, c, k, n - k, j);
      assert h == 0 || h == 1;
    } else {
      HitsSplit(ROUND_ROBIN, n, c, n, k - n, j);
      RoundRobinEven(n, c, k - n, j);
      assert (h - 1 + 1) * n == (h - 1) * n + n && (h + 1) * n == h * n + n && (h - 2 + 1) * n == (h - 2) * n + n;
    }
  }

  lemma EvenIsRounded(h: nat, k: nat, n: nat)
    requires n > 0 && Even(h, k, n)
    ensures k / n <= h <= (k + n - 1) / n
  {
    var q, q' := k / n, (k + n - 1) / n;
    assert k == q * n + k % n && k + n - 1 == q' * n + (k + n - 1) % n;
    MulMonotone(h + 1, q, n);
    MulMonotone(q' + 1, h, n);
    MulMonotone(h, h, n);
  }

  /** ROUND_ROBIN: from any counter, k requests give each of n servers k/n rounded down or up. */
  lemma RoundRobinFair(n: byte, c: byte, k: nat, j: nat)
    requires n > 0 && j < n
    ensures k / n <= Hits(ROUND_ROBIN, n, c, k, j) <= (k + n - 1) / n
  {
    WrapCounter(n, c);
    assert Hits(ROUND_ROBIN, n, c, k, j) == Hits(ROUND_ROBIN, n, c % n, k, j);
    RoundRobinEven(n, c % n, k, j);
    EvenIsRounded(Hits(ROUND_ROBIN, n, c, k, j), k, n);
  }

  /** Only the counter's remainder matters. */
  lemma WrapCounter(n: byte, c: byte)
    requires n > 0
    ensures Next(ROUND_ROBIN, n, c) == Next(ROUND_ROBIN, n, c % n)
    ensures Choice(ROUND_ROBIN, n, c) == Choice(ROUND_ROBIN, n, c % n)
  {
    var r, q := c % n, c / n;
    assert c == q * n + r;
    MulMonotone(q + 1, q, n);
    if r + 1 == n {
      ModUnique(c + 1, n, q + 1, 0);
    } else {
      ModUnique(c + 1, n, q, r + 1);
    }
    if r + 1 == n {
      ModUnique(r + 1, n, 1, 0);
    } else {
      ModUnique(r + 1, n, 0, r + 1);
    }
    ModUnique(r, n, 0, r);
  }
}
