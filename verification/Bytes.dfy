/** Machine integers, C strings and the byte searches shared by every codec. */
module Bytes {

  type byte = b: int | 0 <= b < 0x100
  type word = w: int | 0 <= w < 0x1_0000
  type bytes = seq<byte>

  datatype Option<+T> = None | Some(value: T)

  const NUL: byte := 0
  const SPACE: byte := 32

  /** Non-empty, and free of both the separator and the string terminator. */
  predicate Plain(s: bytes) {
    s != [] && NUL !in s && SPACE !in s
  }

  /** The first position at or after `from` that holds `b`; `|s|` when there is none. */
  function Find(s: bytes, b: byte, from: nat): (k: nat)
    requires from <= |s|
    ensures from <= k <= |s|
    decreases |s| - from
  {
    if from == |s| || s[from] == b then from else Find(s, b, from + 1)
  }

  /** What makes it the first. */
  lemma {:induction false} FindFirst(s: bytes, b: byte, from: nat)
    requires from <= |s|
    ensures Find(s, b, from) < |s| ==> s[Find(s, b, from)] == b
    ensures forall j :: from <= j < Find(s, b, from) ==> s[j] != b
    decreases |s| - from
  {
    if from < |s| && s[from] != b {
      FindFirst(s, b, from + 1);
    }
  }

  /** A position that holds `b`, with none between `from` and it, is what `Find` returns. */
  lemma FindIs(s: bytes, b: byte, from: nat, k: nat)
    requires from <= k < |s| && s[k] == b
    requires forall j :: from <= j < k ==> s[j] != b
    ensures Find(s, b, from) == k
  {
    FindFirst(s, b, from);
  }

  lemma FindWithin(s: bytes, b: byte, from: nat, k: nat)
    requires from <= k < |s| && s[k] == b
    ensures Find(s, b, from) <= k
  {
    FindFirst(s, b, from);
  }

  /** What lies before the start makes no difference to a search. */
  lemma {:induction false} FindAgree(s: bytes, t: bytes, b: byte, from: nat)
    requires from <= |s| == |t| && s[from..] == t[from..]
    ensures Find(s, b, from) == Find(t, b, from)
    decreases |s| - from
  {
    if from < |s| {
      assert s[from] == s[from..][0] && t[from] == t[from..][0];
      assert s[from + 1..] == s[from..][1..] && t[from + 1..] == t[from..][1..];
      FindAgree(s, t, b, from + 1);
    }
  }

  /** What follows makes no difference to a search that ends before it. */
  lemma FindExtend(s: bytes, junk: bytes, b: byte, from: nat)
    requires from <= |s| && Find(s, b, from) < |s|
    ensures Find(s + junk, b, from) == Find(s, b, from)
  {
    FindFirst(s, b, from);
    FindIs(s + junk, b, from, Find(s, b, from));
  }

  /** The C string that starts at `from`. */
  function CString(s: bytes, from: nat): bytes
    requires from <= |s|
  {
    s[from..Find(s, NUL, from)]
  }
}
