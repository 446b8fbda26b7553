// Byte strings and the sequence facts every other module builds on.
module Bytes {
  newtype byte = x: int | 0 <= x < 256

  const NUL: byte := 0
  const NEWLINE: byte := 10

  // size_t arithmetic wraps at 2^64; a loff_t position and every kernel block stay below 2^63.
  const SIZE_T_MODULUS: nat := 0x1_0000_0000_0000_0000
  const LOFF_T_LIMIT: nat := 0x8000_0000_0000_0000

  datatype Option<+T> = None | Some(value: T)

  function Min(a: nat, b: nat): nat {
    if a <= b then a else b
  }

  predicate EndsLine(s: seq<byte>) {
    s != [] && s[|s| - 1] == NEWLINE
  }

  ghost predicate NulFree(s: seq<byte>) {
    forall i :: 0 <= i < |s| ==> s[i] != NUL
  }

  // ---- concatenation ----

  function Concat(ss: seq<seq<byte>>): seq<byte> {
    if ss == [] then [] else ss[0] + Concat(ss[1..])
  }

  lemma {:induction false} ConcatAppend(a: seq<seq<byte>>, b: seq<seq<byte>>)
    ensures Concat(a + b) == Concat(a) + Concat(b)
  {
    if a == [] {
      assert a + b == b;
    } else {
      assert (a + b)[1..] == a[1..] + b;
      ConcatAppend(a[1..], b);
    }
  }

  lemma ConcatOne(x: seq<byte>)
    ensures Concat([x]) == x
  {
    assert [x][1..] == [];
  }

  lemma ConcatSnoc(ss: seq<seq<byte>>, x: seq<byte>)
    ensures Concat(ss + [x]) == Concat(ss) + x
  {
    ConcatAppend(ss, [x]);
    ConcatOne(x);
  }

  lemma ConcatSplit(ss: seq<seq<byte>>, k: nat)
    requires k <= |ss|
    ensures Concat(ss) == Concat(ss[..k]) + Concat(ss[k..])
  {
    assert ss == ss[..k] + ss[k..];
    ConcatAppend(ss[..k], ss[k..]);
  }

  lemma ConcatNext(ss: seq<seq<byte>>, i: nat)
    requires i < |ss|
    ensures |Concat(ss[..i + 1])| == |Concat(ss[..i])| + |ss[i]| <= |Concat(ss)|
  {
    assert ss[..i + 1] == ss[..i] + [ss[i]];
    ConcatSnoc(ss[..i], ss[i]);
    ConcatSplit(ss, i + 1);
  }

  // ---- where an element starts inside the concatenation ----

  /** Total length of the first k strings. */
  function Offset(ss: seq<seq<byte>>, k: nat): nat
    requires k <= |ss|
  {
    if k == 0 then 0 else Offset(ss, k - 1) + |ss[k - 1]|
  }

  lemma {:induction false} OffsetIsLength(ss: seq<seq<byte>>, k: nat)
    requires k <= |ss|
    ensures Offset(ss, k) == |Concat(ss[..k])|
  {
    if k > 0 {
      OffsetIsLength(ss, k - 1);
      assert ss[..k] == ss[..k - 1] + [ss[k - 1]];
      ConcatSnoc(ss[..k - 1], ss[k - 1]);
    }
  }

  /** Byte `off` of string k sits at position Offset(k) + off of the concatenation. */
  lemma ConcatAt(ss: seq<seq<byte>>, k: nat, off: nat)
    requires k < |ss| && off < |ss[k]|
    ensures Offset(ss, k) + off < |Concat(ss)|
    ensures Concat(ss)[Offset(ss, k) + off] == ss[k][off]
  {
    OffsetIsLength(ss, k);
    ConcatSplit(ss, k);
    assert ss[k..][0] == ss[k];
  }

  lemma OffsetTail(ss: seq<seq<byte>>, k: nat)
    requires k <= |ss|
    ensures Offset(ss, k) <= |Concat(ss)|
    ensures Concat(ss)[Offset(ss, k)..] == Concat(ss[k..])
  {
    OffsetIsLength(ss, k);
    ConcatSplit(ss, k);
  }

  // ---- the bounded suffix ----

  function LastN<T>(s: seq<T>, n: nat): seq<T> {
    if |s| <= n then s else s[|s| - n..]
  }

  /** Bounded push: append, and drop the head when the queue already holds n elements. */
  function Push<T>(q: seq<T>, x: T, n: nat): seq<T>
    requires n > 0
  {
    if |q| < n then q + [x] else q[1..] + [x]
  }

  lemma LastNPush<T>(s: seq<T>, x: T, n: nat)
    requires n > 0
    ensures LastN(s + [x], n) == Push(LastN(s, n), x, n)
  {
  }
}
