/** Byte strings, their default order and the shortest separating prefix
    (db4/btree/bt_compare.c). */
module Bytes {

  type byte = x: int | 0 <= x < 256

  /** Length of the longest common prefix. */
  function Lcp(a: seq<byte>, b: seq<byte>): (p: nat)
    ensures p <= |a| && p <= |b| && a[..p] == b[..p]
    ensures p < |a| && p < |b| ==> a[p] != b[p]
  {
    if a != [] && b != [] && a[0] == b[0] then
      var p := 1 + Lcp(a[1..], b[1..]);
      assert a[..p] == [a[0]] + a[1..][..p - 1] && b[..p] == [b[0]] + b[1..][..p - 1];
      p
    else 0
  }

  /** The order of bt_compare: bytes first, then the shorter string first. */
  function Compare(a: seq<byte>, b: seq<byte>): int {
    var p := Lcp(a, b);
    if p < |a| && p < |b| then a[p] - b[p] else |a| - |b|
  }

  /** Dictionary order, defined without the common prefix. */
  predicate DictLess(a: seq<byte>, b: seq<byte>) {
    b != [] && (a == [] || a[0] < b[0] || (a[0] == b[0] && DictLess(a[1..], b[1..])))
  }

  lemma LcpUnique(a: seq<byte>, b: seq<byte>, p: nat)
    requires p <= |a| && p <= |b| && a[..p] == b[..p]
    requires p < |a| && p < |b| ==> a[p] != b[p]
    ensures p == Lcp(a, b)
  {
    var q := Lcp(a, b);
    assert forall k :: 0 <= k < p ==> a[k] == a[..p][k] && b[k] == b[..p][k];
    assert forall k :: 0 <= k < q ==> a[k] == a[..q][k] && b[k] == b[..q][k];
  }

  lemma LcpSymmetric(a: seq<byte>, b: seq<byte>)
    ensures Lcp(a, b) == Lcp(b, a)
  {
    LcpUnique(b, a, Lcp(a, b));
  }

  /** Any shared prefix is no longer than the longest one. */
  lemma LcpLongest(a: seq<byte>, b: seq<byte>, p: nat)
    requires p <= |a| && p <= |b| && a[..p] == b[..p]
    ensures p <= Lcp(a, b)
  {
    assert forall k :: 0 <= k < p ==> a[k] == a[..p][k] && b[k] == b[..p][k];
  }

  /** The ultrametric law behind prefix coding: dropping the middle of three strings
      never leaves less in common than the weaker of the two links had. */
  lemma LcpUltrametric(a: seq<byte>, b: seq<byte>, c: seq<byte>)
    ensures Lcp(a, c) >= Lcp(a, b) || Lcp(a, c) >= Lcp(b, c)
  {
    var p, q := Lcp(a, b), Lcp(b, c);
    var m := if p < q then p else q;
    assert a[..m] == a[..p][..m] == b[..p][..m] == b[..m];
    assert c[..m] == c[..q][..m] == b[..q][..m] == b[..m];
    LcpLongest(a, c, m);
  }

  /** bt_compare's result has the sign of dictionary order. */
  lemma {:induction false} CompareIsDictionaryOrder(a: seq<byte>, b: seq<byte>)
    ensures Compare(a, b) < 0 <==> DictLess(a, b)
    ensures Compare(a, b) == 0 <==> a == b
    ensures Compare(a, b) == -Compare(b, a)
  {
    LcpSymmetric(a, b);
    if a != [] && b != [] && a[0] == b[0] {
      CompareIsDictionaryOrder(a[1..], b[1..]);
      assert a == [a[0]] + a[1..] && b == [b[0]] + b[1..];
      assert Compare(a, b) == Compare(a[1..], b[1..]);
    }
  }

  lemma {:induction false} DictLessTransitive(a: seq<byte>, b: seq<byte>, c: seq<byte>)
    requires DictLess(a, b) && DictLess(b, c)
    ensures DictLess(a, c)
  {
    if a != [] && a[0] == b[0] && b[0] == c[0] {
      DictLessTransitive(a[1..], b[1..], c[1..]);
    }
  }

  /** bt_compare is a total order: weak chains compose. */
  lemma CompareTransitive(a: seq<byte>, b: seq<byte>, c: seq<byte>)
    requires Compare(a, b) <= 0 && Compare(b, c) <= 0
    ensures Compare(a, c) <= 0
    ensures Compare(a, b) < 0 || Compare(b, c) < 0 ==> Compare(a, c) < 0
  {
    CompareIsDictionaryOrder(a, b);
    CompareIsDictionaryOrder(b, c);
    CompareIsDictionaryOrder(a, c);
    if a != b && b != c {
      DictLessTransitive(a, b, c);
    }
  }

  /** __bam_defcmp. */
  method DefCmp(a: seq<byte>, b: seq<byte>) returns (cmp: int)
    ensures cmp == Compare(a, b)
    ensures cmp == 0 <==> a == b
    ensures cmp < 0 <==> DictLess(a, b)
  {
    CompareIsDictionaryOrder(a, b);
    var len := if |a| > |b| then |b| else |a|;
    var i := 0;
    while i < len
      invariant 0 <= i <= len && a[..i] == b[..i]
    {
      if a[i] != b[i] {
        LcpUnique(a, b, i);
        cmp := (a[i] as int) - (b[i] as int);
        return;
      }
      i := i + 1;
    }
    LcpUnique(a, b, len);
    return |a| - |b|;
  }

  /** The number of leading bytes of b that tell it apart from a. */
  function SeparatorLength(a: seq<byte>, b: seq<byte>): nat {
    var p := Lcp(a, b);
    if p < |a| && p < |b| then p + 1
    else if |a| < |b| then |a| + 1
    else if |b| < |a| then |b| + 1
    else |b|
  }

  /** __bam_defpfx: for a below b, the shortest prefix of b that is above a; such a
      prefix never passes b itself. */
  method DefPfx(a: seq<byte>, b: seq<byte>) returns (n: nat)
    ensures n == SeparatorLength(a, b)
    ensures Compare(a, b) < 0 ==>
              n <= |b| && Compare(a, b[..n]) < 0 && Compare(b[..n], b) <= 0
    ensures Compare(a, b) < 0 ==> forall k :: 0 <= k < n ==> Compare(a, b[..k]) >= 0
    ensures a == b ==> n == |b|
  {
    if Compare(a, b) < 0 {
      SeparatorSeparates(a, b);
    }
    var cnt := 1;
    var len := if |a| > |b| then |b| else |a|;
    var i := 0;
    while i < len
      invariant 0 <= i <= len && cnt == i + 1 && a[..i] == b[..i]
    {
      if a[i] != b[i] {
        LcpUnique(a, b, i);
        return cnt;
      }
      i, cnt := i + 1, cnt + 1;
    }
    LcpUnique(a, b, len);
    if |a| < |b| {
      return |a| + 1;
    }
    if |b| < |a| {
      return |b| + 1;
    }
    return |b|;
  }

  /** Cutting the promoted key to the separator length keeps it strictly above the left
      key and not above the right one, and no shorter cut does. */
  lemma SeparatorSeparates(a: seq<byte>, b: seq<byte>)
    requires Compare(a, b) < 0
    ensures 0 < SeparatorLength(a, b) <= |b|
    ensures Compare(a, b[..SeparatorLength(a, b)]) < 0
    ensures Compare(b[..SeparatorLength(a, b)], b) <= 0
    ensures forall k :: 0 <= k < SeparatorLength(a, b) ==> Compare(a, b[..k]) >= 0
  {
    var p, n := Lcp(a, b), SeparatorLength(a, b);
    assert n == p + 1 <= |b|;
    assert b[..n][..p] == b[..p];
    LcpUnique(a, b[..n], p);
    LcpUnique(b[..n], b, n);
    forall k | 0 <= k < n ensures Compare(a, b[..k]) >= 0 {
      assert b[..k] == b[..p][..k] == a[..p][..k] == a[..k];
      LcpUnique(a, b[..k], k);
    }
  }
}
