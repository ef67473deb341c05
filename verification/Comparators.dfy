// The comparators a map may be built with, and the law the map needs of them.
module Comparators {

  type Byte = b: int | 0 <= b < 256

  type UInt32 = u: int | 0 <= u < 0x1_0000_0000

  // A Go string is a sequence of bytes.
  type GoString = seq<Byte>

  // Negative, zero or positive: a strict total order that is zero only on equal keys.
  ghost predicate IsTotalOrder<K(!new)>(cmp: (K, K) -> int) {
    && (forall a, b :: cmp(a, b) == 0 <==> a == b)
    && (forall a, b :: cmp(a, b) < 0 <==> cmp(b, a) > 0)
    && (forall a, b, c {:trigger cmp(a, b), cmp(b, c), cmp(a, c)} :: cmp(a, b) < 0 && cmp(b, c) < 0 ==> cmp(a, c) < 0)
  }

  function CompareUInt32(a: UInt32, b: UInt32): int {
    if a > b then 1 else if a < b then -1 else 0
  }

  lemma UInt32IsTotalOrder()
    ensures IsTotalOrder(CompareUInt32)
  {
  }

  // ---------- Strings ----------

  ghost predicate Agree(a: GoString, b: GoString, n: nat) {
    n <= |a| && n <= |b| && forall i :: 0 <= i < n ==> a[i] == b[i]
  }

  // Lexicographic order of byte strings: a proper prefix, or a smaller byte at
  // the first difference.
  ghost predicate LexLessAt(a: GoString, b: GoString, n: nat) {
    Agree(a, b, n) && n < |b| && (n < |a| ==> a[n] < b[n])
  }

  ghost predicate LexLess(a: GoString, b: GoString) {
    exists n: nat :: LexLessAt(a, b, n)
  }

  // The length of the longest common prefix.
  function CommonPrefix(a: GoString, b: GoString): (n: nat)
    ensures Agree(a, b, n)
    ensures n < |a| && n < |b| ==> a[n] != b[n]
  {
    if a == [] || b == [] || a[0] != b[0] then 0 else 1 + CommonPrefix(a[1..], b[1..])
  }

  // The comparison as a value; `CompareStringsIsLexicographic` says what it means.
  function CompareStrings(a: GoString, b: GoString): int {
    var n := CommonPrefix(a, b);
    if n < |a| && n < |b| then (if a[n] < b[n] then -1 else 1)
    else if |a| < |b| then -1
    else if |a| > |b| then 1
    else 0
  }

  // The loop of the source: the first non-zero byte difference, then the lengths.
  method StringComparator(s1: GoString, s2: GoString) returns (sign: int)
    ensures sign == CompareStrings(s1, s2)
    ensures sign == -1 <==> LexLess(s1, s2)
    ensures sign == 1 <==> LexLess(s2, s1)
    ensures sign == 0 <==> s1 == s2
  {
    CompareStringsIsLexicographic(s1, s2);
    var min := |s2|;
    if |s1| < |s2| {
      min := |s1|;
    }
    var diff: int := 0;
    var i := 0;
    ghost var n := CommonPrefix(s1, s2);
    while i < min && diff == 0
      invariant 0 <= i <= min
      invariant diff == 0 ==> i <= n
      invariant diff != 0 ==> i == n + 1 && diff == s1[n] as int - s2[n] as int
    {
      diff := s1[i] as int - s2[i] as int;
      i := i + 1;
    }
    if diff == 0 {
      diff := |s1| - |s2|;
    }
    if diff < 0 {
      return -1;
    }
    if diff > 0 {
      return 1;
    }
    return 0;
  }

  lemma CompareStringsIsLexicographic(a: GoString, b: GoString)
    ensures CompareStrings(a, b) == -1 <==> LexLess(a, b)
    ensures CompareStrings(a, b) == 1 <==> LexLess(b, a)
    ensures CompareStrings(a, b) == 0 <==> a == b
  {
    var n := CommonPrefix(a, b);
    if CompareStrings(a, b) == -1 {
      assert LexLessAt(a, b, n);
    } else if CompareStrings(a, b) == 1 {
      assert LexLessAt(b, a, n);
    }
  }

  lemma LexLessTransitive(a: GoString, b: GoString, c: GoString)
    requires LexLess(a, b) && LexLess(b, c)
    ensures LexLess(a, c)
  {
    var m: nat :| LexLessAt(a, b, m);
    var n: nat :| LexLessAt(b, c, n);
    assert LexLessAt(a, c, if m < n then m else n);
  }

  lemma StringsAreTotallyOrdered()
    ensures IsTotalOrder(CompareStrings)
  {
    forall a, b
      ensures CompareStrings(a, b) == 0 <==> a == b
      ensures CompareStrings(a, b) < 0 <==> CompareStrings(b, a) > 0
    {
      CompareStringsIsLexicographic(a, b);
      CompareStringsIsLexicographic(b, a);
    }
    forall a, b, c | CompareStrings(a, b) < 0 && CompareStrings(b, c) < 0
      ensures CompareStrings(a, c) < 0
    {
      CompareStringsIsLexicographic(a, b);
      CompareStringsIsLexicographic(b, c);
      LexLessTransitive(a, b, c);
      CompareStringsIsLexicographic(a, c);
    }
  }
}
