/** Machine-word slots shared by the kernel containers. An element is one
    machine word: an integer for a non-pointer element type, an address for a
    pointer element type, with 0 standing for both T{0} and NULL. */
module Slots {

  /** n zero words: what RtlZeroMemory and a zero-initialising pool
      allocation leave in a fresh buffer. */
  function Zeros(n: nat): (z: seq<int>)
    ensures |z| == n && forall i :: 0 <= i < n ==> z[i] == 0
  {
    if n == 0 then [] else Zeros(n - 1) + [0]
  }

  /** The non-null words of s[lo..hi], last one first: the pointers a loop
      that pops slots hi - 1 down to lo frees, in the order it frees them. */
  function Freed(s: seq<int>, lo: int, hi: int): seq<int>
    requires 0 <= lo && hi <= |s|
    decreases hi - lo
  {
    if hi <= lo then [] else (if s[hi - 1] != 0 then [s[hi - 1]] else []) + Freed(s, lo, hi - 1)
  }

  /** The accounting of such a loop: what was freed so far, plus what the
      slots still to pop will free, is carried over by freeing slot hi - 1. */
  lemma FreedStep(s: seq<int>, lo: int, hi: int, freed: seq<int>, total: seq<int>)
    requires 0 <= lo < hi <= |s| && freed + Freed(s, lo, hi) == total
    ensures (freed + (if s[hi - 1] != 0 then [s[hi - 1]] else [])) + Freed(s, lo, hi - 1) == total
  {
    var head := if s[hi - 1] != 0 then [s[hi - 1]] else [];
    var rest := Freed(s, lo, hi - 1);
    assert Freed(s, lo, hi) == head + rest;
    assert freed + (head + rest) == (freed + head) + rest;
  }

  /** Every non-null word of the range, and nothing else, is freed. */
  lemma {:induction false} FreedMembers(s: seq<int>, lo: int, hi: int, p: int)
    requires 0 <= lo <= hi <= |s|
    ensures p in Freed(s, lo, hi) <==> p != 0 && p in s[lo..hi]
    decreases hi - lo
  {
    if hi > lo {
      var head := if s[hi - 1] != 0 then [s[hi - 1]] else [];
      var rest := Freed(s, lo, hi - 1);
      assert Freed(s, lo, hi) == head + rest;
      FreedMembers(s, lo, hi - 1, p);
      assert s[lo..hi] == s[lo..hi - 1] + [s[hi - 1]];
      assert p in head + rest <==> p in head || p in rest;
    }
  }

  /** Over a range without null words, the loop frees every word of the
      range exactly once, the last one first. */
  lemma {:induction false} FreedReversed(s: seq<int>, lo: int, hi: int)
    requires 0 <= lo <= hi <= |s| && forall i :: lo <= i < hi ==> s[i] != 0
    ensures |Freed(s, lo, hi)| == hi - lo
    ensures forall k :: 0 <= k < hi - lo ==> Freed(s, lo, hi)[k] == s[hi - 1 - k]
    decreases hi - lo
  {
    if hi > lo {
      FreedReversed(s, lo, hi - 1);
      assert Freed(s, lo, hi) == [s[hi - 1]] + Freed(s, lo, hi - 1);
    }
  }

  /** Swap-with-last removal: the last entry moves into slot i and the
      sequence loses its last slot. */
  function SwapRemove<T>(s: seq<T>, i: int): (r: seq<T>)
    requires 0 <= i < |s|
    ensures |r| == |s| - 1
    ensures forall k :: 0 <= k < |r| && k != i ==> r[k] == s[k]
    ensures i < |r| ==> r[i] == s[|s| - 1]
  {
    s[i := s[|s| - 1]][..|s| - 1]
  }

  /** The removal takes out exactly the entry at i, whatever order is left. */
  lemma SwapRemoveMultiset<T>(s: seq<T>, i: int)
    requires 0 <= i < |s|
    ensures multiset(SwapRemove(s, i)) == multiset(s) - multiset{s[i]}
  {
    var last := |s| - 1;
    if i == last {
      assert s == SwapRemove(s, i) + [s[i]];
    } else {
      var r := SwapRemove(s, i);
      var front, middle := s[..i], s[i + 1..last];
      assert s == front + [s[i]] + middle + [s[last]];
      assert r == front + [s[last]] + middle;
      assert multiset(s) == multiset(front) + multiset{s[i]} + multiset(middle) + multiset{s[last]};
      assert multiset(r) == multiset(front) + multiset{s[last]} + multiset(middle);
    }
  }

  /** The index of the first occurrence of p. */
  function FirstIndex(s: seq<int>, p: int): (i: int)
    requires p in s
    ensures 0 <= i < |s| && s[i] == p && p !in s[..i]
  {
    if s[0] == p then 0
    else
      assert s == [s[0]] + s[1..];
      var j := FirstIndex(s[1..], p);
      assert s[..j + 1] == [s[0]] + s[1..][..j];
      1 + j
  }

  predicate Distinct(s: seq<int>)
  {
    forall i, j :: 0 <= i < j < |s| ==> s[i] != s[j]
  }

  /** Swap-with-last removal keeps a sequence free of duplicates. */
  lemma SwapRemoveDistinct(s: seq<int>, i: int)
    requires 0 <= i < |s| && Distinct(s)
    ensures Distinct(SwapRemove(s, i))
  {
    var r := SwapRemove(s, i);
    forall a, b | 0 <= a < b < |r|
      ensures r[a] != r[b]
    {
      var a' := if a == i then |s| - 1 else a;
      var b' := if b == i then |s| - 1 else b;
      assert r[a] == s[a'] && r[b] == s[b'] && a' != b';
    }
  }

  /** Every entry other than the one removed survives the removal. */
  lemma SwapRemoveKeeps(s: seq<int>, j: int, y: int)
    requires 0 <= j < |s| && y in s && y != s[j]
    ensures y in SwapRemove(s, j)
  {
    var k :| 0 <= k < |s| && s[k] == y;
    if k == |s| - 1 {
      assert SwapRemove(s, j)[j] == y;
    } else {
      assert SwapRemove(s, j)[k] == y;
    }
  }

  /** A sequence without duplicates whose entries all occur in s is no
      longer than s. */
  lemma {:induction false} DistinctWithin(t: seq<int>, s: seq<int>)
    requires Distinct(t) && forall i :: 0 <= i < |t| ==> t[i] in s
    ensures |t| <= |s|
    decreases |t|
  {
    if |t| > 0 {
      var n := |t| - 1;
      var j := FirstIndex(s, t[n]);
      var s' := SwapRemove(s, j);
      forall i | 0 <= i < n
        ensures t[..n][i] in s'
      {
        SwapRemoveKeeps(s, j, t[i]);
      }
      DistinctWithin(t[..n], s');
    }
  }
}
