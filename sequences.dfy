/** Ordered key lists and the insertion that the node's right-shift loops perform. */
module Sequences {
  import opened Int32

  predicate Sorted(s: seq<i32>) {
    forall i, j :: 0 <= i < j < |s| ==> s[i] <= s[j]
  }

  predicate StrictlySorted(s: seq<i32>) {
    forall i, j :: 0 <= i < j < |s| ==> s[i] < s[j]
  }

  /** s with x placed at index i: the entries before i stay, the entries from i on move one to the right. */
  function InsertAt<X>(s: seq<X>, i: nat, x: X): (r: seq<X>)
    requires i <= |s|
    ensures |r| == |s| + 1
    ensures forall k :: 0 <= k < |r| ==> r[k] == if k < i then s[k] else if k == i then x else s[k - 1]
  {
    s[..i] + [x] + s[i..]
  }

  /** A list that agrees with s before i, holds x at i and holds s shifted by one after i is
      the insertion of x into s at i. */
  lemma ShiftedIsInsertAt<X>(s: seq<X>, r: seq<X>, i: nat, x: X)
    requires i <= |s| && |r| == |s| + 1 && r[i] == x
    requires forall k :: 0 <= k < i ==> r[k] == s[k]
    requires forall k :: i < k < |r| ==> r[k] == s[k - 1]
    ensures r == InsertAt(s, i, x)
  {
  }

  /** Insertion adds x once and loses nothing. */
  lemma InsertAtMultiset<X>(s: seq<X>, i: nat, x: X)
    requires i <= |s|
    ensures multiset(InsertAt(s, i, x)) == multiset(s) + multiset{x}
  {
    assert s == s[..i] + s[i..];
  }

  /** Where the right-shift loop stops when x is inserted into s: the start of the longest
      suffix of s whose entries are all at least x. */
  function InsertionPoint(s: seq<i32>, x: i32): (i: nat)
    ensures i <= |s|
    ensures forall j :: i <= j < |s| ==> x <= s[j]
    ensures 0 < i ==> s[i - 1] < x
  {
    if |s| == 0 then 0
    else if x <= s[|s| - 1] then InsertionPoint(s[..|s| - 1], x)
    else |s|
  }

  /** The three properties of InsertionPoint determine it. */
  lemma InsertionPointUnique(s: seq<i32>, x: i32, i: nat)
    requires i <= |s|
    requires forall j :: i <= j < |s| ==> x <= s[j]
    requires 0 < i ==> s[i - 1] < x
    ensures i == InsertionPoint(s, x)
  {
  }

  /** Inserting at the insertion point keeps a sorted list sorted. */
  lemma InsertKeepsSorted(s: seq<i32>, x: i32)
    requires Sorted(s)
    ensures Sorted(InsertAt(s, InsertionPoint(s, x), x))
  {
    var i := InsertionPoint(s, x);
    var r := InsertAt(s, i, x);
    forall a, b | 0 <= a < b < |r| ensures r[a] <= r[b] {
      if a < i && i < b {
        assert s[a] <= s[i - 1];
      }
    }
  }

  /** Inserting a new key at the insertion point keeps a strictly sorted list strictly sorted. */
  lemma InsertKeepsStrictlySorted(s: seq<i32>, x: i32)
    requires StrictlySorted(s) && x !in s
    ensures StrictlySorted(InsertAt(s, InsertionPoint(s, x), x))
  {
    var i := InsertionPoint(s, x);
    var r := InsertAt(s, i, x);
    forall a, b | 0 <= a < b < |r| ensures r[a] < r[b] {
      if a < i && i < b {
        assert s[a] <= s[i - 1];
      } else if a == i {
        assert s[b - 1] != x;
      }
    }
  }

  /** A key below every entry goes to the front, one above every entry to the end. */
  lemma InsertionPointExtremes(s: seq<i32>, x: i32)
    ensures (forall j :: 0 <= j < |s| ==> x < s[j]) ==> InsertionPoint(s, x) == 0
    ensures (forall j :: 0 <= j < |s| ==> s[j] < x) ==> InsertionPoint(s, x) == |s|
  {
    if forall j :: 0 <= j < |s| ==> x < s[j] {
      InsertionPointUnique(s, x, 0);
    }
    if forall j :: 0 <= j < |s| ==> s[j] < x {
      InsertionPointUnique(s, x, |s|);
    }
  }

  /** Every entry of a slice is an entry of the whole sequence. */
  lemma SliceIn<X>(s: seq<X>, i: nat, j: nat)
    requires i <= j <= |s|
    ensures forall x :: x in s[i..j] ==> x in s
  {
    forall x | x in s[i..j]
      ensures x in s
    {
      var k :| 0 <= k < j - i && s[i..j][k] == x;
      assert s[i + k] == x;
    }
  }

  /** A slice of a strictly sorted sequence is strictly sorted. */
  lemma StrictlySortedSlice(s: seq<i32>, i: nat, j: nat)
    requires StrictlySorted(s) && i <= j <= |s|
    ensures StrictlySorted(s[i..j])
  {
    forall a, b | 0 <= a < b < j - i
      ensures s[i..j][a] < s[i..j][b]
    {
      assert s[i..j][a] == s[i + a] && s[i..j][b] == s[i + b];
    }
  }

  /** In a strictly sorted sequence the head goes in front of the tail: its insertion point in
      the tail is 0. */
  lemma FrontPosition(s: seq<i32>, i: nat)
    requires StrictlySorted(s) && 0 < |s| && i < |s|
    requires 0 < i ==> s[1..][i - 1] < s[0]
    ensures i == 0
  {
  }

  /** Putting entry t in front of the entries after it gives the suffix from t. */
  lemma InsertFront<X>(s: seq<X>, t: nat)
    requires t < |s|
    ensures InsertAt(s[t + 1..], 0, s[t]) == s[t..]
  {
    assert s[t..] == [s[t]] + s[t + 1..];
  }

  /** An entry of s with v inserted is v or an entry of s. */
  lemma InsertAtIn<X>(s: seq<X>, i: nat, v: X)
    requires i <= |s|
    ensures forall x :: x in InsertAt(s, i, v) ==> x == v || x in s
  {
    forall x | x in InsertAt(s, i, v)
      ensures x == v || x in s
    {
      var k :| 0 <= k < |s| + 1 && InsertAt(s, i, v)[k] == x;
      if k < i {
        assert s[k] == x;
      } else if i < k {
        assert s[k - 1] == x;
      }
    }
  }

  /** In a strictly sorted slice an entry does not occur among the entries before it. */
  lemma SortedFresh(keys: seq<i32>, from: nat, done: nat, to: nat)
    requires from <= done < to <= |keys| && StrictlySorted(keys[from..to])
    ensures keys[done] !in keys[from..done]
  {
    forall k | 0 <= k < done - from
      ensures keys[from..done][k] != keys[done]
    {
      assert keys[from..to][k] < keys[from..to][done - from];
    }
  }

  /** Where a loop that adds s[lo], s[lo + 1], ... up to s[hi - 1] and stops before the first key it has
      already added ends, having reached k without stopping: at that repeated key, or at hi. */
  function RunEnd(s: seq<i32>, lo: nat, k: nat, hi: nat): (d: nat)
    requires lo <= k <= hi <= |s|
    ensures k <= d <= hi
    ensures forall j :: k <= j < d ==> s[j] !in s[lo..j]
    ensures d < hi ==> s[d] in s[lo..d]
    decreases hi - k
  {
    if k == hi || s[k] in s[lo..k] then k else RunEnd(s, lo, k + 1, hi)
  }

  /** A strictly sorted run has no repeated key, so such a loop adds all of it. */
  lemma {:induction false} SortedRunEnd(s: seq<i32>, lo: nat, k: nat, hi: nat)
    requires lo <= k <= hi <= |s| && StrictlySorted(s[lo..hi])
    ensures RunEnd(s, lo, k, hi) == hi
    decreases hi - k
  {
    if k < hi {
      SortedFresh(s, lo, k, hi);
      SortedRunEnd(s, lo, k + 1, hi);
    }
  }
}
