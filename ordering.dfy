/**
 * Ordering of pixel values: the three-way comparator handed to qsort
 * (compare_doubles), sortedness, the in-place sort of the sky samples, and the
 * even/odd-aware median taken from the sorted samples.
 */
module Ordering {

  /** compare_doubles: 1, -1 or 0 as x is greater than, less than or equal to y. */
  function CompareDoubles(x: real, y: real): (r: int)
    ensures r == 1 <==> x > y
    ensures r == -1 <==> x < y
    ensures r == 0 <==> x == y
  {
    if x > y then 1 else if x < y then -1 else 0
  }

  /** The comparator is antisymmetric and agrees with <=, so it orders the reals totally. */
  lemma CompareDoublesIsOrder(x: real, y: real, z: real)
    ensures CompareDoubles(x, y) == -CompareDoubles(y, x)
    ensures CompareDoubles(x, y) <= 0 <==> x <= y
    ensures CompareDoubles(x, y) <= 0 && CompareDoubles(y, z) <= 0 ==> CompareDoubles(x, z) <= 0
  {
  }

  /** Ascending in the order of CompareDoubles (equivalently <=, by CompareDoublesIsOrder). */
  predicate Sorted(s: seq<real>) {
    forall i, j :: 0 <= i < j < |s| ==> s[i] <= s[j]
  }

  /** Putting an element no larger than the head in front keeps a sequence sorted. */
  lemma ConsSorted(h: real, s: seq<real>)
    requires Sorted(s) && (s != [] ==> h <= s[0])
    ensures Sorted([h] + s)
  {
    var t := [h] + s;
    forall i, j | 0 <= i < j < |t| ensures t[i] <= t[j] {
      if i == 0 && j > 1 {
        assert s[0] <= s[j - 1];
      }
    }
  }

  /** Inserts x into a sorted sequence before its first larger element. */
  function Insert(x: real, s: seq<real>): (t: seq<real>)
    requires Sorted(s)
    ensures Sorted(t)
    ensures multiset(t) == multiset(s) + multiset{x}
    ensures |t| == |s| + 1
    ensures t[0] == if s == [] || x <= s[0] then x else s[0]
  {
    if s == [] then [x]
    else if CompareDoubles(x, s[0]) <= 0 then
      ConsSorted(x, s);
      [x] + s
    else
      var rest := Insert(x, s[1..]);
      InsertBehindHead(x, s, rest);
      [s[0]] + rest
  }

  /**
   * The recursive step of Insert: when x goes behind the head, putting the
   * head back in front of the insertion into the tail gives a sorted
   * arrangement of s and x that still starts with the head.
   */
  lemma InsertBehindHead(x: real, s: seq<real>, rest: seq<real>)
    requires Sorted(s) && s != [] && x > s[0]
    requires Sorted(rest) && multiset(rest) == multiset(s[1..]) + multiset{x} && |rest| == |s|
    requires rest[0] == if s[1..] == [] || x <= s[1] then x else s[1]
    ensures Sorted([s[0]] + rest)
    ensures multiset([s[0]] + rest) == multiset(s) + multiset{x}
  {
    assert s == [s[0]] + s[1..];
    assert |s| > 1 ==> s[0] <= s[1];
    ConsSorted(s[0], rest);
  }

  /** Reference ascending sort (insertion sort) of a sample list. */
  function Sort(s: seq<real>): (t: seq<real>)
    ensures Sorted(t)
    ensures multiset(t) == multiset(s)
    ensures |t| == |s|
  {
    if s == [] then []
    else
      assert s == [s[0]] + s[1..];
      Insert(s[0], Sort(s[1..]))
  }

  /** The smallest element of a sorted sequence is its first. */
  lemma SortedHeadIsMin(s: seq<real>, x: real)
    requires Sorted(s) && x in multiset(s)
    ensures s[0] <= x
  {
    assert x in s;
  }

  /**
   * A multiset has exactly one sorted arrangement: every sort of the samples,
   * qsort's included, yields the same sequence.
   */
  lemma {:induction false} SortedUnique(a: seq<real>, b: seq<real>)
    requires Sorted(a) && Sorted(b) && multiset(a) == multiset(b)
    ensures a == b
  {
    if a != [] {
      assert |b| == |multiset(b)| == |a| > 0;
      assert a[0] in multiset(b) by { assert a[0] in a; }
      assert b[0] in multiset(a) by { assert b[0] in b; }
      SortedHeadIsMin(a, b[0]);
      SortedHeadIsMin(b, a[0]);
      assert a[0] == b[0];
      assert a == [a[0]] + a[1..] && b == [b[0]] + b[1..];
      assert multiset(a[1..]) == multiset(a) - multiset{a[0]};
      assert multiset(b[1..]) == multiset(b) - multiset{b[0]};
      SortedUnique(a[1..], b[1..]);
    }
  }

  /**
   * The median of sorted samples: the mean of the two central elements for an
   * even count, the central element for an odd count.
   */
  function Median(s: seq<real>): (m: real)
    requires Sorted(s) && |s| > 0
    ensures s[0] <= m <= s[|s| - 1]
  {
    var n := |s|;
    if n % 2 == 0 then (s[n / 2 - 1] + s[n / 2]) / 2.0
    else s[(n + 1) / 2 - 1]
  }

  /** Number of samples that are at most v. */
  function CountAtMost(s: seq<real>, v: real): (c: nat)
    ensures c <= |s|
  {
    if s == [] then 0 else (if s[0] <= v then 1 else 0) + CountAtMost(s[1..], v)
  }

  /** Number of samples that are at least v. */
  function CountAtLeast(s: seq<real>, v: real): (c: nat)
    ensures c <= |s|
  {
    if s == [] then 0 else (if s[0] >= v then 1 else 0) + CountAtLeast(s[1..], v)
  }

  /** A prefix of length j whose elements are all at most v gives j such samples. */
  lemma {:induction false} CountAtMostPrefix(s: seq<real>, v: real, j: nat)
    requires j <= |s|
    requires forall i :: 0 <= i < j ==> s[i] <= v
    ensures CountAtMost(s, v) >= j
  {
    if j > 0 {
      CountAtMostPrefix(s[1..], v, j - 1);
    }
  }

  /** A suffix from index j whose elements are all at least v gives |s|-j such samples. */
  lemma {:induction false} CountAtLeastSuffix(s: seq<real>, v: real, j: nat)
    requires j <= |s|
    requires forall i :: j <= i < |s| ==> s[i] >= v
    ensures CountAtLeast(s, v) >= |s| - j
  {
    if s != [] {
      if j == 0 {
        CountAtLeastSuffix(s[1..], v, 0);
      } else {
        CountAtLeastSuffix(s[1..], v, j - 1);
      }
    }
  }

  /** Inserting x adds one to a count exactly when x itself is counted. */
  lemma {:induction false} CountInsert(x: real, s: seq<real>, v: real)
    requires Sorted(s)
    ensures CountAtMost(Insert(x, s), v) == (if x <= v then 1 else 0) + CountAtMost(s, v)
    ensures CountAtLeast(Insert(x, s), v) == (if x >= v then 1 else 0) + CountAtLeast(s, v)
  {
    if s != [] {
      var t := Insert(x, s);
      if CompareDoubles(x, s[0]) > 0 {
        CountInsert(x, s[1..], v);
        assert t == [s[0]] + Insert(x, s[1..]);
        assert t[1..] == Insert(x, s[1..]);
      } else {
        assert t == [x] + s;
        assert t[1..] == s;
      }
    }
  }

  /** Sorting does not change how many samples lie at or below, or at or above, a value. */
  lemma {:induction false} CountSort(s: seq<real>, v: real)
    ensures CountAtMost(Sort(s), v) == CountAtMost(s, v)
    ensures CountAtLeast(Sort(s), v) == CountAtLeast(s, v)
  {
    if s != [] {
      CountSort(s[1..], v);
      CountInsert(s[0], Sort(s[1..]), v);
    }
  }

  /** On sorted samples, half lie at or below the median and half at or above it. */
  lemma MedianSplitsSorted(t: seq<real>)
    requires Sorted(t) && |t| > 0
    ensures 2 * CountAtMost(t, Median(t)) >= |t|
    ensures 2 * CountAtLeast(t, Median(t)) >= |t|
  {
    var n := |t|;
    var m := Median(t);
    var lo := if n % 2 == 0 then n / 2 else (n + 1) / 2;
    var hi := if n % 2 == 0 then n / 2 else (n + 1) / 2 - 1;
    assert forall i :: 0 <= i < lo ==> t[i] <= t[lo - 1];
    assert forall i :: hi <= i < n ==> t[hi] <= t[i];
    CountAtMostPrefix(t, m, lo);
    CountAtLeastSuffix(t, m, hi);
  }

  /**
   * The median splits the samples: at least half of them are at most the
   * median of their sorted order and at least half are at least it.
   */
  lemma MedianSplitsSamples(s: seq<real>)
    requires |s| > 0
    ensures 2 * CountAtMost(s, Median(Sort(s))) >= |s|
    ensures 2 * CountAtLeast(s, Median(Sort(s))) >= |s|
  {
    var t := Sort(s);
    MedianSplitsSorted(t);
    CountSort(s, Median(t));
  }

  /** Swaps two cells of an array prefix; the multiset of the prefix is kept. */
  method Swap(a: array<real>, i: nat, j: nat, len: nat)
    requires i < len && j < len && len <= a.Length
    modifies a
    ensures a[i] == old(a[j]) && a[j] == old(a[i])
    ensures forall k :: 0 <= k < a.Length && k != i && k != j ==> a[k] == old(a[k])
    ensures multiset(a[..len]) == multiset(old(a[..len]))
  {
    a[i], a[j] := a[j], a[i];
    assert a[..len] == old(a[..len])[i := old(a[j])][j := old(a[i])];
  }

  /**
   * qsort(dpix, Npix, sizeof(double), compare_doubles): sorts the first `len`
   * cells in place (here by selection) and leaves the rest alone.
   */
  method SortPrefix(a: array<real>, len: nat)
    requires len <= a.Length
    modifies a
    ensures Sorted(a[..len])
    ensures multiset(a[..len]) == multiset(old(a[..len]))
    ensures forall k :: len <= k < a.Length ==> a[k] == old(a[k])
  {
    var i := 0;
    while i < len
      invariant 0 <= i <= len
      invariant forall p, q :: 0 <= p < q < i ==> a[p] <= a[q]
      invariant forall p, q :: 0 <= p < i <= q < len ==> a[p] <= a[q]
      invariant multiset(a[..len]) == multiset(old(a[..len]))
      invariant forall k :: len <= k < a.Length ==> a[k] == old(a[k])
    {
      var m := i;
      var j := i + 1;
      while j < len
        invariant i <= m < len && i < j <= len
        invariant forall q :: i <= q < j ==> a[m] <= a[q]
      {
        if CompareDoubles(a[j], a[m]) < 0 {
          m := j;
        }
        j := j + 1;
      }
      Swap(a, i, m, len);
      i := i + 1;
    }
  }
}
