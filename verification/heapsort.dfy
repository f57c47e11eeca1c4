/** Heapsort and binary search (lib/stdlib.c) over an array of elements, for any comparison that is a total preorder. */
module HeapSort {
  import opened Wrappers

  type Compare<!T> = (T, T) -> int

  /** A strcmp()-type comparison: it is antisymmetric in sign, and "at most" is transitive. */
  ghost predicate TotalPreorder<T(!new)>(compare: Compare<T>) {
    && (forall x, y :: compare(x, y) < 0 <==> compare(y, x) > 0)
    && (forall x, y, z :: compare(x, y) <= 0 && compare(y, z) <= 0 ==> compare(x, z) <= 0)
  }

  ghost predicate Leq<T>(compare: Compare<T>, x: T, y: T) {
    compare(x, y) <= 0
  }

  /** Child j is at most its parent; indexes count from 1. */
  ghost predicate Under<T>(compare: Compare<T>, s: seq<T>, j: nat)
    requires 2 <= j <= |s|
  {
    Leq(compare, s[j - 1], s[j / 2 - 1])
  }

  /** The heap property below every index from i on, among the first cnt elements. */
  ghost predicate HeapFrom<T>(compare: Compare<T>, s: seq<T>, i: nat, cnt: nat)
    requires cnt <= |s|
  {
    forall j :: 2 <= j <= cnt && i <= j / 2 ==> Under(compare, s, j)
  }

  function Swapped<T>(s: seq<T>, i: nat, j: nat): (r: seq<T>)
    requires i < |s| && j < |s|
    ensures |r| == |s|
  {
    s[i := s[j]][j := s[i]]
  }

  lemma SwappedPermutes<T>(s: seq<T>, i: nat, j: nat, cnt: nat)
    requires i < cnt && j < cnt <= |s|
    ensures Permuted(s, Swapped(s, i, j), cnt)
  {
    assert Swapped(s, i, j)[..cnt] == Swapped(s[..cnt], i, j);
  }

  /** do_swap, with indexes from 1. */
  method DoSwap<T>(a: array<T>, i: nat, j: nat)
    requires 1 <= i <= a.Length && 1 <= j <= a.Length
    modifies a
    ensures a[..] == Swapped(old(a[..]), i - 1, j - 1)
  {
    var t := a[i - 1];
    a[i - 1] := a[j - 1];
    a[j - 1] := t;
  }

  /** The heap from i on, but for index k, which may be below its children; they are still under its parent. */
  ghost predicate Floating<T>(compare: Compare<T>, s: seq<T>, i: nat, k: nat, cnt: nat)
    requires cnt <= |s|
  {
    && 1 <= i <= k
    && (forall j :: 2 <= j <= cnt && i <= j / 2 && j / 2 != k ==> Under(compare, s, j))
    && (forall j :: 2 <= j <= cnt && j / 2 == k && i <= k / 2 ==> Leq(compare, s[j - 1], s[k / 2 - 1]))
  }

  /** Swapping k with its larger child moves the fault down. */
  lemma FloatDown<T(!new)>(compare: Compare<T>, s: seq<T>, i: nat, k: nat, max: nat, cnt: nat)
    requires TotalPreorder(compare) && cnt <= |s| && Floating(compare, s, i, k, cnt)
    requires max / 2 == k && 2 <= max <= cnt && compare(s[max - 1], s[k - 1]) > 0
    requires forall j :: 2 <= j <= cnt && j / 2 == k ==> Leq(compare, s[j - 1], s[max - 1])
    ensures Floating(compare, Swapped(s, k - 1, max - 1), i, max, cnt)
  {
    var r := Swapped(s, k - 1, max - 1);
    forall j | 2 <= j <= cnt && i <= j / 2 && j / 2 != max
      ensures Under(compare, r, j)
    {
      StillUnder(compare, s, i, k, max, cnt, j);
    }
    forall j | 2 <= j <= cnt && j / 2 == max
      ensures Leq(compare, r[j - 1], r[max / 2 - 1])
    {
      assert Under(compare, s, j);
    }
  }

  lemma StillUnder<T(!new)>(compare: Compare<T>, s: seq<T>, i: nat, k: nat, max: nat, cnt: nat, j: nat)
    requires TotalPreorder(compare) && cnt <= |s| && Floating(compare, s, i, k, cnt)
    requires max / 2 == k && 2 <= max <= cnt && compare(s[max - 1], s[k - 1]) > 0
    requires forall l :: 2 <= l <= cnt && l / 2 == k ==> Leq(compare, s[l - 1], s[max - 1])
    requires 2 <= j <= cnt && i <= j / 2 && j / 2 != max
    ensures Under(compare, Swapped(s, k - 1, max - 1), j)
  {
    var r := Swapped(s, k - 1, max - 1);
    if j / 2 == k {
      assert r[k - 1] == s[max - 1];
      assert j == max ==> r[j - 1] == s[k - 1] && compare(s[k - 1], s[max - 1]) < 0;
      assert j != max ==> r[j - 1] == s[j - 1];
    } else if j == k {
      assert r[j - 1] == s[max - 1] && r[j / 2 - 1] == s[j / 2 - 1];
    } else {
      assert Under(compare, s, j);
    }
  }

  /** heapify: floats the element at index i down until the heap property holds from i on. */
  method Heapify<T(!new)>(a: array<T>, i: nat, cnt: nat, compare: Compare<T>)
    requires TotalPreorder(compare) && 1 <= i && cnt <= a.Length
    requires HeapFrom(compare, a[..], i + 1, cnt)
    modifies a
    ensures HeapFrom(compare, a[..], i, cnt)
    ensures Permuted(old(a[..]), a[..], cnt)
  {
    var k := i;
    while true
      invariant Floating(compare, a[..], i, k, cnt)
      invariant Permuted(old(a[..]), a[..], cnt)
      decreases cnt - k
    {
      ghost var before := a[..];
      var max := FloatStep(a, i, k, cnt, compare);
      PermutedTwice(old(a[..]), before, a[..], cnt);
      if max == k {
        break;
      }
      k := max;
    }
  }

  /** t is s with its first cnt elements in another order. */
  ghost predicate Permuted<T>(s: seq<T>, t: seq<T>, cnt: nat) {
    |s| == |t| && cnt <= |s| && multiset(t[..cnt]) == multiset(s[..cnt]) && t[cnt..] == s[cnt..]
  }

  lemma PermutedTwice<T>(s: seq<T>, t: seq<T>, u: seq<T>, cnt: nat)
    requires Permuted(s, t, cnt) && Permuted(t, u, cnt)
    ensures Permuted(s, u, cnt)
  {
  }

  /** One round of heapify: done if k is the largest, and one level down otherwise. */
  method FloatStep<T(!new)>(a: array<T>, i: nat, k: nat, cnt: nat, compare: Compare<T>) returns (max: nat)
    requires TotalPreorder(compare) && cnt <= a.Length && Floating(compare, a[..], i, k, cnt)
    modifies a
    ensures Permuted(old(a[..]), a[..], cnt) && (max == k || k < max <= cnt)
    ensures max == k ==> HeapFrom(compare, a[..], i, cnt)
    ensures max != k ==> Floating(compare, a[..], i, max, cnt)
  {
    hide TotalPreorder, Leq, Under;
    max := LargestOf(a, k, cnt, compare);
    if max == k {
      SettledFloat(compare, a[..], i, k, cnt);
      return;
    }
    FloatDown(compare, a[..], i, k, max, cnt);
    SwappedPermutes(a[..], k - 1, max - 1, cnt);
    DoSwap(a, k, max);
  }

  lemma SettledFloat<T>(compare: Compare<T>, s: seq<T>, i: nat, k: nat, cnt: nat)
    requires cnt <= |s| && Floating(compare, s, i, k, cnt)
    requires forall j :: 2 <= j <= cnt && j / 2 == k ==> Leq(compare, s[j - 1], s[k - 1])
    ensures HeapFrom(compare, s, i, cnt)
  {
    forall j | 2 <= j <= cnt && i <= j / 2 ensures Under(compare, s, j) {
      assert j / 2 == k ==> Leq(compare, s[j - 1], s[k - 1]);
    }
  }

  /** The largest among index k and its children. */
  method LargestOf<T(!new)>(a: array<T>, k: nat, cnt: nat, compare: Compare<T>) returns (max: nat)
    requires TotalPreorder(compare) && 1 <= k && cnt <= a.Length
    ensures max == k || (max / 2 == k && 2 <= max <= cnt && compare(a[max - 1], a[k - 1]) > 0)
    ensures forall j :: 2 <= j <= cnt && j / 2 == k ==> Leq(compare, a[j - 1], a[max - 1])
  {
    var left, right := 2 * k, 2 * k + 1;
    max := k;
    if left <= cnt && compare(a[left - 1], a[max - 1]) > 0 {
      max := left;
    }
    if right <= cnt && compare(a[right - 1], a[max - 1]) > 0 {
      max := right;
    }
    assert forall j :: j / 2 == k ==> j == left || j == right;
  }

  // ---- sort ----

  /** From index i on (counted from 0) the elements are in order and none before i is above them. */
  ghost predicate TailDone<T>(compare: Compare<T>, s: seq<T>, i: nat) {
    forall p, q :: 0 <= p < q < |s| && i <= q ==> Leq(compare, s[p], s[q])
  }

  /** The root of a heap is above all of it. */
  lemma {:induction false} RootIsLargest<T(!new)>(compare: Compare<T>, s: seq<T>, cnt: nat, j: nat)
    requires TotalPreorder(compare) && cnt <= |s| && HeapFrom(compare, s, 1, cnt) && 1 <= j <= cnt
    ensures Leq(compare, s[j - 1], s[0])
  {
    if j > 1 {
      RootIsLargest(compare, s, cnt, j / 2);
      assert Under(compare, s, j);
    } else {
      assert compare(s[0], s[0]) < 0 <==> compare(s[0], s[0]) > 0;
    }
  }

  /** Moving the root behind the heap adds it to the finished tail. */
  lemma TailGrows<T(!new)>(compare: Compare<T>, s: seq<T>, i: nat)
    requires TotalPreorder(compare) && 2 <= i <= |s| && HeapFrom(compare, s, 1, i) && TailDone(compare, s, i)
    ensures TailDone(compare, Swapped(s, 0, i - 1), i - 1)
  {
    var r := Swapped(s, 0, i - 1);
    forall p, q | 0 <= p < q < |s| && i - 1 <= q ensures Leq(compare, r[p], r[q]) {
      var p' := if p == 0 then i - 1 else if p == i - 1 then 0 else p;
      assert r[p] == s[p'];
      if q == i - 1 {
        RootIsLargest(compare, s, i, p' + 1);
      } else {
        assert r[q] == s[q];
        assert p' < q;
      }
    }
  }

  lemma SwapKeepsHeap<T>(compare: Compare<T>, s: seq<T>, i: nat)
    requires 2 <= i <= |s| && HeapFrom(compare, s, 1, i)
    ensures HeapFrom(compare, Swapped(s, 0, i - 1), 2, i - 1)
  {
    forall j | 2 <= j <= i - 1 && 2 <= j / 2 ensures Under(compare, Swapped(s, 0, i - 1), j) {
      assert Under(compare, s, j);
    }
  }

  /** Reordering before a finished tail leaves it finished. */
  lemma TailKept<T>(compare: Compare<T>, s: seq<T>, t: seq<T>, i: nat)
    requires TailDone(compare, s, i) && Permuted(s, t, i)
    ensures TailDone(compare, t, i)
  {
    forall p, q | 0 <= p < q < |t| && i <= q ensures Leq(compare, t[p], t[q]) {
      assert t[q] == t[i..][q - i] == s[i..][q - i] == s[q];
      if p < i {
        assert t[p] in multiset(t[..i]);
        assert t[p] in multiset(s[..i]);
        var p' :| 0 <= p' < i && s[p'] == t[p];
      } else {
        assert t[p] == t[i..][p - i] == s[i..][p - i] == s[p];
      }
    }
  }

  ghost predicate Sorted<T>(compare: Compare<T>, s: seq<T>) {
    forall p, q :: 0 <= p < q < |s| ==> Leq(compare, s[p], s[q])
  }

  /** sort: the array ends up in order, as a permutation of what it was. */
  method Sort<T(!new)>(a: array<T>, compare: Compare<T>)
    requires TotalPreorder(compare)
    modifies a
    ensures Sorted(compare, a[..]) && multiset(a[..]) == multiset(old(a[..]))
  {
    BuildHeap(a, compare);
    var i: nat := a.Length;
    while i > 1
      invariant i <= a.Length && HeapFrom(compare, a[..], 1, i) && TailDone(compare, a[..], i)
      invariant multiset(a[..]) == multiset(old(a[..]))
    {
      Extract(a, i, compare);
      i := i - 1;
    }
  }

  method BuildHeap<T(!new)>(a: array<T>, compare: Compare<T>)
    requires TotalPreorder(compare)
    modifies a
    ensures HeapFrom(compare, a[..], 1, a.Length) && multiset(a[..]) == multiset(old(a[..]))
  {
    var i: nat := a.Length / 2;
    while i > 0
      invariant i <= a.Length / 2 && HeapFrom(compare, a[..], i + 1, a.Length)
      invariant multiset(a[..]) == multiset(old(a[..]))
    {
      ghost var before := a[..];
      Heapify(a, i, a.Length, compare);
      PermutedWhole(before, a[..], a.Length);
      i := i - 1;
    }
  }

  lemma PermutedWhole<T>(s: seq<T>, t: seq<T>, cnt: nat)
    requires Permuted(s, t, cnt)
    ensures multiset(t) == multiset(s)
  {
    assert s == s[..cnt] + s[cnt..] && t == t[..cnt] + t[cnt..];
  }

  /** One round of the second loop: the root of the heap of i elements goes behind it. */
  method Extract<T(!new)>(a: array<T>, i: nat, compare: Compare<T>)
    requires TotalPreorder(compare) && 2 <= i <= a.Length && HeapFrom(compare, a[..], 1, i) && TailDone(compare, a[..], i)
    modifies a
    ensures HeapFrom(compare, a[..], 1, i - 1) && TailDone(compare, a[..], i - 1)
    ensures multiset(a[..]) == multiset(old(a[..]))
  {
    MoveRoot(a, i, compare);
    ghost var before := a[..];
    Heapify(a, 1, i - 1, compare);
    TailKept(compare, before, a[..], i - 1);
    PermutedWhole(before, a[..], i - 1);
  }

  method MoveRoot<T(!new)>(a: array<T>, i: nat, compare: Compare<T>)
    requires TotalPreorder(compare) && 2 <= i <= a.Length && HeapFrom(compare, a[..], 1, i) && TailDone(compare, a[..], i)
    modifies a
    ensures HeapFrom(compare, a[..], 2, i - 1) && TailDone(compare, a[..], i - 1)
    ensures multiset(a[..]) == multiset(old(a[..]))
  {
    TailGrows(compare, a[..], i);
    SwapKeepsHeap(compare, a[..], i);
    SwappedPermutes(a[..], 0, i - 1, a.Length);
    PermutedWhole(a[..], Swapped(a[..], 0, i - 1), a.Length);
    DoSwap(a, 1, i);
  }

  // ---- binary search ----

  /** binary_search: on an array in order, a match is found exactly when there is one. */
  method BinarySearch<T(!new)>(key: T, a: array<T>, compare: Compare<T>) returns (r: Option<nat>)
    requires TotalPreorder(compare) && Sorted(compare, a[..])
    ensures r.Some? ==> r.value < a.Length && compare(key, a[r.value]) == 0
    ensures r.None? ==> forall k :: 0 <= k < a.Length ==> compare(key, a[k]) != 0
  {
    var first, last := 0, a.Length;
    while first < last
      invariant 0 <= first <= last <= a.Length
      invariant forall k :: 0 <= k < first ==> compare(key, a[k]) > 0
      invariant forall k :: last <= k < a.Length ==> compare(key, a[k]) < 0
      decreases last - first
    {
      var range := last - first;
      var middle := first + range / 2;
      var cmp := compare(key, a[middle]);
      Beyond(compare, a[..], key, middle);
      if cmp < 0 {
        last := middle;
      } else if cmp > 0 {
        first := middle + 1;
      } else {
        return Some(middle);
      }
    }
    return None;
  }

  /** Below the middle, all before it is below; above it, all behind it is above. */
  lemma Beyond<T(!new)>(compare: Compare<T>, s: seq<T>, key: T, m: nat)
    requires TotalPreorder(compare) && Sorted(compare, s) && m < |s|
    ensures compare(key, s[m]) < 0 ==> forall k :: m <= k < |s| ==> compare(key, s[k]) < 0
    ensures compare(key, s[m]) > 0 ==> forall k :: 0 <= k <= m ==> compare(key, s[k]) > 0
  {
    forall k | 0 <= k < |s|
      ensures compare(key, s[m]) < 0 && m <= k ==> compare(key, s[k]) < 0
      ensures compare(key, s[m]) > 0 && k <= m ==> compare(key, s[k]) > 0
    {
      assert m < k ==> Leq(compare, s[m], s[k]);
      assert k < m ==> Leq(compare, s[k], s[m]);
    }
  }
}
